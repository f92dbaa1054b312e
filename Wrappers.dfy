/** Rust's `Option`, used for lookups that may miss and for the nullable `pick` column. */
module Wrappers {
  datatype Option<+T> = None | Some(value: T)
}
