/**
 * The value types shared by every copy of the tournament engine: the slot a
 * candidate can be shown in, the outcome of a pairwise decision, their display
 * names, the `Pick` <-> `Option<bool>` encoding used by the `decisions.pick`
 * column, and the shapes of the stored records.
 */
module Models {
  import opened Wrappers

  /** The three category tags a candidate may belong to. */
  datatype Slot = First | Second | Third

  /** Outcome of one pairwise decision: which side was preferred, if any yet. */
  datatype Pick = Left | Right | Undecided

  function SlotName(slot: Slot): string
  {
    match slot
    case First => "first"
    case Second => "second"
    case Third => "third"
  }

  function PickName(pick: Pick): string
  {
    match pick
    case Left => "left"
    case Right => "right"
    case Undecided => "undecided"
  }

  /** Distinct slots are displayed under distinct names. */
  lemma SlotNameInjective(s: Slot, t: Slot)
    ensures SlotName(s) == SlotName(t) <==> s == t
  {
  }

  /** Distinct picks are displayed under distinct names. */
  lemma PickNameInjective(p: Pick, q: Pick)
    ensures PickName(p) == PickName(q) <==> p == q
  {
  }

  /** Decodes the nullable boolean stored in the `pick` column. */
  function ToPick(opt: Option<bool>): (pick: Pick)
    ensures pick == Undecided <==> opt.None?
    ensures pick == Left <==> opt == Some(true)
  {
    match opt
    case Some(true) => Left
    case Some(false) => Right
    case None => Undecided
  }

  /** Encodes a pick for the `pick` column; decoding gives the pick back. */
  function ToOpt(pick: Pick): (opt: Option<bool>)
    ensures ToPick(opt) == pick
  {
    match pick
    case Left => Some(true)
    case Right => Some(false)
    case Undecided => None
  }

  /** Every value the column can hold is the encoding of exactly one pick. */
  lemma OptRoundTrip(opt: Option<bool>)
    ensures ToOpt(ToPick(opt)) == opt
  {
  }

  /** A row of the `anime` table (`episodes` is nullable there). */
  datatype Anime = Anime(id: int, name: string, episodes: Option<int>, slot1: bool, slot2: bool, slot3: bool)

  /** A row of the `tournaments` table. */
  datatype Tournament = Tournament(id: int)

  /** A row of the `tournament_anime` link table. */
  datatype TournamentAnime = TournamentAnime(tournament: int, anime: int)

  /** A row of the `decisions` table. */
  datatype Decision = Decision(tournament: int, leftAnime: int, rightAnime: int, pick: Option<bool>)
}
