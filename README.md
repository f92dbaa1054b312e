# Preference-tournament elimination engine, in Dafny

The repository runs a preference tournament over a pool of anime. It repeatedly
offers two candidates. The user picks one. The candidate not picked is
eliminated. The tournament ends when at most one candidate survives. The next
pair is chosen for balance: the left side is a remaining candidate with the
fewest wins so far, with ties broken at random. The right side is chosen the
same way among the others.

The engine exists in three near-identical copies. This project models all three
and proves them against one shared specification.

- `Wrappers.dfy`: the `Option` type.
- `Models.dfy` (`src/model/models.rs` and the enums of the other copies):
  - `Slot` and `Pick` and their display names;
  - the `Pick` <-> `Option<bool>` encoding of the `decisions.pick` column;
  - the shapes of the stored rows.
- `Engine.dfy`: the specification, as pure functions of the candidate ids and
  the decision log, with the lemmas that say what they mean:
  - `Remaining` is the surviving ids, in pool order;
  - `PickCount` is a candidate's win count;
  - `EnginePairing` is the pairing rule;
  - elimination, order, replay, fairness and termination properties.
- `Pairing.dfy`: the imperative steps every copy runs identically:
  - `RetainMissing`, which is `Vec::retain`;
  - the minimum scan from the sentinel 1000;
  - the random choice among the tied candidates.
- `MemoryModel.dfy` (`src/rust/src/model.rs`): the in-memory `Tournament`, as a
  class whose methods are proved against `Engine`.
- `DbModel.dfy` (`src/model/mod.rs`): the database-backed functions.
  - The rows their queries return are passed in as sequences.
  - Stored decision rows are decoded with `ToPick` before use.
  - The lookup used by `get_tournament_anime` is a function parameter.
- `Mock.dfy` (`src/mock.rs`): the in-memory candidate store, `MockModel`, and
  its eight sample candidates.

`src/model/old.rs` repeats the in-memory copy, with three differences. Its
`next_decision` does not print the chosen sides. It declares the
`TournamentModel` trait that `src/mock.rs` implements. Its `next_lowest_pick`
stores an incremented count only when the id is already in the map, as
`src/model/mod.rs` does. The only difference in behaviour is that guard, and
it does not change any count, because counts are never negative. Its members
are covered as follows:

- `remaining_anime`, `is_finished`, `next_decision`, `add_decision` and
  `get_winner` by the `MemoryModel.Tournament` methods;
- its guarded counting loop by `DbModel.CountPicks`;
- its enums by `Models`.

Two details of the counting are easy to misread.

- A candidate's count is the number of resolved decisions it won, not the
  number it took part in. The two agree for every survivor
  (`Engine.PickCountIsAppearancesForSurvivors`).
- The minimum search starts from 1000 and keeps only strictly smaller counts. A
  candidate whose count equals 1000 can therefore still be chosen. `None`
  means every candidate has a count above 1000.

The random tie-break (`thread_rng` with `choose`) is a nondeterministic choice of
an index into the tie list. Every contract holds for every choice.

## Model

| member | source | states |
|---|---|---|
| Models.SlotName | src/rust/src/model.rs:14-22 | the display name of a slot; no contract of its own, its distinctness is `Models.SlotNameInjective` (same in src/model/old.rs:13-21) |
| Models.PickName | src/model/models.rs:34-40 | the display name of a pick; no contract of its own, its distinctness is `Models.PickNameInjective` |
| Models.SlotNameInjective | src/rust/src/model.rs:14-22 | two slots have the same display name iff they are the same slot (same enum in src/model/old.rs:13-21) |
| Models.PickNameInjective | src/model/models.rs:34-40 | "left", "right" and "undecided" are distinct: two picks have the same name iff they are equal (same in src/rust/src/model.rs:61-69 and src/model/old.rs:60-68) |
| Models.ToPick | src/model/models.rs:18-24 | decoding gives `Undecided` exactly for a null column and `Left` exactly for `Some(true)` |
| Models.ToOpt | src/model/models.rs:26-32 | encoding a pick and decoding it gives the pick back |
| Models.OptRoundTrip | src/model/models.rs:18-32 | every column value is the encoding of its own decoding, so the encoding is a bijection |
| Engine.LosersOfMembership | src/rust/src/model.rs:85-92 | an id is in the `remove` list iff some resolved decision has it as its losing side (the right side for `Left`, the left side for `Right`) |
| Engine.RetainMembership | src/rust/src/model.rs:95 | an id survives `retain` iff it is in the list and not in the removal list |
| Engine.RemainingMembership | src/rust/src/model.rs:80-97 | an id remains iff it is a pool id and has lost no resolved decision |
| Engine.RemainingKeepsOrder | src/rust/src/model.rs:80-97 | the survivors keep pool order: filtering a concatenation is the concatenation of the filtered parts |
| Engine.RemainingSingleton | src/rust/src/model.rs:80-97 | a one-candidate pool stays whole unless that candidate was eliminated |
| Engine.RemainingIgnoresOrderAndRepeats | src/rust/src/model.rs:84-95 | two logs holding the same decisions, in any order and with any repetition, leave the same survivors |
| Engine.RemainingIgnoresReplay | src/rust/src/model.rs:84-95 | appending a copy of a decision already in the log changes nothing |
| Engine.AppendUndecided | src/rust/src/model.rs:87-91 | an `Undecided` decision changes neither the survivors nor any count |
| Engine.AppendDecisionMembership | src/rust/src/model.rs:87-91 | after appending a decision, an id remains iff it remained before and is not that decision's loser |
| Engine.AppendDecisionCount | src/rust/src/model.rs:110-116 | appending a decision raises exactly its picked side's count, by one |
| Engine.EliminationIsPermanent | src/rust/src/model.rs:80-97 | an id that is out stays out whatever is appended to the log |
| Engine.PickCountIsAppearancesForSurvivors | src/rust/src/model.rs:110-130 | for a candidate that has lost nothing, its count (decisions it won) equals the number of resolved decisions it appeared in |
| Engine.PickCountBound | src/rust/src/model.rs:110-130 | a count never exceeds the length of the log |
| Engine.ResolvedPairingEliminatesOne | src/rust/src/model.rs:177-179 | recording a resolved decision between two distinct remaining candidates of a duplicate-free pool removes exactly one survivor |
| Engine.RoundsEliminateOneEach | src/rust/src/model.rs:99-103 | after k such decisions exactly `|pool| - k` remain, so the tournament is finished iff at least `|pool| - 1` decisions were recorded |
| Engine.PairAvailableWhileUnfinished | src/rust/src/model.rs:156-175 | with at least two survivors, distinct pool ids and at most 1000 decisions, a pair under the sentinel always exists, so `next_decision` never stalls before the end |
| Engine.NoPairBelowTwo | src/rust/src/model.rs:157-160 | with fewer than two survivors no pair can be offered |
| Engine.NoPairWithoutRight | src/rust/src/model.rs:164-166 | when every survivor other than the left choice has more than 1000 wins, no pair can be offered |
| Engine.EnginePairingIsPairing | src/rust/src/model.rs:156-175 | a pair chosen by the pairing rule is two distinct remaining candidates |
| Engine.BalancedStep | src/rust/src/model.rs:156-179 | when every survivor's count is within one of every other's, deciding the pair the engine proposes keeps it so |
| Engine.EngineLogIsBalanced | src/rust/src/model.rs:156-179 | in every log built only from engine-proposed, resolved pairs, survivors' counts differ by at most one |
| Pairing.RetainMissing | src/rust/src/model.rs:95 | the kept ids are the input ids not in the removal list, in input order |
| Pairing.LowestCount | src/rust/src/model.rs:133-142 | starting from 1000, the scan ends at the least count when that is at most 1000 and at 1000 otherwise; it is never above any count |
| Pairing.ChooseLowest | src/rust/src/model.rs:145-153 | the choice is an input id with the least count, at most 1000; it is `None` iff every input id's count exceeds 1000 |
| MemoryModel.Anime.MatchesSlot | src/rust/src/model.rs:34-42 | a candidate's membership of a slot; no contract of its own, `Mock.FromSlotFlags` and `Mock.SlotFlagsRoundTrip` state it reads the slot's own flag (same in src/model/old.rs:33-41) |
| MemoryModel.Tournament.constructor | src/rust/src/model.rs:48-52 | a tournament holds its slot, its items and its decision log |
| MemoryModel.Tournament.RemainingAnime | src/rust/src/model.rs:80-97 | the result is the item ids, in item order, minus every loser of a resolved decision |
| MemoryModel.Tournament.IsFinished | src/rust/src/model.rs:99-103 | finished iff at most one candidate remains |
| MemoryModel.Tournament.Picks | src/rust/src/model.rs:110-116 | the picked side of every resolved decision, in log order; undecided decisions contribute nothing |
| MemoryModel.CountPicks | src/rust/src/model.rs:119-130 | the map's keys are exactly the input ids, and each key's value is the number of picks of that id; picks of other ids are ignored |
| MemoryModel.Tournament.NextLowestPick | src/rust/src/model.rs:106-154 | `Some(a)` only for an `a` in the input with the least win count there, at most 1000; `None` iff every input id has more than 1000 wins, which covers empty input |
| MemoryModel.Tournament.NextDecision | src/rust/src/model.rs:156-175 | `None` when fewer than two remain. Otherwise it is `Some` iff an eligible pair exists, and then the decision is `Undecided` and its two sides are distinct, remaining, and chosen by the pairing rule |
| MemoryModel.Tournament.AddDecision | src/rust/src/model.rs:177-179 | the log gains exactly the new decision at its end; the slot, the items and earlier decisions are unchanged |
| MemoryModel.Tournament.GetWinner | src/rust/src/model.rs:181-188 | `Some` iff exactly one candidate remains, and then it is that candidate; `None` when several or none remain |
| DbModel.StoredLogRoundTrip | src/model/models.rs:18-32 | storing a decision log as rows and decoding the rows gives the same log back, so the database copy sees what the in-memory copy sees |
| DbModel.GetTournamentAnime | src/model/mod.rs:128-145 | the result is the lookups of the link rows that succeeded, in row order |
| DbModel.FoundKeepsOrder | src/model/mod.rs:135-144 | resolution keeps the order of the link rows |
| DbModel.FoundMembership | src/model/mod.rs:135-144 | a candidate is found iff some link row's lookup returns it; failed lookups are dropped |
| DbModel.FoundAll | src/model/mod.rs:135-144 | when every lookup succeeds, row i yields candidate i and nothing is dropped |
| DbModel.TournamentRemainingAnime | src/model/mod.rs:168-186 | the tournament's anime ids, in order, minus the losers of the rows decoded with `to_pick` |
| DbModel.IsTournamentFinished | src/model/mod.rs:122-126 | finished iff at most one candidate remains |
| DbModel.DecodedPicks | src/model/mod.rs:190-196 | the picked side of every row decoded as resolved, in row order |
| DbModel.CountPicks | src/model/mod.rs:198-212 | the map's keys are exactly the input ids, and each value is that id's number of picks. A pick of another id is never added because its looked-up count is 0 and only positive counts are written (same loop in src/model/old.rs:114-128) |
| DbModel.NextLowestPick | src/model/mod.rs:189-230 | `Some(a)` only for an `a` in the input with the least win count over the decoded rows, at most 1000; `None` iff every input id has more than 1000 wins, which covers empty input |
| DbModel.NextTournamentDecision | src/model/mod.rs:232-248 | `None` when fewer than two remain. Otherwise it is `Some` iff an eligible pair exists, and then the row's tournament is `t.id`, its pick is `to_opt(Undecided)`, and its two sides are distinct, remaining, and chosen by the pairing rule |
| DbModel.GetTournamentWinner | src/model/mod.rs:263-270 | `Some` iff exactly one candidate remains, and then it is that candidate; `None` when several or none remain |
| Mock.FromSlotFlags | src/model/old.rs:33-41 | a candidate built from a three-flag array belongs to a slot iff that slot's flag is set |
| Mock.SlotFlagsRoundTrip | src/rust/src/model.rs:34-42 | reading a candidate's membership of the three slots back through `matches_slot` gives the flag array it was built from |
| Mock.MockItems | src/mock.rs:15-64 | there are eight sample candidates |
| Mock.MockItemsIds | src/mock.rs:15-64 | the samples have ids 1 to 8, in order |
| Mock.MockItemsFirstSlot | src/mock.rs:15-64 | exactly the first seven samples (ids 1-7) belong to the first slot |
| Mock.FirstIndexWithId | src/mock.rs:81-83 | the position found holds the id and no earlier entry has it; the position is past the end iff no entry has it |
| Mock.InSlot | src/mock.rs:85-87 | the filtered list holds exactly the entries that match the slot, and is no longer than the input |
| Mock.InSlotSnoc | src/mock.rs:73-75 | after a candidate is appended, the slot filter gains it at the end iff it matches the slot |
| Mock.InSlotKeepsOrder | src/mock.rs:85-87 | filtering keeps insertion order: filtering a concatenation is the concatenation of the filtered parts |
| Mock.InSlotAll | src/mock.rs:85-87 | a list whose entries all match the slot filters to itself |
| Mock.InSlotNone | src/mock.rs:85-87 | a list with no entry matching the slot filters to nothing |
| Mock.MockModel.constructor | src/mock.rs:8-12 | a new store is empty |
| Mock.MockModel.AddAnime | src/mock.rs:73-75 | the candidate is appended after the existing entries, which are unchanged |
| Mock.MockModel.AddMockAnime | src/mock.rs:14-69 | the eight samples are appended, in order, after the existing entries |
| Mock.MockModel.GetAnime | src/mock.rs:77-79 | every stored entry, in insertion order |
| Mock.MockModel.GetAnimeById | src/mock.rs:81-83 | the earliest entry with the id; `None` iff no entry has it |
| Mock.MockModel.GetAnimeForSlot | src/mock.rs:85-87 | exactly the entries that match the slot, in insertion order |
| Mock.LoadedMockStore | src/mock.rs:8-69 | a fresh store loaded with the samples holds the eight samples, and its first-slot query returns the first seven |

## Left out

- Diesel and MySQL plumbing in `src/model/mod.rs` is not modelled: the connection, `get_last_inserted_id`, the inserts of `add_anime`, `add_tournament`, `add_anime_to_tournament` and `save_tournament_decision`, and the queries. The rows the queries would return are parameters. `get_anime_by_id` is a lookup function parameter of `DbModel.GetTournamentAnime`.
- The drivers in `src/main.rs` and `src/rust/src/main.rs` are not modelled. They cover prompting, printing and the coin flip that orders a pair; these are I/O and randomness outside the engine.
- `thread_rng` and `choose`: the tie-break is a nondeterministic choice among the tied candidates; no distribution is modelled.
- The `println!` calls in `next_decision` are left out; they are output only.
- Integer width is not modelled: ids, episode counts and win counts are unbounded integers rather than `i32`. A count cannot overflow before 2^31 decisions.
- Hash-map iteration order is not modelled. The minimum scan visits the map through its keys, the input ids, and the minimum does not depend on the order.
- The commented-out `impl Tournament` block at the end of `src/model/mod.rs` is dead code.
- `src/model/schema.rs` is table declarations with no behaviour.
- The `TournamentModel` trait of `src/model/old.rs` is modelled only through its implementation, `Mock.MockModel`.
- Mock.FromSlotFlags: `src/mock.rs` builds candidates with a `slot: [bool; 3]` field that neither `Anime` struct declares. The model stores the three flags in `slot1`, `slot2` and `slot3` and relates the array to `matches_slot` through `SlotIndex`.
- Engine.PairAvailableWhileUnfinished: holds only for logs of at most 1000 decisions. Past that, every count may exceed the sentinel, and `next_decision` then returns `None` although two candidates remain.
- No operation resolves a stored decision or rejects an `Undecided` pick: a decision is appended with its pick already set, and an `Undecided` one eliminates nothing (`Engine.AppendUndecided`).
- DbModel.NextTournamentDecision: the source reads the decision rows three times, once in `tournament_remaining_anime` (src/model/mod.rs:171) and once in each of the two `next_lowest_pick` calls (src/model/mod.rs:190). The model passes one sequence to all three, so it assumes they return the same rows, that is, no concurrent writer.
