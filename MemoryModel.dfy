/**
 * The in-memory tournament: a pool of candidates fixed at creation and a
 * decision log that `AddDecision` grows. Every query recomputes its answer
 * from the pool and the whole log.
 */
module MemoryModel {
  import opened Wrappers
  import Models
  import opened Engine
  import opened Pairing

  /** A candidate, with its membership of each of the three slots. */
  datatype Anime = Anime(id: int, name: string, episodes: int, slot1: bool, slot2: bool, slot3: bool)
  {
    /** Whether this candidate belongs to `slot`. */
    function MatchesSlot(slot: Models.Slot): bool
    {
      match slot
      case First => slot1
      case Second => slot2
      case Third => slot3
    }
  }

  /** The ids of a list of candidates, in order. */
  function Ids(items: seq<Anime>): seq<int>
  {
    seq(|items|, i requires 0 <= i < |items| => items[i].id)
  }

  /**
   * The count map: every id of `anime` starts at 0, and each pick whose id is
   * already a key raises that count by one; other picks are ignored.
   */
  method CountPicks(anime: seq<int>, picks: seq<int>) returns (numDecisions: map<int, int>)
    ensures forall a :: a in numDecisions <==> a in anime
    ensures forall a :: a in numDecisions ==> numDecisions[a] == multiset(picks)[a]
  {
    numDecisions := map[];
    for i := 0 to |anime|
      invariant forall a :: a in numDecisions <==> a in anime[..i]
      invariant forall a :: a in numDecisions ==> numDecisions[a] == 0
    {
      var a := anime[i];
      assert anime[..i + 1] == anime[..i] + [a];
      numDecisions := numDecisions[a := 0];
    }
    assert anime[..|anime|] == anime;

    for j := 0 to |picks|
      invariant forall a :: a in numDecisions <==> a in anime
      invariant forall a :: a in numDecisions ==> numDecisions[a] == multiset(picks[..j])[a]
    {
      var p := picks[j];
      assert picks[..j + 1] == picks[..j] + [p];
      if p in numDecisions {
        numDecisions := numDecisions[p := numDecisions[p] + 1];
      }
    }
    assert picks[..|picks|] == picks;
  }

  class Tournament {
    var slot: Models.Slot
    var items: seq<Anime>
    var decisions: seq<Decision>

    constructor (slot: Models.Slot, items: seq<Anime>, decisions: seq<Decision>)
      ensures this.slot == slot && this.items == items && this.decisions == decisions
    {
      this.slot := slot;
      this.items := items;
      this.decisions := decisions;
    }

    /** The ids of the items, minus every id that lost a resolved decision. */
    method RemainingAnime() returns (remaining: seq<int>)
      ensures remaining == Remaining(Ids(items), decisions)
    {
      remaining := Ids(items);
      var remove: seq<int> := [];
      for i := 0 to |decisions|
        invariant remove == LosersOf(decisions[..i])
      {
        var decision := decisions[i];
        assert decisions[..i + 1] == decisions[..i] + [decision];
        match decision.pick
        case Left => remove := remove + [decision.right];
        case Right => remove := remove + [decision.left];
        case Undecided =>
      }
      assert decisions[..|decisions|] == decisions;
      remaining := RetainMissing(remaining, remove);
    }

    /** Finished once at most one candidate remains. */
    method IsFinished() returns (finished: bool)
      ensures finished <==> |Remaining(Ids(items), decisions)| <= 1
    {
      var rem := RemainingAnime();
      finished := |rem| <= 1;
    }

    /**
     * A candidate of `anime` with the fewest picks in the log, chosen at
     * random among those tied, or `None` when every candidate of `anime` has
     * more picks than the sentinel (in particular when `anime` is empty).
     */
    method NextLowestPick(anime: seq<int>) returns (pick: Option<int>)
      ensures pick.Some? ==> MinimalIn(decisions, anime, pick.value) && PickCount(decisions, pick.value) <= Sentinel
      ensures pick.None? <==> forall a :: a in anime ==> PickCount(decisions, a) > Sentinel
    {
      var picks := Picks();
      var numDecisions := CountPicks(anime, picks);
      pick := ChooseLowest(anime, numDecisions);
    }

    /** The picked side of every resolved decision, in log order. */
    method Picks() returns (picks: seq<int>)
      ensures picks == PicksOf(decisions)
    {
      picks := [];
      for i := 0 to |decisions|
        invariant picks == PicksOf(decisions[..i])
      {
        var decision := decisions[i];
        assert decisions[..i + 1] == decisions[..i] + [decision];
        match decision.pick
        case Left => picks := picks + [decision.left];
        case Right => picks := picks + [decision.right];
        case Undecided =>
      }
      assert decisions[..|decisions|] == decisions;
    }

    /**
     * The next pair to compare, marked undecided: a least-picked remaining
     * candidate on the left and a least-picked one among the others on the
     * right; `None` when fewer than two remain or no such pair exists.
     */
    method NextDecision() returns (decision: Option<Decision>)
      ensures |Remaining(Ids(items), decisions)| < 2 ==> decision.None?
      ensures decision.Some? <==> EligiblePair(Ids(items), decisions)
      ensures decision.Some? ==> var d := decision.value;
        d.pick == Models.Undecided && EnginePairing(Ids(items), decisions, d.left, d.right)
      ensures decision.Some? ==> var d := decision.value;
        d.left != d.right && d.left in Remaining(Ids(items), decisions) && d.right in Remaining(Ids(items), decisions)
    {
      var anime := RemainingAnime();
      if |anime| < 2 {
        NoPairBelowTwo(Ids(items), decisions);
        return None;
      }
      var left := NextLowestPick(anime);
      if left.None? {
        return None;
      }
      anime := RetainMissing(anime, [left.value]);
      var right := NextLowestPick(anime);
      if right.None? {
        NoPairWithoutRight(Ids(items), decisions, left.value);
        return None;
      }
      decision := Some(Decision(left.value, right.value, Models.Undecided));
      EnginePairingIsPairing(Ids(items), decisions, left.value, right.value);
    }

    /** Records a decision at the end of the log. */
    method AddDecision(decision: Decision)
      modifies this
      ensures decisions == old(decisions) + [decision]
      ensures slot == old(slot) && items == old(items)
    {
      decisions := decisions + [decision];
    }

    /** The sole remaining candidate, or `None` while several (or none) remain. */
    method GetWinner() returns (winner: Option<int>)
      ensures winner.Some? <==> |Remaining(Ids(items), decisions)| == 1
      ensures winner.Some? ==> Remaining(Ids(items), decisions) == [winner.value]
    {
      var anime := RemainingAnime();
      if |anime| > 1 {
        return None;
      }
      winner := if anime == [] then None else Some(anime[0]);
    }
  }
}
