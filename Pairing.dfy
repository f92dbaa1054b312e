/**
 * The imperative steps that the in-memory and the database-backed copies of
 * the engine run identically: filtering a list of ids in place, scanning the
 * count map for its lowest value (starting from the sentinel 1000), and
 * choosing at random among the ids that have that lowest count.
 */
module Pairing {
  import opened Wrappers
  import opened Engine

  /** `xs.retain(|x| !remove.contains(x))`. */
  method RetainMissing(xs: seq<int>, remove: seq<int>) returns (kept: seq<int>)
    ensures kept == Retain(xs, remove)
    ensures forall x :: x in kept <==> x in xs && x !in remove
  {
    kept := [];
    for i := 0 to |xs|
      invariant kept == Retain(xs[..i], remove)
    {
      assert xs[..i + 1][..i] == xs[..i];
      if xs[i] !in remove {
        kept := kept + [xs[i]];
      }
    }
    assert xs[..|xs|] == xs;
    forall x
      ensures x in kept <==> x in xs && x !in remove
    {
      RetainMembership(xs, remove, x);
    }
  }

  /**
   * The `lowest` block: start from the sentinel and lower it to every smaller
   * count met while iterating over the map. The map is visited through its
   * keys, `anime`; the order in which a hash map yields its values is
   * unspecified and does not change the result. The result is the least count
   * when that is at most the sentinel, and the sentinel otherwise.
   */
  method LowestCount(anime: seq<int>, counts: map<int, int>) returns (lowest: int)
    requires forall a :: a in anime ==> a in counts
    ensures lowest <= Sentinel
    ensures forall a :: a in anime ==> lowest <= counts[a]
    ensures lowest == Sentinel || exists a :: a in anime && counts[a] == lowest
  {
    lowest := Sentinel;
    for i := 0 to |anime|
      invariant lowest <= Sentinel
      invariant forall a :: a in anime[..i] ==> lowest <= counts[a]
      invariant lowest == Sentinel || exists a :: a in anime[..i] && counts[a] == lowest
    {
      assert anime[..i + 1] == anime[..i] + [anime[i]];
      var a := anime[i];
      var pickNum := counts[a];
      if pickNum < lowest {
        lowest := pickNum;
      }
    }
    assert anime[..|anime|] == anime;
  }

  /**
   * Given the count of every id of `anime`, picks an id whose count is the
   * lowest one, breaking ties at random, or `None` when no id has a count at
   * or below the sentinel.
   */
  method ChooseLowest(anime: seq<int>, counts: map<int, int>) returns (pick: Option<int>)
    requires forall a :: a in anime ==> a in counts
    ensures pick.Some? ==> var p := pick.value; p in anime && p in counts && counts[p] <= Sentinel
    ensures pick.Some? ==> var p := pick.value; forall a :: a in anime ==> p in counts && counts[p] <= counts[a]
    ensures pick.None? <==> forall a :: a in anime ==> counts[a] > Sentinel
  {
    var lowest := LowestCount(anime, counts);
    var lowestPickAnime: seq<int> := [];
    for i := 0 to |anime|
      invariant forall x :: x in lowestPickAnime <==> x in anime[..i] && counts[x] == lowest
    {
      assert anime[..i + 1] == anime[..i] + [anime[i]];
      var a := anime[i];
      if counts[a] == lowest {
        lowestPickAnime := lowestPickAnime + [a];
      }
    }
    assert anime[..|anime|] == anime;
    if lowestPickAnime == [] {
      pick := None;
      assert lowest == Sentinel;
    } else {
      // the random choice among the tied ids
      var k :| 0 <= k < |lowestPickAnime|;
      pick := Some(lowestPickAnime[k]);
      assert lowestPickAnime[k] in lowestPickAnime;
    }
  }
}
