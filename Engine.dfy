/**
 * The elimination engine that all three copies of the tournament code share,
 * stated as pure functions of the candidate ids and the decision log:
 *
 *  - every resolved decision eliminates its losing side (the side not picked),
 *    and the remaining candidates are the pool minus those losers, in pool order;
 *  - a candidate's count is the number of resolved decisions in which it was
 *    the picked side;
 *  - the next pair is a minimum-count remaining candidate, then a minimum-count
 *    candidate among the rest.
 *
 * The imperative methods in MemoryModel and DbModel are proved against these
 * functions; the lemmas here state what the functions mean.
 */
module Engine {
  import opened Wrappers
  import opened Models

  /** The in-memory decision record: two candidate ids and the outcome. */
  datatype Decision = Decision(left: int, right: int, pick: Pick)

  /** The minimum-count search starts from this value. */
  const Sentinel: nat := 1000

  /** The id a decision eliminates: the side that was not picked. */
  function Loser(d: Decision): Option<int>
  {
    match d.pick
    case Left => Some(d.right)
    case Right => Some(d.left)
    case Undecided => None
  }

  /** The id a decision credits: the side that was picked. */
  function Winner(d: Decision): Option<int>
  {
    match d.pick
    case Left => Some(d.left)
    case Right => Some(d.right)
    case Undecided => None
  }

  function Listed(o: Option<int>): seq<int>
  {
    match o
    case Some(x) => [x]
    case None => []
  }

  /** The losers of the log, one per resolved decision, in log order. */
  function LosersOf(ds: seq<Decision>): seq<int>
  {
    if ds == [] then [] else LosersOf(ds[..|ds| - 1]) + Listed(Loser(ds[|ds| - 1]))
  }

  /** The picked sides of the log, one per resolved decision, in log order. */
  function PicksOf(ds: seq<Decision>): seq<int>
  {
    if ds == [] then [] else PicksOf(ds[..|ds| - 1]) + Listed(Winner(ds[|ds| - 1]))
  }

  /** Keeps the elements of `xs` that do not occur in `remove`, in their order. */
  function Retain(xs: seq<int>, remove: seq<int>): seq<int>
  {
    if xs == [] then []
    else Retain(xs[..|xs| - 1], remove) + (if xs[|xs| - 1] in remove then [] else [xs[|xs| - 1]])
  }

  /** The candidates still in the tournament. */
  function Remaining(ids: seq<int>, ds: seq<Decision>): seq<int>
  {
    Retain(ids, LosersOf(ds))
  }

  /** Some decision of the log eliminated `x`. */
  ghost predicate Eliminated(ds: seq<Decision>, x: int)
  {
    exists i :: 0 <= i < |ds| && Loser(ds[i]) == Some(x)
  }

  /** How many resolved decisions picked `x`. */
  function PickCount(ds: seq<Decision>, x: int): nat
  {
    multiset(PicksOf(ds))[x]
  }

  /** How many resolved decisions `x` took part in, on either side. */
  function Appearances(ds: seq<Decision>, x: int): nat
  {
    if ds == [] then 0
    else
      var d := ds[|ds| - 1];
      Appearances(ds[..|ds| - 1], x) + (if d.pick != Undecided && (d.left == x || d.right == x) then 1 else 0)
  }

  /** `a` is in `xs` and no element of `xs` has a smaller count. */
  ghost predicate MinimalIn(ds: seq<Decision>, xs: seq<int>, a: int)
  {
    a in xs && forall x :: x in xs ==> PickCount(ds, a) <= PickCount(ds, x)
  }

  ghost predicate NoDuplicates(xs: seq<int>)
  {
    forall i, j :: 0 <= i < j < |xs| ==> xs[i] != xs[j]
  }

  // ---------------------------------------------------------------------------
  // What the remaining list is

  lemma {:induction false} LosersOfMembership(ds: seq<Decision>, x: int)
    ensures x in LosersOf(ds) <==> Eliminated(ds, x)
  {
    if ds != [] {
      var init, d := ds[..|ds| - 1], ds[|ds| - 1];
      LosersOfMembership(init, x);
      assert LosersOf(ds) == LosersOf(init) + Listed(Loser(d));
      if Eliminated(init, x) {
        var i :| 0 <= i < |init| && Loser(init[i]) == Some(x);
        assert ds[i] == init[i];
      }
      if Eliminated(ds, x) {
        var i :| 0 <= i < |ds| && Loser(ds[i]) == Some(x);
        if i < |init| {
          assert Loser(init[i]) == Some(x);
        }
      }
    }
  }

  lemma {:induction false} RetainMembership(xs: seq<int>, remove: seq<int>, x: int)
    ensures x in Retain(xs, remove) <==> x in xs && x !in remove
  {
    if xs != [] {
      var init := xs[..|xs| - 1];
      RetainMembership(init, remove, x);
      assert xs == init + [xs[|xs| - 1]];
    }
  }

  /** A candidate remains iff it is in the pool and no decision eliminated it. */
  lemma RemainingMembership(ids: seq<int>, ds: seq<Decision>, x: int)
    ensures x in Remaining(ids, ds) <==> x in ids && !Eliminated(ds, x)
  {
    RetainMembership(ids, LosersOf(ds), x);
    LosersOfMembership(ds, x);
  }

  /** Retain works element by element: it keeps the relative order of what it keeps. */
  lemma {:induction false} RetainAppend(a: seq<int>, b: seq<int>, remove: seq<int>)
    ensures Retain(a + b, remove) == Retain(a, remove) + Retain(b, remove)
  {
    if b == [] {
      assert a + b == a;
    } else {
      var init := b[..|b| - 1];
      RetainAppend(a, init, remove);
      assert (a + b)[..|a + b| - 1] == a + init;
    }
  }

  /** Remaining preserves pool order: the pool split anywhere gives the two halves' survivors. */
  lemma RemainingKeepsOrder(a: seq<int>, b: seq<int>, ds: seq<Decision>)
    ensures Remaining(a + b, ds) == Remaining(a, ds) + Remaining(b, ds)
  {
    RetainAppend(a, b, LosersOf(ds));
  }

  /** A one-element pool survives exactly when its candidate was not eliminated. */
  lemma RemainingSingleton(x: int, ds: seq<Decision>)
    ensures Remaining([x], ds) == if Eliminated(ds, x) then [] else [x]
  {
    assert [x][..0] == [];
    assert Retain([x], LosersOf(ds)) == Retain([], LosersOf(ds)) + (if x in LosersOf(ds) then [] else [x]);
    LosersOfMembership(ds, x);
  }

  /** Retain only looks at which ids are to be removed, not how often or in what order. */
  lemma {:induction false} RetainCongruent(xs: seq<int>, r1: seq<int>, r2: seq<int>)
    requires forall x :: x in r1 <==> x in r2
    ensures Retain(xs, r1) == Retain(xs, r2)
  {
    if xs != [] {
      RetainCongruent(xs[..|xs| - 1], r1, r2);
    }
  }

  /** Reordering or replaying decisions of the log does not change who remains. */
  lemma RemainingIgnoresOrderAndRepeats(ids: seq<int>, ds1: seq<Decision>, ds2: seq<Decision>)
    requires forall d :: d in ds1 <==> d in ds2
    ensures Remaining(ids, ds1) == Remaining(ids, ds2)
  {
    forall x
      ensures x in LosersOf(ds1) <==> x in LosersOf(ds2)
    {
      LosersOfMembership(ds1, x);
      LosersOfMembership(ds2, x);
      if Eliminated(ds1, x) {
        var i :| 0 <= i < |ds1| && Loser(ds1[i]) == Some(x);
        assert ds1[i] in ds2;
        var j :| 0 <= j < |ds2| && ds2[j] == ds1[i];
      }
      if Eliminated(ds2, x) {
        var j :| 0 <= j < |ds2| && Loser(ds2[j]) == Some(x);
        assert ds2[j] in ds1;
        var i :| 0 <= i < |ds1| && ds1[i] == ds2[j];
      }
    }
    RetainCongruent(ids, LosersOf(ds1), LosersOf(ds2));
  }

  /** Recording a decision that is already in the log changes nothing. */
  lemma RemainingIgnoresReplay(ids: seq<int>, ds: seq<Decision>, k: nat)
    requires k < |ds|
    ensures Remaining(ids, ds + [ds[k]]) == Remaining(ids, ds)
  {
    RemainingIgnoresOrderAndRepeats(ids, ds + [ds[k]], ds);
  }

  /** An undecided decision eliminates nothing and credits nobody. */
  lemma AppendUndecided(ids: seq<int>, ds: seq<Decision>, left: int, right: int)
    ensures Remaining(ids, ds + [Decision.Decision(left, right, Undecided)]) == Remaining(ids, ds)
    ensures forall x :: PickCount(ds + [Decision.Decision(left, right, Undecided)], x) == PickCount(ds, x)
  {
    var ds' := ds + [Decision.Decision(left, right, Undecided)];
    assert ds'[..|ds'| - 1] == ds;
    assert LosersOf(ds') == LosersOf(ds);
    assert PicksOf(ds') == PicksOf(ds);
  }

  /** Recording a decision removes its loser, and only its loser. */
  lemma AppendDecisionMembership(ids: seq<int>, ds: seq<Decision>, d: Decision, x: int)
    ensures x in Remaining(ids, ds + [d]) <==> x in Remaining(ids, ds) && Loser(d) != Some(x)
  {
    var ds' := ds + [d];
    assert ds'[..|ds'| - 1] == ds;
    RetainMembership(ids, LosersOf(ds'), x);
    RetainMembership(ids, LosersOf(ds), x);
  }

  /** Recording a decision credits its picked side, and only that side. */
  lemma AppendDecisionCount(ds: seq<Decision>, d: Decision, x: int)
    ensures PickCount(ds + [d], x) == PickCount(ds, x) + (if Winner(d) == Some(x) then 1 else 0)
  {
  }

  /** Elimination is permanent: whatever is recorded later, an eliminated candidate stays out. */
  lemma {:induction false} EliminationIsPermanent(ids: seq<int>, ds: seq<Decision>, later: seq<Decision>, x: int)
    ensures x in Remaining(ids, ds + later) ==> x in Remaining(ids, ds)
  {
    if later != [] {
      var init, d := later[..|later| - 1], later[|later| - 1];
      EliminationIsPermanent(ids, ds, init, x);
      assert ds + later == (ds + init) + [d];
      AppendDecisionMembership(ids, ds + init, d, x);
    } else {
      assert ds + later == ds;
    }
  }

  // ---------------------------------------------------------------------------
  // What the count is

  /**
   * For a candidate nobody has eliminated, the number of decisions that picked
   * it equals the number of resolved decisions it took part in: every
   * decision it lost would have eliminated it.
   */
  lemma {:induction false} PickCountIsAppearancesForSurvivors(ds: seq<Decision>, x: int)
    requires !Eliminated(ds, x)
    ensures PickCount(ds, x) == Appearances(ds, x)
  {
    if ds != [] {
      var init, d := ds[..|ds| - 1], ds[|ds| - 1];
      assert ds == init + [d];
      assert !Eliminated(init, x) by {
        forall i | 0 <= i < |init|
          ensures Loser(init[i]) != Some(x)
        {
          assert init[i] == ds[i];
        }
      }
      PickCountIsAppearancesForSurvivors(init, x);
      AppendDecisionCount(init, d, x);
      assert Loser(ds[|ds| - 1]) != Some(x);
    }
  }

  // ---------------------------------------------------------------------------
  // How many rounds a tournament takes

  lemma {:induction false} RetainNothing(xs: seq<int>, remove: seq<int>)
    requires forall x :: x in xs ==> x !in remove
    ensures Retain(xs, remove) == xs
  {
    if xs != [] {
      var init, z := xs[..|xs| - 1], xs[|xs| - 1];
      assert xs == init + [z];
      assert z !in remove;
      RetainNothing(init, remove);
    }
  }

  lemma {:induction false} RetainSnoc(xs: seq<int>, remove: seq<int>, y: int)
    ensures Retain(xs, remove + [y]) == Retain(Retain(xs, remove), [y])
  {
    if xs != [] {
      var init, z := xs[..|xs| - 1], xs[|xs| - 1];
      RetainSnoc(init, remove, y);
      var kept := Retain(init, remove);
      if z in remove {
        assert Retain(xs, remove) == kept;
      } else {
        var grown := kept + [z];
        assert Retain(xs, remove) == grown;
        assert grown[..|grown| - 1] == kept;
      }
    }
  }

  lemma {:induction false} RetainNoDuplicates(xs: seq<int>, remove: seq<int>)
    requires NoDuplicates(xs)
    ensures NoDuplicates(Retain(xs, remove))
  {
    if xs != [] {
      var init, z := xs[..|xs| - 1], xs[|xs| - 1];
      RetainNoDuplicates(init, remove);
      RetainMembership(init, remove, z);
      assert z !in init by {
        forall i | 0 <= i < |init|
          ensures init[i] != z
        {
          assert init[i] == xs[i];
        }
      }
    }
  }

  lemma {:induction false} RetainOneLength(xs: seq<int>, y: int)
    requires NoDuplicates(xs) && y in xs
    ensures |Retain(xs, [y])| == |xs| - 1
  {
    var init, z := xs[..|xs| - 1], xs[|xs| - 1];
    assert xs == init + [z];
    if z == y {
      assert y !in init by {
        forall i | 0 <= i < |init|
          ensures init[i] != y
        {
          assert init[i] == xs[i];
        }
      }
      RetainNothing(init, [y]);
    } else {
      RetainOneLength(init, y);
    }
  }

  /** A well-formed resolved decision: two distinct remaining candidates and a picked side. */
  ghost predicate ResolvedPairing(rem: seq<int>, d: Decision)
  {
    d.pick != Undecided && d.left != d.right && d.left in rem && d.right in rem
  }

  /** Each decision of the log was a resolved pairing of candidates remaining at its time. */
  ghost predicate WellFormedLog(ids: seq<int>, ds: seq<Decision>)
  {
    ds == [] || (WellFormedLog(ids, ds[..|ds| - 1]) && ResolvedPairing(Remaining(ids, ds[..|ds| - 1]), ds[|ds| - 1]))
  }

  /** Over distinct ids, every resolved pairing eliminates exactly one candidate. */
  lemma ResolvedPairingEliminatesOne(ids: seq<int>, ds: seq<Decision>, d: Decision)
    requires NoDuplicates(ids)
    requires ResolvedPairing(Remaining(ids, ds), d)
    ensures |Remaining(ids, ds + [d])| == |Remaining(ids, ds)| - 1
  {
    var ds' := ds + [d];
    assert ds'[..|ds'| - 1] == ds;
    var y := Loser(d).value;
    assert LosersOf(ds') == LosersOf(ds) + [y];
    RetainSnoc(ids, LosersOf(ds), y);
    RetainNoDuplicates(ids, LosersOf(ds));
    RetainOneLength(Remaining(ids, ds), y);
  }

  /**
   * A tournament over n distinct candidates has n - k of them left after k
   * well-formed decisions, so it is finished after exactly n - 1 of them.
   */
  lemma {:induction false} RoundsEliminateOneEach(ids: seq<int>, ds: seq<Decision>)
    requires NoDuplicates(ids) && WellFormedLog(ids, ds)
    ensures |Remaining(ids, ds)| == |ids| - |ds|
    ensures |Remaining(ids, ds)| <= 1 <==> |ds| + 1 >= |ids|
  {
    if ds == [] {
      RetainNothing(ids, []);
    } else {
      var init := ds[..|ds| - 1];
      assert ds == init + [ds[|ds| - 1]];
      RoundsEliminateOneEach(ids, init);
      ResolvedPairingEliminatesOne(ids, init, ds[|ds| - 1]);
    }
  }

  // ---------------------------------------------------------------------------
  // When a pair can be offered

  /** Two distinct remaining candidates whose counts do not exceed the sentinel. */
  ghost predicate EligiblePair(ids: seq<int>, ds: seq<Decision>)
  {
    var rem := Remaining(ids, ds);
    exists a, b :: a in rem && b in rem && a != b && PickCount(ds, a) <= Sentinel && PickCount(ds, b) <= Sentinel
  }

  /** Nobody can have been picked more often than there are decisions. */
  lemma {:induction false} PickCountBound(ds: seq<Decision>, x: int)
    ensures PickCount(ds, x) <= |ds|
  {
    if ds != [] {
      var init := ds[..|ds| - 1];
      assert ds == init + [ds[|ds| - 1]];
      PickCountBound(init, x);
      AppendDecisionCount(init, ds[|ds| - 1], x);
    }
  }

  /**
   * Over distinct ids, while two or more candidates remain and at most 1000
   * decisions have been logged, a pair can always be offered: the sentinel
   * never hides an unfinished tournament of that size.
   */
  lemma PairAvailableWhileUnfinished(ids: seq<int>, ds: seq<Decision>)
    requires NoDuplicates(ids) && |ds| <= Sentinel
    requires |Remaining(ids, ds)| >= 2
    ensures EligiblePair(ids, ds)
  {
    var rem := Remaining(ids, ds);
    RetainNoDuplicates(ids, LosersOf(ds));
    var a, b := rem[0], rem[1];
    assert a in rem && b in rem && a != b;
    PickCountBound(ds, a);
    PickCountBound(ds, b);
  }

  /** With fewer than two survivors there is no pair to offer. */
  lemma NoPairBelowTwo(ids: seq<int>, ds: seq<Decision>)
    requires |Remaining(ids, ds)| < 2
    ensures !EligiblePair(ids, ds)
  {
  }

  /**
   * When every survivor other than `left` is above the sentinel, there is no
   * pair to offer: any two distinct survivors include one of those.
   */
  lemma NoPairWithoutRight(ids: seq<int>, ds: seq<Decision>, left: int)
    requires forall a :: a in Retain(Remaining(ids, ds), [left]) ==> PickCount(ds, a) > Sentinel
    ensures !EligiblePair(ids, ds)
  {
    var rem := Remaining(ids, ds);
    forall a, b | a in rem && b in rem && a != b && PickCount(ds, a) <= Sentinel
      ensures PickCount(ds, b) > Sentinel
    {
      RetainMembership(rem, [left], a);
      RetainMembership(rem, [left], b);
    }
  }

  // ---------------------------------------------------------------------------
  // Fairness of the pairing rule

  /**
   * The pair the engine offers: `left` has the smallest count among the
   * remaining candidates, `right` the smallest among the others.
   */
  ghost predicate EnginePairing(ids: seq<int>, ds: seq<Decision>, left: int, right: int)
  {
    var rem := Remaining(ids, ds);
    MinimalIn(ds, rem, left) && MinimalIn(ds, Retain(rem, [left]), right)
  }

  /** Every decision of the log is an engine pairing, resolved one way or the other. */
  ghost predicate EngineLog(ids: seq<int>, ds: seq<Decision>)
  {
    ds == [] || (
      var init, d := ds[..|ds| - 1], ds[|ds| - 1];
      EngineLog(ids, init) && d.pick != Undecided && EnginePairing(ids, init, d.left, d.right))
  }

  /** No two remaining candidates' counts differ by more than one. */
  ghost predicate Balanced(ids: seq<int>, ds: seq<Decision>)
  {
    forall a, b :: a in Remaining(ids, ds) && b in Remaining(ids, ds) ==> PickCount(ds, a) <= PickCount(ds, b) + 1
  }

  /** An engine pairing is a pairing of two distinct remaining candidates. */
  lemma EnginePairingIsPairing(ids: seq<int>, ds: seq<Decision>, left: int, right: int)
    requires EnginePairing(ids, ds, left, right)
    ensures left != right && left in Remaining(ids, ds) && right in Remaining(ids, ds)
  {
    RetainMembership(Remaining(ids, ds), [left], right);
  }

  /** Resolving an engine pairing either way keeps the counts balanced. */
  lemma BalancedStep(ids: seq<int>, ds: seq<Decision>, d: Decision)
    requires Balanced(ids, ds)
    requires d.pick != Undecided && EnginePairing(ids, ds, d.left, d.right)
    ensures Balanced(ids, ds + [d])
  {
    var rem, ds' := Remaining(ids, ds), ds + [d];
    var l, r := d.left, d.right;
    EnginePairingIsPairing(ids, ds, l, r);
    var m := PickCount(ds, l);
    forall a, b | a in Remaining(ids, ds') && b in Remaining(ids, ds')
      ensures PickCount(ds', a) <= PickCount(ds', b) + 1
    {
      AppendDecisionMembership(ids, ds, d, a);
      AppendDecisionMembership(ids, ds, d, b);
      AppendDecisionCount(ds, d, a);
      AppendDecisionCount(ds, d, b);
      if d.pick == Right && PickCount(ds, r) == m + 1 {
        // `left` is gone, so every survivor other than `right` was a candidate for `right`
        RetainMembership(rem, [l], b);
        RetainMembership(rem, [l], a);
      }
    }
  }

  /** A log produced by the engine's pairing rule keeps every remaining count within one of the others. */
  lemma {:induction false} EngineLogIsBalanced(ids: seq<int>, ds: seq<Decision>)
    requires EngineLog(ids, ds)
    ensures Balanced(ids, ds)
  {
    if ds != [] {
      var init, d := ds[..|ds| - 1], ds[|ds| - 1];
      assert EngineLog(ids, init) && d.pick != Undecided && EnginePairing(ids, init, d.left, d.right);
      EngineLogIsBalanced(ids, init);
      BalancedStep(ids, init, d);
      assert ds == init + [d];
    }
  }
}
