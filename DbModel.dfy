/**
 * The database-backed copy of the engine. Each operation reads the
 * tournament's candidates and its stored decision rows; here those reads are
 * parameters: `tournamentAnime` is what the tournament's candidate query
 * returns and `decisions` is what its decision query returns. A row's
 * nullable `pick` column is decoded with `ToPick` before it is used.
 */
module DbModel {
  import opened Wrappers
  import opened Models
  import Engine
  import Pairing

  /** A stored decision row read as an engine decision. */
  function Decode(row: Decision): Engine.Decision
  {
    Engine.Decision.Decision(row.leftAnime, row.rightAnime, ToPick(row.pick))
  }

  function DecodeAll(rows: seq<Decision>): seq<Engine.Decision>
  {
    seq(|rows|, i requires 0 <= i < |rows| => Decode(rows[i]))
  }

  /** The row stored for an engine decision of tournament `tournament`. */
  function Encode(tournament: int, d: Engine.Decision): Decision
  {
    Decision(tournament, d.left, d.right, ToOpt(d.pick))
  }

  function EncodeAll(tournament: int, ds: seq<Engine.Decision>): seq<Decision>
  {
    seq(|ds|, i requires 0 <= i < |ds| => Encode(tournament, ds[i]))
  }

  /** Storing a log and reading it back gives the same log. */
  lemma StoredLogRoundTrip(tournament: int, ds: seq<Engine.Decision>)
    ensures DecodeAll(EncodeAll(tournament, ds)) == ds
  {
  }

  function AnimeIds(anime: seq<Anime>): seq<int>
  {
    seq(|anime|, i requires 0 <= i < |anime| => anime[i].id)
  }

  // ---------------------------------------------------------------------------
  // Resolving a tournament's link rows to candidates

  /** The candidates the link rows resolve to, in row order, without the ids the lookup misses. */
  function Found(links: seq<TournamentAnime>, getAnimeById: int -> Option<Anime>): seq<Anime>
  {
    if links == [] then []
    else
      Found(links[..|links| - 1], getAnimeById)
      + match getAnimeById(links[|links| - 1].anime)
        case Some(a) => [a]
        case None => []
  }

  /** Looks up the candidate of every link row, keeping those that exist. */
  method GetTournamentAnime(links: seq<TournamentAnime>, getAnimeById: int -> Option<Anime>) returns (found: seq<Anime>)
    ensures found == Found(links, getAnimeById)
  {
    found := [];
    for i := 0 to |links|
      invariant found == Found(links[..i], getAnimeById)
    {
      var tuple := links[i];
      assert links[..i + 1][..i] == links[..i];
      match getAnimeById(tuple.anime)
      case Some(a) => found := found + [a];
      case None =>
    }
    assert links[..|links|] == links;
  }

  /** Resolution keeps row order: the rows split anywhere resolve to the two halves' candidates. */
  lemma {:induction false} FoundKeepsOrder(a: seq<TournamentAnime>, b: seq<TournamentAnime>, getAnimeById: int -> Option<Anime>)
    ensures Found(a + b, getAnimeById) == Found(a, getAnimeById) + Found(b, getAnimeById)
  {
    if b == [] {
      assert a + b == a;
    } else {
      var init := b[..|b| - 1];
      FoundKeepsOrder(a, init, getAnimeById);
      assert (a + b)[..|a + b| - 1] == a + init;
    }
  }

  /** A candidate is found iff some link row's lookup returns it. */
  lemma {:induction false} FoundMembership(links: seq<TournamentAnime>, getAnimeById: int -> Option<Anime>, x: Anime)
    ensures x in Found(links, getAnimeById) <==> exists i :: 0 <= i < |links| && getAnimeById(links[i].anime) == Some(x)
  {
    if links != [] {
      var init := links[..|links| - 1];
      FoundMembership(init, getAnimeById, x);
      if exists i :: 0 <= i < |init| && getAnimeById(init[i].anime) == Some(x) {
        var i :| 0 <= i < |init| && getAnimeById(init[i].anime) == Some(x);
        assert links[i] == init[i];
      }
      if exists i :: 0 <= i < |links| && getAnimeById(links[i].anime) == Some(x) {
        var i :| 0 <= i < |links| && getAnimeById(links[i].anime) == Some(x);
        if i < |init| {
          assert getAnimeById(init[i].anime) == Some(x);
        }
      }
    }
  }

  /** When every lookup succeeds, nothing is dropped: row i resolves to candidate i. */
  lemma {:induction false} FoundAll(links: seq<TournamentAnime>, getAnimeById: int -> Option<Anime>)
    requires forall i :: 0 <= i < |links| ==> getAnimeById(links[i].anime).Some?
    ensures |Found(links, getAnimeById)| == |links|
    ensures forall i :: 0 <= i < |links| ==> Found(links, getAnimeById)[i] == getAnimeById(links[i].anime).value
  {
    if links != [] {
      var init := links[..|links| - 1];
      FoundAll(init, getAnimeById);
    }
  }

  // ---------------------------------------------------------------------------
  // The engine over stored rows

  /** The tournament's candidate ids minus the losers of the decoded decision rows. */
  method TournamentRemainingAnime(tournamentAnime: seq<Anime>, decisions: seq<Decision>) returns (remaining: seq<int>)
    ensures remaining == Engine.Remaining(AnimeIds(tournamentAnime), DecodeAll(decisions))
  {
    remaining := AnimeIds(tournamentAnime);
    var remove: seq<int> := [];
    for i := 0 to |decisions|
      invariant remove == Engine.LosersOf(DecodeAll(decisions[..i]))
    {
      var decision := decisions[i];
      assert DecodeAll(decisions[..i + 1]) == DecodeAll(decisions[..i]) + [Decode(decision)];
      match ToPick(decision.pick)
      case Left => remove := remove + [decision.rightAnime];
      case Right => remove := remove + [decision.leftAnime];
      case Undecided =>
    }
    assert decisions[..|decisions|] == decisions;
    remaining := Pairing.RetainMissing(remaining, remove);
  }

  /** Finished once at most one candidate remains. */
  method IsTournamentFinished(tournamentAnime: seq<Anime>, decisions: seq<Decision>) returns (finished: bool)
    ensures finished <==> |Engine.Remaining(AnimeIds(tournamentAnime), DecodeAll(decisions))| <= 1
  {
    var rem := TournamentRemainingAnime(tournamentAnime, decisions);
    finished := |rem| <= 1;
  }

  /** The picked side of every resolved row, in row order. */
  method DecodedPicks(decisions: seq<Decision>) returns (picks: seq<int>)
    ensures picks == Engine.PicksOf(DecodeAll(decisions))
  {
    picks := [];
    for i := 0 to |decisions|
      invariant picks == Engine.PicksOf(DecodeAll(decisions[..i]))
    {
      var decision := decisions[i];
      assert DecodeAll(decisions[..i + 1]) == DecodeAll(decisions[..i]) + [Decode(decision)];
      match ToPick(decision.pick)
      case Left => picks := picks + [decision.leftAnime];
      case Right => picks := picks + [decision.rightAnime];
      case Undecided =>
    }
    assert decisions[..|decisions|] == decisions;
  }

  /**
   * The count map: every id of `anime` starts at 0, and each pick raises the
   * count of its id. A missing id yields 0 and only a positive count is
   * written back, so ids outside `anime` never enter the map.
   */
  method CountPicks(anime: seq<int>, picks: seq<int>) returns (numDecisions: map<int, int>)
    ensures forall a :: a in numDecisions <==> a in anime
    ensures forall a :: a in numDecisions ==> numDecisions[a] == multiset(picks)[a]
  {
    numDecisions := map[];
    for i := 0 to |anime|
      invariant forall a :: a in numDecisions <==> a in anime[..i]
      invariant forall a :: a in numDecisions ==> numDecisions[a] == 0
    {
      var a := anime[i];
      assert anime[..i + 1] == anime[..i] + [a];
      numDecisions := numDecisions[a := 0];
    }
    assert anime[..|anime|] == anime;

    for j := 0 to |picks|
      invariant forall a :: a in numDecisions <==> a in anime
      invariant forall a :: a in numDecisions ==> numDecisions[a] == multiset(picks[..j])[a]
    {
      var p := picks[j];
      assert picks[..j + 1] == picks[..j] + [p];
      var num := if p in numDecisions then numDecisions[p] + 1 else 0;
      if num > 0 {
        numDecisions := numDecisions[p := num];
      }
    }
    assert picks[..|picks|] == picks;
  }

  /**
   * A candidate of `anime` with the fewest picks among the decoded rows,
   * chosen at random among those tied, or `None` when every candidate of
   * `anime` has more picks than the sentinel.
   */
  method NextLowestPick(decisions: seq<Decision>, anime: seq<int>) returns (pick: Option<int>)
    ensures pick.Some? ==> Engine.MinimalIn(DecodeAll(decisions), anime, pick.value)
    ensures pick.Some? ==> Engine.PickCount(DecodeAll(decisions), pick.value) <= Engine.Sentinel
    ensures pick.None? <==> forall a :: a in anime ==> Engine.PickCount(DecodeAll(decisions), a) > Engine.Sentinel
  {
    var picks := DecodedPicks(decisions);
    var numDecisions := CountPicks(anime, picks);
    pick := Pairing.ChooseLowest(anime, numDecisions);
  }

  /**
   * The next pair of tournament `t` to compare, as a row with a null pick; the
   * same pairing rule as the in-memory engine, over the decoded rows.
   */
  method NextTournamentDecision(t: Tournament, tournamentAnime: seq<Anime>, decisions: seq<Decision>)
    returns (decision: Option<Decision>)
    ensures |Engine.Remaining(AnimeIds(tournamentAnime), DecodeAll(decisions))| < 2 ==> decision.None?
    ensures decision.Some? <==> Engine.EligiblePair(AnimeIds(tournamentAnime), DecodeAll(decisions))
    ensures decision.Some? ==> var d := decision.value;
      d.tournament == t.id && d.pick == ToOpt(Undecided)
      && Engine.EnginePairing(AnimeIds(tournamentAnime), DecodeAll(decisions), d.leftAnime, d.rightAnime)
    ensures decision.Some? ==> var d := decision.value;
      var rem := Engine.Remaining(AnimeIds(tournamentAnime), DecodeAll(decisions));
      d.leftAnime != d.rightAnime && d.leftAnime in rem && d.rightAnime in rem
  {
    var anime := TournamentRemainingAnime(tournamentAnime, decisions);
    ghost var log := DecodeAll(decisions);
    if |anime| < 2 {
      Engine.NoPairBelowTwo(AnimeIds(tournamentAnime), log);
      return None;
    }
    var left := NextLowestPick(decisions, anime);
    if left.None? {
      return None;
    }
    anime := Pairing.RetainMissing(anime, [left.value]);
    var right := NextLowestPick(decisions, anime);
    if right.None? {
      Engine.NoPairWithoutRight(AnimeIds(tournamentAnime), log, left.value);
      return None;
    }
    decision := Some(Decision(t.id, left.value, right.value, ToOpt(Undecided)));
    Engine.EnginePairingIsPairing(AnimeIds(tournamentAnime), log, left.value, right.value);
  }

  /** The sole remaining candidate, or `None` while several (or none) remain. */
  method GetTournamentWinner(tournamentAnime: seq<Anime>, decisions: seq<Decision>) returns (winner: Option<int>)
    ensures winner.Some? <==> |Engine.Remaining(AnimeIds(tournamentAnime), DecodeAll(decisions))| == 1
    ensures winner.Some? ==> Engine.Remaining(AnimeIds(tournamentAnime), DecodeAll(decisions)) == [winner.value]
  {
    var anime := TournamentRemainingAnime(tournamentAnime, decisions);
    if |anime| > 1 {
      return None;
    }
    winner := if anime == [] then None else Some(anime[0]);
  }
}
