/** Load balance over whole runs of placements, no request finishing. */
module LoadRuns {
  import opened PyDict
  import opened Sorting
  import opened RealFacts
  import opened LoadAware

  /**
   * One placed request: by the policy, on whatever the cache answered, or - when the lookup is empty - wherever the
   * session hash or the QPS route sends it.
   */
  datatype Placement =
    | Policy(matched: map<string, nat>, promptTokens: nat, url: string)
    | Fallback(url: string)

  function Bumped(stats: Stats, url: string): (after: Stats)
    ensures forall u :: Load(after, u) == Load(stats, u) + if u == url then 1 else 0
  {
    var before := if url in stats then stats[url] else EngineLoad(0, 0);
    stats[url := EngineLoad(before.inPrefill + 1, before.inDecoding)]
  }

  function StatsAfter(run: seq<Placement>): Stats {
    if run == [] then map[]
    else Bumped(StatsAfter(run[..|run| - 1]), run[|run| - 1].url)
  }

  function RequestAt(endpoints: seq<string>, beta: real, stats: Stats, p: Placement): Request
    requires p.Policy?
  {
    Request(endpoints, stats, p.matched, p.promptTokens, beta)
  }

  /** A policy placement is the policy's choice at the loads it found; a fallback stays within the fleet. */
  ghost predicate Placeable(endpoints: seq<string>, beta: real, stats: Stats, p: Placement) {
    match p
    case Policy(_, _, url) => IsChoice(RequestAt(endpoints, beta, stats, p), url)
    case Fallback(url) => url in endpoints
  }

  ghost predicate IsRun(endpoints: seq<string>, beta: real, run: seq<Placement>) {
    forall n :: 0 <= n < |run| ==> Placeable(endpoints, beta, StatsAfter(run[..n]), run[n])
  }

  /** The state of the fleet as a request that matched nothing would see it. */
  function FleetAt(endpoints: seq<string>, beta: real, stats: Stats): Request {
    Request(endpoints, stats, map[], 0, beta)
  }

  lemma {:induction false} TotalBumped(stats: Stats, url: string, us: seq<string>)
    ensures Total(stats, us) <= Total(Bumped(stats, url), us)
  {
    if us != [] { TotalBumped(stats, url, us[1..]); }
  }

  /** Placing a request never shrinks the clamped mean. */
  lemma ScaleGrows(endpoints: seq<string>, beta: real, stats: Stats, url: string)
    requires endpoints != []
    ensures FleetAt(endpoints, beta, stats).Scale() <= FleetAt(endpoints, beta, Bumped(stats, url)).Scale()
  {
    var q, r := FleetAt(endpoints, beta, stats), FleetAt(endpoints, beta, Bumped(stats, url));
    assert q.Fleet() == r.Fleet() && |q.Fleet()| > 0;
    TotalBumped(stats, url, q.Fleet());
    MeanIs(q);
    MeanIs(r);
    hide Total, Bumped, Request.Mean;
    QuotientOrder(Total(q.stats, q.Fleet()) as real, Total(r.stats, q.Fleet()) as real, |q.Fleet()| as real);
  }

  ghost predicate Balanced(endpoints: seq<string>, beta: real, stats: Stats)
    requires endpoints != [] && beta > 0.0
  {
    forall u, v :: u in endpoints && v in endpoints ==>
      Load(stats, u) as real - Load(stats, v) as real <= FleetAt(endpoints, beta, stats).Scale() / beta + 1.0
  }

  /** A balanced fleet stays balanced through one policy placement, whatever the cache answers. */
  lemma {:induction false} PlacementKeepsBalance(endpoints: seq<string>, beta: real, stats: Stats, p: Placement)
    requires endpoints != [] && p.Policy? && beta > 0.0 && Balanced(endpoints, beta, stats)
    requires IsChoice(RequestAt(endpoints, beta, stats, p), p.url)
    ensures Balanced(endpoints, beta, Bumped(stats, p.url))
  {
    var after := Bumped(stats, p.url);
    var s, s' := FleetAt(endpoints, beta, stats).Scale(), FleetAt(endpoints, beta, after).Scale();
    ScaleGrows(endpoints, beta, stats, p.url);
    QuotientOrder(s, s', beta);
    forall u, v | u in endpoints && v in endpoints
      ensures Load(after, u) as real - Load(after, v) as real <= s' / beta + 1.0
    {
      GapAfter(endpoints, beta, stats, p, u, v);
    }
  }

  lemma {:induction false} GapAfter(endpoints: seq<string>, beta: real, stats: Stats, p: Placement, u: string,
                                    v: string)
    requires endpoints != [] && p.Policy? && beta > 0.0 && Balanced(endpoints, beta, stats)
    requires IsChoice(RequestAt(endpoints, beta, stats, p), p.url)
    requires u in endpoints && v in endpoints
    ensures Load(Bumped(stats, p.url), u) as real - Load(Bumped(stats, p.url), v) as real
            <= FleetAt(endpoints, beta, stats).Scale() / beta + 1.0
  {
    var after := Bumped(stats, p.url);
    assert Load(after, u) == Load(stats, u) + (if u == p.url then 1 else 0);
    assert Load(after, v) >= Load(stats, v);
    var q := RequestAt(endpoints, beta, stats, p);
    SameScale(endpoints, beta, stats, p);
    if u == p.url {
      ChosenNearLeastLoaded(q, u, v);
      assert q.LoadOf(u) == Load(stats, u) as real && q.LoadOf(v) == Load(stats, v) as real;
      hide *;
    } else {
      assert Load(stats, u) as real - Load(stats, v) as real <= FleetAt(endpoints, beta, stats).Scale() / beta + 1.0;
      hide *;
    }
  }

  lemma SameScale(endpoints: seq<string>, beta: real, stats: Stats, p: Placement)
    requires endpoints != [] && p.Policy?
    ensures RequestAt(endpoints, beta, stats, p).Scale() == FleetAt(endpoints, beta, stats).Scale()
  {
  }

  lemma {:induction false} IdleIsBalanced(endpoints: seq<string>, beta: real)
    requires endpoints != [] && beta > 0.0
    ensures Balanced(endpoints, beta, map[])
  {
    var s := FleetAt(endpoints, beta, map[]).Scale();
    QuotientOrder(0.0, s, beta);
    hide Request.Scale;
  }

  /** The target's load is within `max(1, mean) / beta` of every other's, the mean taken after the placement. */
  ghost predicate WithinGap(endpoints: seq<string>, beta: real, stats: Stats, url: string)
    requires endpoints != [] && beta > 0.0
  {
    forall v :: v in endpoints && v != url ==>
      Load(stats, url) as real - Load(stats, v) as real <= FleetAt(endpoints, beta, Bumped(stats, url)).Scale() / beta
  }

  /** A fallback keeps a balanced fleet balanced exactly when its target meets that gap. */
  lemma {:induction false} FallbackKeepsBalanceIff(endpoints: seq<string>, beta: real, stats: Stats, url: string)
    requires endpoints != [] && beta > 0.0 && Balanced(endpoints, beta, stats) && url in endpoints
    ensures Balanced(endpoints, beta, Bumped(stats, url)) <==> WithinGap(endpoints, beta, stats, url)
  {
    var after := Bumped(stats, url);
    var s, s' := FleetAt(endpoints, beta, stats).Scale(), FleetAt(endpoints, beta, after).Scale();
    ScaleGrows(endpoints, beta, stats, url);
    QuotientOrder(s, s', beta);
    QuotientOrder(0.0, s', beta);
    hide Request.Scale, Load, Bumped;
    if Balanced(endpoints, beta, after) {
      forall v | v in endpoints && v != url ensures Load(stats, url) as real - Load(stats, v) as real <= s' / beta {
        assert Load(after, url) as real - Load(after, v) as real <= s' / beta + 1.0;
      }
    }
    if WithinGap(endpoints, beta, stats, url) {
      forall u, v | u in endpoints && v in endpoints
        ensures Load(after, u) as real - Load(after, v) as real <= s' / beta + 1.0
      {
        assert Load(stats, u) as real - Load(stats, v) as real <= s / beta + 1.0;
      }
    }
  }

  /** Where a placement may go without unbalancing the fleet: a policy placement always, a fallback within the gap. */
  ghost predicate KeepsGap(endpoints: seq<string>, beta: real, stats: Stats, p: Placement)
    requires endpoints != [] && beta > 0.0
  {
    p.Fallback? ==> WithinGap(endpoints, beta, stats, p.url)
  }

  lemma {:induction false} OneMorePlacement(endpoints: seq<string>, beta: real, run: seq<Placement>, n: nat)
    requires endpoints != [] && beta > 0.0 && n < |run|
    requires Balanced(endpoints, beta, StatsAfter(run[..n]))
    requires Placeable(endpoints, beta, StatsAfter(run[..n]), run[n])
    ensures Balanced(endpoints, beta, StatsAfter(run[..n + 1])) <==>
            KeepsGap(endpoints, beta, StatsAfter(run[..n]), run[n])
  {
    assert run[..n + 1][..n] == run[..n];
    hide Balanced, WithinGap, Bumped, IsChoice;
    if run[n].Policy? {
      PlacementKeepsBalance(endpoints, beta, StatsAfter(run[..n]), run[n]);
    } else {
      FallbackKeepsBalanceIff(endpoints, beta, StatsAfter(run[..n]), run[n].url);
    }
  }

  ghost predicate AlwaysBalanced(endpoints: seq<string>, beta: real, run: seq<Placement>)
    requires endpoints != [] && beta > 0.0
  {
    forall n :: 0 <= n <= |run| ==> Balanced(endpoints, beta, StatsAfter(run[..n]))
  }

  ghost predicate EveryPlacementKeepsGap(endpoints: seq<string>, beta: real, run: seq<Placement>)
    requires endpoints != [] && beta > 0.0
  {
    forall n :: 0 <= n < |run| ==> KeepsGap(endpoints, beta, StatsAfter(run[..n]), run[n])
  }

  lemma {:induction false} BalancedPrefix(endpoints: seq<string>, beta: real, run: seq<Placement>, n: nat)
    requires endpoints != [] && beta > 0.0 && IsRun(endpoints, beta, run) && n <= |run|
    requires EveryPlacementKeepsGap(endpoints, beta, run)
    ensures Balanced(endpoints, beta, StatsAfter(run[..n]))
  {
    if n == 0 {
      IdleIsBalanced(endpoints, beta);
      assert run[..0] == [];
    } else {
      BalancedPrefix(endpoints, beta, run, n - 1);
      assert KeepsGap(endpoints, beta, StatsAfter(run[..n - 1]), run[n - 1]);
      assert Placeable(endpoints, beta, StatsAfter(run[..n - 1]), run[n - 1]);
      hide *;
      OneMorePlacement(endpoints, beta, run, n - 1);
    }
  }

  /**
   * From an idle fleet, no two engines' loads ever differ by more than `max(1, mean) / beta + 1` if and only if every
   * fallback goes to an engine within the gap at the loads it found.
   */
  lemma {:induction false} AlwaysBalancedIff(endpoints: seq<string>, beta: real, run: seq<Placement>)
    requires endpoints != [] && beta > 0.0 && IsRun(endpoints, beta, run)
    ensures AlwaysBalanced(endpoints, beta, run) <==> EveryPlacementKeepsGap(endpoints, beta, run)
  {
    hide Balanced, KeepsGap, StatsAfter, Placeable;
    if AlwaysBalanced(endpoints, beta, run) {
      forall n | 0 <= n < |run| ensures KeepsGap(endpoints, beta, StatsAfter(run[..n]), run[n]) {
        assert 0 <= n + 1 <= |run|;
        OneMorePlacement(endpoints, beta, run, n);
      }
    }
    if EveryPlacementKeepsGap(endpoints, beta, run) {
      forall n | 0 <= n <= |run| ensures Balanced(endpoints, beta, StatsAfter(run[..n])) {
        BalancedPrefix(endpoints, beta, run, n);
      }
    }
  }

  /** In particular, over every run that the policy places alone. */
  lemma {:induction false} RunStaysBalanced(endpoints: seq<string>, beta: real, run: seq<Placement>)
    requires endpoints != [] && beta > 0.0 && IsRun(endpoints, beta, run)
    requires forall n :: 0 <= n < |run| ==> run[n].Policy?
    ensures Balanced(endpoints, beta, StatsAfter(run))
  {
    hide Balanced, StatsAfter, Placeable;
    AlwaysBalancedIff(endpoints, beta, run);
    assert run[..|run|] == run;
  }

  /** Four requests with an empty lookup, sent by one session's hash to one of two engines: a run, and unbalanced. */
  lemma {:induction false} SessionFallbackEscapesBound()
    ensures var run := [Fallback("a"), Fallback("a"), Fallback("a"), Fallback("a")];
      IsRun(["a", "b"], 1.0, run) && !Balanced(["a", "b"], 1.0, StatsAfter(run))
  {
    var p := Fallback("a");
    var run := [p, p, p, p];
    assert "a" in ["a", "b"] && "b" in ["a", "b"];
    var stats := Bumped(Bumped(Bumped(Bumped(map[], "a"), "a"), "a"), "a");
    FourTimes(p);
    assert Load(stats, "a") == 4 && Load(stats, "b") == 0;
    MeanOfTwo(stats);
    hide Request.Mean, StatsAfter, Bumped, Load;
  }

  lemma {:induction false} FourTimes(p: Placement)
    ensures StatsAfter([p, p, p, p]) == Bumped(Bumped(Bumped(Bumped(map[], p.url), p.url), p.url), p.url)
  {
    hide Bumped;
    assert [p, p, p, p][..3] == [p, p, p] && [p, p, p][..2] == [p, p] && [p, p][..1] == [p] && [p][..0] == [];
    assert StatsAfter([p]) == Bumped(map[], p.url);
    assert StatsAfter([p, p]) == Bumped(StatsAfter([p]), p.url);
    assert StatsAfter([p, p, p]) == Bumped(StatsAfter([p, p]), p.url);
  }

  lemma {:induction false} MeanOfTwo(stats: Stats)
    requires Load(stats, "a") == 4 && Load(stats, "b") == 0
    ensures FleetAt(["a", "b"], 1.0, stats).Mean() == 2.0
  {
    var q := FleetAt(["a", "b"], 1.0, stats);
    assert q.Fleet() == ["a", "b"] by {
      assert ["a", "b"][..1] == ["a"];
      assert ["a"][..0] == [];
      assert Distinct(["a"]) == ["a"];
    }
    TotalUnfold(stats, ["a", "b"]);
    TotalUnfold(stats, ["b"]);
    assert ["a", "b"][1..] == ["b"] && ["b"][1..] == [];
    assert Total(stats, ["a", "b"]) == 4;
  }
}
