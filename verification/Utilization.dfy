/** Gap-aware coverage of a measurement window, and the reset-safe counter rate. */
module Utilization {
  import opened PyDict
  import opened Sorting
  import opened RealFacts
  import opened Medians

  const GAP_TOLERANCE_STEPS := 2.0

  function SumReal(xs: seq<real>): real {
    if xs == [] then 0.0 else xs[0] + SumReal(xs[1..])
  }

  function Within(ts: seq<real>, start: real, end: real): (r: seq<real>)
    ensures forall t :: t in r <==> t in ts && start <= t <= end
  {
    if ts == [] then []
    else
      var rest := Within(ts[1..], start, end);
      if start <= ts[0] <= end then [ts[0]] + rest else rest
  }

  /** Every sample in the window is kept, repeats included. */
  lemma {:induction false} WithinKeepsEvery(ts: seq<real>, start: real, end: real, t: real)
    ensures multiset(Within(ts, start, end))[t] == if start <= t <= end then multiset(ts)[t] else 0
  {
    if ts != [] {
      WithinKeepsEvery(ts[1..], start, end, t);
      assert ts == [ts[0]] + ts[1..];
    }
  }

  function Inside(ts: seq<real>, start: real, end: real): seq<real> {
    Sorted(Within(ts, start, end))
  }

  function Gaps(s: seq<real>): (g: seq<real>)
    ensures |g| == if s == [] then 0 else |s| - 1
    ensures forall i :: 0 <= i < |g| ==> g[i] == s[i + 1] - s[i]
  {
    if |s| <= 1 then [] else [s[1] - s[0]] + Gaps(s[1..])
  }

  /** Two sampling steps, the step inferred from the gaps where there are any. */
  function Tolerance(inside: seq<real>, defaultStep: real): real {
    var gaps := Gaps(inside);
    var step := if gaps != [] then Median(gaps) else defaultStep;
    GAP_TOLERANCE_STEPS * (if step <= 0.0 then defaultStep else step)
  }

  function Credited(segments: seq<real>, tol: real): real {
    if segments == [] then 0.0 else MinReal(segments[0], tol) + Credited(segments[1..], tol)
  }

  /** `covered`, in the order the code adds it up. */
  function Covered(inside: seq<real>, start: real, end: real, tol: real): real
    requires inside != []
  {
    Credited(Gaps(inside), tol) + MinReal(inside[0] - start, tol) + MinReal(end - inside[|inside| - 1], tol)
  }

  /** `_covered_fraction`. */
  function CoveredFraction(ts: seq<real>, start: real, end: real, defaultStep: real): real {
    var inside := Inside(ts, start, end);
    var window := end - start;
    if inside == [] || window <= 0.0 then 0.0
    else MinReal(1.0, Covered(inside, start, end, Tolerance(inside, defaultStep)) / window)
  }

  /** The stretches without a sample inside: leading edge, gaps, trailing edge. */
  function Segments(inside: seq<real>, start: real, end: real): seq<real>
    requires inside != []
  {
    [inside[0] - start] + Gaps(inside) + [end - inside[|inside| - 1]]
  }

  /** What is charged against coverage: each segment's length beyond the tolerance. */
  function Charged(segments: seq<real>, tol: real): (c: real)
    ensures c >= 0.0
  {
    if segments == [] then 0.0 else MaxReal(0.0, segments[0] - tol) + Charged(segments[1..], tol)
  }

  lemma {:induction false} GapsSum(s: seq<real>)
    requires s != []
    ensures SumReal(Gaps(s)) == s[|s| - 1] - s[0]
  {
    if |s| > 1 { GapsSum(s[1..]); }
  }

  lemma {:induction false} SumsAppend(a: seq<real>, b: seq<real>, tol: real)
    ensures SumReal(a + b) == SumReal(a) + SumReal(b)
    ensures Credited(a + b, tol) == Credited(a, tol) + Credited(b, tol)
    ensures Charged(a + b, tol) == Charged(a, tol) + Charged(b, tol)
  {
    if a == [] {
      assert a + b == b;
    } else {
      SumsAppend(a[1..], b, tol);
      assert (a + b)[1..] == a[1..] + b;
    }
  }

  lemma Singleton(x: real, tol: real)
    ensures SumReal([x]) == x && Credited([x], tol) == MinReal(x, tol) && Charged([x], tol) == MaxReal(0.0, x - tol)
  {
    assert [x][1..] == [];
  }

  /** The segments partition the window, and the code's running sum is their total credit. */
  lemma SegmentsPartition(inside: seq<real>, start: real, end: real, tol: real)
    requires inside != []
    ensures SumReal(Segments(inside, start, end)) == end - start
    ensures Credited(Segments(inside, start, end), tol) == Covered(inside, start, end, tol)
  {
    var lead, gaps, trail := inside[0] - start, Gaps(inside), end - inside[|inside| - 1];
    SumsAppend([lead], gaps, tol);
    SumsAppend([lead] + gaps, [trail], tol);
    Singleton(lead, tol);
    Singleton(trail, tol);
    GapsSum(inside);
  }

  lemma {:induction false} CreditPlusCharge(segments: seq<real>, tol: real)
    ensures Credited(segments, tol) + Charged(segments, tol) == SumReal(segments)
  {
    if segments != [] { CreditPlusCharge(segments[1..], tol); }
  }

  lemma QuotientAtMostOne(c: real, w: real)
    requires w > 0.0 && c <= w
    ensures c / w <= 1.0 && 1.0 - c / w == (w - c) / w
    ensures c / w == 1.0 <==> c == w
  {
    QuotientOrder(c, w, w);
    QuotientDifference(w, c, w);
    QuotientSum(w, 0.0, w);
  }

  /** Coverage accounting is exact: what is missing is what was charged, and the cap at 1 never bites. */
  lemma {:induction false} CoverageAccounting(ts: seq<real>, start: real, end: real, defaultStep: real)
    requires start < end && Inside(ts, start, end) != []
    ensures var inside := Inside(ts, start, end);
      var tol := Tolerance(inside, defaultStep);
      && 1.0 - CoveredFraction(ts, start, end, defaultStep) ==
         Charged(Segments(inside, start, end), tol) / (end - start)
      && Covered(inside, start, end, tol) <= end - start
  {
    var inside := Inside(ts, start, end);
    var tol := Tolerance(inside, defaultStep);
    SegmentsPartition(inside, start, end, tol);
    CreditPlusCharge(Segments(inside, start, end), tol);
    QuotientAtMostOne(Covered(inside, start, end, tol), end - start);
  }

  /** A series with no sample in the window covers none of it, and neither does any series an empty window. */
  lemma {:induction false} NoSampleNoCoverage(ts: seq<real>, start: real, end: real, defaultStep: real)
    requires end <= start || forall t :: t in ts ==> !(start <= t <= end)
    ensures CoveredFraction(ts, start, end, defaultStep) == 0.0
  {
    var w := Within(ts, start, end);
    assert start < end ==> w == [] by {
      assert w != [] ==> w[0] in w;
    }
    hide Covered, Tolerance;
  }

  lemma {:induction false} ChargedAtLeast(segments: seq<real>, tol: real, i: nat)
    requires i < |segments|
    ensures Charged(segments, tol) >= segments[i] - tol
  {
    if i > 0 { ChargedAtLeast(segments[1..], tol, i - 1); }
  }

  /** A stretch of the window with no sample strictly inside it lies within one segment. */
  lemma HoleInSegment(inside: seq<real>, start: real, end: real, a: real, b: real) returns (i: nat)
    requires inside != [] && forall j, k :: 0 <= j <= k < |inside| ==> inside[j] <= inside[k]
    requires start <= a < b <= end
    requires forall k :: 0 <= k < |inside| ==> !(a < inside[k] < b)
    ensures i < |Segments(inside, start, end)| && Segments(inside, start, end)[i] >= b - a
  {
    var n := |inside|;
    if inside[0] >= b {
      i := 0;
    } else if inside[n - 1] <= a {
      i := n;
    } else {
      var k := 0;
      while inside[k + 1] <= a
        invariant 0 <= k && k + 1 < n && inside[k] <= a
        decreases n - k
      {
        if k + 2 == n { assert false; }
        k := k + 1;
      }
      assert inside[k + 1] >= b;
      i := k + 1;
      assert Segments(inside, start, end)[i] == Gaps(inside)[k];
    }
  }

  /** Any sample-free stretch longer than the tolerance costs its excess, wherever in the window it lies. */
  lemma HoleIsCharged(ts: seq<real>, start: real, end: real, defaultStep: real, a: real, b: real)
    requires start < end && Inside(ts, start, end) != []
    requires start <= a < b <= end && forall t :: t in ts ==> !(a < t < b)
    ensures 1.0 - CoveredFraction(ts, start, end, defaultStep) >=
            (b - a - Tolerance(Inside(ts, start, end), defaultStep)) / (end - start)
  {
    var inside := Inside(ts, start, end);
    var tol := Tolerance(inside, defaultStep);
    SameElements(inside, Within(ts, start, end));
    forall k | 0 <= k < |inside| ensures !(a < inside[k] < b) {
      assert inside[k] in inside;
    }
    var i := HoleInSegment(inside, start, end, a, b);
    CoverageAccounting(ts, start, end, defaultStep);
    ChargedAtLeast(Segments(inside, start, end), tol, i);
    QuotientOrder(b - a - tol, Charged(Segments(inside, start, end), tol), end - start);
  }

  lemma {:induction false} NothingCharged(segments: seq<real>, tol: real)
    requires forall i :: 0 <= i < |segments| ==> segments[i] <= tol
    ensures Charged(segments, tol) == 0.0
  {
    if segments != [] { NothingCharged(segments[1..], tol); }
  }

  /** Among segments within the tolerance, a single longer one is charged its excess. */
  lemma {:induction false} OneSegmentCharged(segments: seq<real>, tol: real, h: nat)
    requires h < |segments| && segments[h] >= tol
    requires forall i :: 0 <= i < |segments| && i != h ==> segments[i] <= tol
    ensures Charged(segments, tol) == segments[h] - tol
  {
    var rest := [segments[h]] + segments[h + 1..];
    assert segments == segments[..h] + rest;
    SumsAppend(segments[..h], rest, tol);
    SumsAppend([segments[h]], segments[h + 1..], tol);
    Singleton(segments[h], tol);
    NothingCharged(segments[..h], tol);
    NothingCharged(segments[h + 1..], tol);
  }

  /** A regular series with one hole: every gap is `g` but gap `h`, which is longer than two of them. */
  ghost predicate RegularButOne(gaps: seq<real>, g: real, h: nat) {
    && |gaps| >= 3 && h < |gaps| && 0.0 < g && 2.0 * g < gaps[h]
    && forall i :: 0 <= i < |gaps| && i != h ==> gaps[i] == g
  }

  lemma {:induction false} RegularTolerance(inside: seq<real>, g: real, h: nat, defaultStep: real)
    requires RegularButOne(Gaps(inside), g, h)
    ensures Tolerance(inside, defaultStep) == 2.0 * g
  {
    hide Median;
    MedianOfOneOutlier(Gaps(inside), h, g);
  }

  lemma {:induction false} EdgesCharged(lead: real, gaps: seq<real>, trail: real, tol: real)
    ensures Charged([lead] + gaps + [trail], tol) ==
            MaxReal(0.0, lead - tol) + Charged(gaps, tol) + MaxReal(0.0, trail - tol)
  {
    SumsAppend([lead] + gaps, [trail], tol);
    SumsAppend([lead], gaps, tol);
    Singleton(lead, tol);
    Singleton(trail, tol);
  }

  lemma {:induction false} OneHoleCharged(inside: seq<real>, start: real, end: real, g: real, h: nat)
    requires RegularButOne(Gaps(inside), g, h)
    ensures inside != []
    ensures Charged(Segments(inside, start, end), 2.0 * g) ==
            MaxReal(0.0, inside[0] - start - 2.0 * g) + (Gaps(inside)[h] - 2.0 * g)
            + MaxReal(0.0, end - inside[|inside| - 1] - 2.0 * g)
  {
    OneSegmentCharged(Gaps(inside), 2.0 * g, h);
    hide Charged, Gaps, MaxReal;
    EdgesCharged(inside[0] - start, Gaps(inside), end - inside[|inside| - 1], 2.0 * g);
  }

  /** Such a series loses exactly the hole beyond two steps, and what the edges lack beyond two steps. */
  lemma {:induction false} OneHoleLaw(ts: seq<real>, start: real, end: real, defaultStep: real, g: real, h: nat)
    requires start < end && RegularButOne(Gaps(Inside(ts, start, end)), g, h)
    ensures var inside := Inside(ts, start, end);
      && inside != []
      && 1.0 - CoveredFraction(ts, start, end, defaultStep) ==
         (MaxReal(0.0, inside[0] - start - 2.0 * g) + (Gaps(inside)[h] - 2.0 * g)
          + MaxReal(0.0, end - inside[|inside| - 1] - 2.0 * g)) / (end - start)
  {
    hide *;
    var inside := Inside(ts, start, end);
    RegularTolerance(inside, g, h, defaultStep);
    OneHoleCharged(inside, start, end, g, h);
    CoverageAccounting(ts, start, end, defaultStep);
  }

  /** The tolerance is two default steps where the series shows no step, and two median gaps otherwise. */
  lemma {:induction false} ToleranceCases(inside: seq<real>, defaultStep: real)
    ensures |inside| <= 1 ==> Tolerance(inside, defaultStep) == 2.0 * defaultStep
    ensures |inside| >= 2 && Median(Gaps(inside)) <= 0.0 ==> Tolerance(inside, defaultStep) == 2.0 * defaultStep
    ensures |inside| >= 2 && Median(Gaps(inside)) > 0.0 ==> Tolerance(inside, defaultStep) == 2.0 * Median(Gaps(inside))
  {
    hide Median;
  }

  lemma {:induction false} ChargedZeroIff(segments: seq<real>, tol: real)
    ensures Charged(segments, tol) == 0.0 <==> forall i :: 0 <= i < |segments| ==> segments[i] <= tol
  {
    if segments != [] {
      ChargedZeroIff(segments[1..], tol);
      assert forall i :: 0 < i < |segments| ==> segments[i] == segments[1..][i - 1];
      assert forall i :: 0 <= i < |segments[1..]| ==> segments[1..][i] == segments[i + 1];
    }
  }

  lemma ChargedNonnegative(segments: seq<real>, tol: real)
    ensures Charged(segments, tol) >= 0.0
  {
  }

  /** A series scores full coverage exactly when no segment, edge or gap, exceeds the tolerance. */
  lemma {:induction false} FullCoverageIff(ts: seq<real>, start: real, end: real, defaultStep: real)
    requires start < end && Inside(ts, start, end) != []
    ensures var inside := Inside(ts, start, end);
      var segments := Segments(inside, start, end);
      CoveredFraction(ts, start, end, defaultStep) == 1.0 <==>
      forall i :: 0 <= i < |segments| ==> segments[i] <= Tolerance(inside, defaultStep)
  {
    hide Inside, Tolerance, Segments, CoveredFraction, Covered, Charged;
    var inside := Inside(ts, start, end);
    var segments := Segments(inside, start, end);
    var tol := Tolerance(inside, defaultStep);
    CoverageAccounting(ts, start, end, defaultStep);
    ChargedZeroIff(segments, tol);
    ChargedNonnegative(segments, tol);
    QuotientOrder(0.0, Charged(segments, tol), end - start);
  }

  /**
   * The cadence is inferred from the surviving samples, so two survivors vouch for each other: two samples score the
   * whole window as covered exactly when each edge is at most twice the stretch between them.
   */
  lemma {:induction false} TwoSurvivorsScoreFullIff(start: real, end: real, a: real, b: real, defaultStep: real)
    requires start <= a < b <= end
    ensures CoveredFraction([a, b], start, end, defaultStep) == 1.0 <==>
            a - start <= 2.0 * (b - a) && end - b <= 2.0 * (b - a)
  {
    hide *;
    TwoInside(start, end, a, b);
    TwoTolerance(a, b, defaultStep);
    TwoSegments(start, end, a, b);
    FullCoverageIff([a, b], start, end, defaultStep);
    var segments := [a - start, b - a, end - b];
    assert segments[0] == a - start && segments[1] == b - a && segments[2] == end - b;
  }

  /** The middle two thirds of a minute lost, and the coverage is 1. */
  lemma {:induction false} LostMiddleScoresFull(defaultStep: real)
    ensures CoveredFraction([10.0, 50.0], 0.0, 60.0, defaultStep) == 1.0
  {
    TwoSurvivorsScoreFullIff(0.0, 60.0, 10.0, 50.0, defaultStep);
  }

  lemma TwoSegments(start: real, end: real, a: real, b: real)
    ensures Segments([a, b], start, end) == [a - start, b - a, end - b]
  {
    assert [a, b][1..] == [b];
    assert Gaps([a, b]) == [b - a];
  }

  lemma TwoInside(start: real, end: real, a: real, b: real)
    requires start <= a < b <= end
    ensures Inside([a, b], start, end) == [a, b]
  {
    assert [a, b][1..] == [b] && [b][1..] == [];
    assert Within([b], start, end) == [b];
    assert Within([a, b], start, end) == [a, b];
    SortedUnique(Sorted([a, b]), [a, b], RealLe);
  }

  lemma TwoTolerance(a: real, b: real, defaultStep: real)
    requires a < b
    ensures Tolerance([a, b], defaultStep) == 2.0 * (b - a)
  {
    assert [a, b][1..] == [b];
    assert Gaps([a, b]) == [b - a];
    SortedUnique(Sorted([b - a]), [b - a], RealLe);
    assert Median([b - a]) == b - a;
  }

  /** `sum(max(0.0, b - a) for consecutive samples)`. */
  function Growth(vs: seq<real>): (g: real)
    ensures g >= 0.0
  {
    if |vs| <= 1 then 0.0 else MaxReal(0.0, vs[1] - vs[0]) + Growth(vs[1..])
  }

  function Values(pts: seq<(real, real)>): (vs: seq<real>)
    ensures |vs| == |pts| && forall i :: 0 <= i < |vs| ==> vs[i] == pts[i].1
  {
    if pts == [] then [] else [pts[0].1] + Values(pts[1..])
  }

  /** `counter_rate`; `None` is `nan`. */
  function CounterRate(pts: seq<(real, real)>): Option<real> {
    if |pts| < 2 || pts[|pts| - 1].0 - pts[0].0 <= 0.0 then None
    else Some(Growth(Values(pts)) / (pts[|pts| - 1].0 - pts[0].0))
  }

  /** No rate below two samples or over no time; otherwise, the positive growth per second of first to last sample. */
  lemma {:induction false} CounterRateSomeIff(pts: seq<(real, real)>)
    ensures CounterRate(pts).Some? <==> |pts| >= 2 && pts[0].0 < pts[|pts| - 1].0
    ensures CounterRate(pts).Some? ==>
            CounterRate(pts).value * (pts[|pts| - 1].0 - pts[0].0) == Growth(Values(pts))
  {
    if |pts| >= 2 && pts[0].0 < pts[|pts| - 1].0 {
      QuotientTimes(Growth(Values(pts)), pts[|pts| - 1].0 - pts[0].0);
    }
  }

  /**
   * What truly happened between two samples: `counted` events, and whether the counter was reset; with a reset,
   * `lost` of them came before the last reset of the interval.
   */
  datatype Interval = Interval(counted: real, reset: bool, lost: real)

  ghost predicate Proper(iv: Interval) {
    0.0 <= iv.lost <= iv.counted && (!iv.reset ==> iv.lost == 0.0)
  }

  function NextValue(v: real, iv: Interval): real {
    if iv.reset then iv.counted - iv.lost else v + iv.counted
  }

  /** The sampled values of a counter that starts at `v`. */
  function Trace(v: real, ivs: seq<Interval>): (vs: seq<real>)
    ensures |vs| == |ivs| + 1 && vs[0] == v
    decreases |ivs|
  {
    if ivs == [] then [v] else [v] + Trace(NextValue(v, ivs[0]), ivs[1..])
  }

  ghost predicate AllProper(ivs: seq<Interval>) {
    forall i :: 0 <= i < |ivs| ==> Proper(ivs[i])
  }

  function TrueTotal(ivs: seq<Interval>): real {
    if ivs == [] then 0.0 else ivs[0].counted + TrueTotal(ivs[1..])
  }

  function ResetFreeTotal(ivs: seq<Interval>): real {
    if ivs == [] then 0.0 else (if ivs[0].reset then 0.0 else ivs[0].counted) + ResetFreeTotal(ivs[1..])
  }

  /** Exactly what the positive-delta sum misses: the counts before each reset, and the regrowth up to the old value. */
  function Missed(v: real, ivs: seq<Interval>): real
    decreases |ivs|
  {
    if ivs == [] then 0.0
    else
      var next := NextValue(v, ivs[0]);
      (if ivs[0].reset then ivs[0].lost + MinReal(v, next) else 0.0) + Missed(next, ivs[1..])
  }

  lemma {:induction false} GrowthIsTotalMinusMissed(v: real, ivs: seq<Interval>)
    requires v >= 0.0 && AllProper(ivs)
    ensures Growth(Trace(v, ivs)) == TrueTotal(ivs) - Missed(v, ivs)
    ensures 0.0 <= Missed(v, ivs) <= TrueTotal(ivs) - ResetFreeTotal(ivs)
    decreases |ivs|
  {
    if ivs != [] {
      var next := NextValue(v, ivs[0]);
      assert Proper(ivs[0]);
      assert AllProper(ivs[1..]);
      GrowthIsTotalMinusMissed(next, ivs[1..]);
      assert Trace(v, ivs)[1..] == Trace(next, ivs[1..]);
    }
  }

  /** Reset-safe rate: never above the true rate, and never below the rate over the reset-free intervals. */
  lemma {:induction false} RateSandwich(pts: seq<(real, real)>, v: real, ivs: seq<Interval>)
    requires v >= 0.0 && AllProper(ivs) && Values(pts) == Trace(v, ivs) && CounterRate(pts).Some?
    ensures var dt := pts[|pts| - 1].0 - pts[0].0;
      ResetFreeTotal(ivs) / dt <= CounterRate(pts).value <= TrueTotal(ivs) / dt
  {
    var dt := pts[|pts| - 1].0 - pts[0].0;
    GrowthIsTotalMinusMissed(v, ivs);
    QuotientOrder(ResetFreeTotal(ivs), Growth(Values(pts)), dt);
    QuotientOrder(Growth(Values(pts)), TrueTotal(ivs), dt);
  }

  /** Without a reset the sum is the endpoint difference. */
  lemma {:induction false} NoResetIsEndpointDifference(v: real, ivs: seq<Interval>)
    requires AllProper(ivs) && forall i :: 0 <= i < |ivs| ==> !ivs[i].reset
    ensures Growth(Trace(v, ivs)) == Trace(v, ivs)[|ivs|] - v
    decreases |ivs|
  {
    if ivs != [] {
      var next := NextValue(v, ivs[0]);
      assert Proper(ivs[0]);
      NoResetIsEndpointDifference(next, ivs[1..]);
      assert Trace(v, ivs)[1..] == Trace(next, ivs[1..]);
    }
  }

  /** The counts between each reset and the sample before it. */
  function LostBeforeResets(ivs: seq<Interval>): real {
    if ivs == [] then 0.0 else (if ivs[0].reset then ivs[0].lost else 0.0) + LostBeforeResets(ivs[1..])
  }

  /** At every reset, the counter restarted from a zero sample or shows nothing counted since. */
  ghost predicate ResetsFromOrToZero(v: real, ivs: seq<Interval>)
    decreases |ivs|
  {
    ivs == [] || ((ivs[0].reset ==> v == 0.0 || NextValue(v, ivs[0]) == 0.0)
                  && ResetsFromOrToZero(NextValue(v, ivs[0]), ivs[1..]))
  }

  /** Only the pre-reset counts are missed exactly when no reset has nonzero samples on both sides. */
  lemma {:induction false} OnlyPreResetCountsMissedIff(v: real, ivs: seq<Interval>)
    requires v >= 0.0 && AllProper(ivs)
    ensures Missed(v, ivs) >= LostBeforeResets(ivs)
    ensures Missed(v, ivs) == LostBeforeResets(ivs) <==> ResetsFromOrToZero(v, ivs)
    decreases |ivs|
  {
    if ivs != [] {
      assert Proper(ivs[0]);
      assert AllProper(ivs[1..]);
      OnlyPreResetCountsMissedIff(NextValue(v, ivs[0]), ivs[1..]);
    }
  }

  /** A reset right after a sample of 100, then 50 counts: nothing came before the reset, and all 50 are missed. */
  lemma RegrowthIsMissed()
    ensures var ivs := [Interval(50.0, true, 0.0)];
      LostBeforeResets(ivs) == 0.0 && Growth(Trace(100.0, ivs)) == 0.0 && TrueTotal(ivs) == 50.0
  {
    var ivs := [Interval(50.0, true, 0.0)];
    assert ivs[1..] == [];
    assert Trace(100.0, ivs) == [100.0, 50.0];
    assert [100.0, 50.0][1..] == [50.0];
  }
}
