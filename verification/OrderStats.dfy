/** Nearest-rank percentiles, goodput, and the percentile bootstrap built on them. */
module OrderStats {
  import opened PyDict
  import opened Sorting
  import opened Sums
  import opened RealFacts

  /** Python's `round`: to the nearest integer, ties to the even one. */
  function Round(x: real): int {
    var f := x.Floor;
    var rest := x - f as real;
    if rest < 0.5 then f
    else if rest > 0.5 then f + 1
    else if f % 2 == 0 then f else f + 1
  }

  lemma RoundIsNearest(x: real)
    ensures -0.5 <= Round(x) as real - x <= 0.5
  {
  }

  /** The rounded value is the one integer within one half, the even one where two are. */
  lemma {:induction false} RoundIff(x: real, r: int)
    ensures Round(x) == r <==>
            -0.5 <= r as real - x <= 0.5 && (r as real - x == 0.5 || r as real - x == -0.5 ==> r % 2 == 0)
  {
    RoundIsNearest(x);
    var f := x.Floor;
    if -0.5 <= r as real - x <= 0.5 { assert r == f || r == f + 1; }
  }

  lemma RoundMonotone(x: real, y: real)
    requires x <= y
    ensures Round(x) <= Round(y)
  {
    if x.Floor < y.Floor {
      assert Round(x) <= x.Floor + 1 <= y.Floor;
    } else {
      assert x.Floor == y.Floor;
    }
  }

  /** `p / 100 * (n - 1)`. */
  function Position(n: nat, p: real): real {
    p / 100.0 * (n - 1) as real
  }

  function Clamp(i: int, n: nat): (k: nat)
    requires n > 0
    ensures k < n
  {
    if i < 0 then 0 else if i > n - 1 then n - 1 else i
  }

  /** `min(n - 1, max(0, round(p / 100 * (n - 1))))`. */
  function RankIndex(n: nat, p: real): (k: nat)
    requires n > 0
    ensures k < n
  {
    Clamp(Round(Position(n, p)), n)
  }

  lemma PositionMonotone(n: nat, p: real, q: real)
    requires n > 0 && p <= q
    ensures Position(n, p) <= Position(n, q)
  {
    ScaledMonotone(p / 100.0, q / 100.0, (n - 1) as real);
  }

  /** Between 0 and 100 the clamp is idle and the index is the one nearest to `p / 100 * (n - 1)`, ties to even. */
  lemma {:induction false} RankIsNearest(n: nat, p: real)
    requires n > 0 && 0.0 <= p <= 100.0
    ensures -0.5 <= RankIndex(n, p) as real - p / 100.0 * (n - 1) as real <= 0.5
    ensures RankIndex(n, p) as real - p / 100.0 * (n - 1) as real in {0.5, -0.5} ==> RankIndex(n, p) % 2 == 0
  {
    RankIndexEnds(n);
    RoundIff(Position(n, p), RankIndex(n, p));
    PositionIs(n, p);
    PositionMonotone(n, 0.0, p);
    PositionMonotone(n, p, 100.0);
    RoundIsNearest(Position(n, p));
    RoundMonotone(Position(n, 0.0), Position(n, p));
    RoundMonotone(Position(n, p), Position(n, 100.0));
    PositionEnds(n);
    hide Position, Round;
  }

  lemma PositionIs(n: nat, p: real)
    requires n > 0
    ensures Position(n, p) == p / 100.0 * (n - 1) as real
  {
  }

  lemma PositionEnds(n: nat)
    requires n > 0
    ensures Position(n, 0.0) == 0.0 && Position(n, 100.0) == (n - 1) as real
    ensures Round(Position(n, 0.0)) == 0 && Round(Position(n, 100.0)) == n - 1
  {
    assert 100.0 / 100.0 == 1.0;
  }

  /** `None` is `nan`. */
  function Percentile(xs: seq<real>, p: real): Option<real> {
    if xs == [] then None else Some(Sorted(xs)[RankIndex(|xs|, p)])
  }

  lemma RankIndexMonotone(n: nat, p: real, q: real)
    requires n > 0 && p <= q
    ensures RankIndex(n, p) <= RankIndex(n, q)
  {
    hide Position, Round;
    PositionMonotone(n, p, q);
    RoundMonotone(Position(n, p), Position(n, q));
  }

  /** A higher percentile is never a smaller value. */
  lemma {:induction false} PercentileMonotone(xs: seq<real>, p: real, q: real)
    requires xs != [] && p <= q
    ensures Percentile(xs, p).value <= Percentile(xs, q).value
  {
    RankIndexMonotone(|xs|, p, q);
  }

  lemma {:induction false} PercentilePermutation(a: seq<real>, b: seq<real>, p: real)
    requires multiset(a) == multiset(b)
    ensures Percentile(a, p) == Percentile(b, p)
  {
    SameElements(a, b);
    SortedPermutation(a, b);
  }

  lemma RankIndexEnds(n: nat)
    requires n > 0
    ensures RankIndex(n, 0.0) == 0 && RankIndex(n, 100.0) == n - 1
  {
    assert 100.0 / 100.0 == 1.0;
    assert Position(n, 100.0) == (n - 1) as real;
  }

  lemma RankIndexInRange(n: nat, p: real)
    requires n > 0
    ensures 0 <= RankIndex(n, p) < n
  {
  }

  /** The 0th percentile and below is the minimum, the 100th and above the maximum. */
  lemma {:induction false} PercentileExtremes(xs: seq<real>, p: real, x: real)
    requires x in xs
    ensures p <= 0.0 ==> Percentile(xs, p).value <= x
    ensures p >= 100.0 ==> x <= Percentile(xs, p).value
  {
    hide RankIndex;
    SameElements(xs, Sorted(xs));
    var j :| 0 <= j < |xs| && Sorted(xs)[j] == x;
    RankIndexEnds(|xs|);
    if p <= 0.0 { RankIndexMonotone(|xs|, p, 0.0); }
    if p >= 100.0 { RankIndexMonotone(|xs|, 100.0, p); }
    RankIndexInRange(|xs|, p);
  }

  /** `sum(1 for t in ttfts if t < slo)`. */
  function CountUnder(xs: seq<real>, slo: real): (c: nat)
    ensures c <= |xs|
  {
    if xs == [] then 0 else (if xs[0] < slo then 1 else 0) + CountUnder(xs[1..], slo)
  }

  lemma {:induction false} CountUnderSplit(xs: seq<real>, slo: real, i: nat)
    requires i < |xs|
    ensures CountUnder(xs, slo) == (if xs[i] < slo then 1 else 0) + CountUnder(xs[..i] + xs[i + 1..], slo)
  {
    if i > 0 {
      CountUnderSplit(xs[1..], slo, i - 1);
      assert (xs[..i] + xs[i + 1..])[1..] == xs[1..][..i - 1] + xs[1..][i..];
    } else {
      assert xs[..0] + xs[1..] == xs[1..];
    }
  }

  lemma {:induction false} CountUnderPermutation(a: seq<real>, b: seq<real>, slo: real)
    requires multiset(a) == multiset(b)
    ensures CountUnder(a, slo) == CountUnder(b, slo)
    decreases |a|
  {
    if a == [] {
      assert |multiset(b)| == |b|;
    } else {
      var i := SplitAtHead(a, b);
      CountUnderPermutation(a[1..], b[..i] + b[i + 1..], slo);
      CountUnderSplit(b, slo, i);
    }
  }

  /** In an ascending list, entry `k` is under the objective exactly when more than `k` entries are. */
  lemma {:induction false} CountUnderAscending(s: seq<real>, slo: real, k: nat)
    requires Ascending(s) && k < |s|
    ensures s[k] < slo <==> CountUnder(s, slo) >= k + 1
  {
    if s[0] >= slo {
      assert forall i :: 0 <= i < |s| ==> s[i] >= slo by {
        forall i | 0 <= i < |s| ensures s[i] >= slo { assert s[0] <= s[i]; }
      }
      NoneUnder(s, slo);
    } else if k > 0 {
      assert Ascending(s[1..]);
      CountUnderAscending(s[1..], slo, k - 1);
    }
  }

  lemma {:induction false} NoneUnder(s: seq<real>, slo: real)
    requires forall i :: 0 <= i < |s| ==> s[i] >= slo
    ensures CountUnder(s, slo) == 0
  {
    if s != [] { NoneUnder(s[1..], slo); }
  }

  /** A percentile meets the objective exactly when at least `k + 1` samples are strictly under it. */
  lemma {:induction false} PercentileUnderIff(xs: seq<real>, p: real, slo: real)
    requires xs != []
    ensures Percentile(xs, p).value < slo <==> CountUnder(xs, slo) >= RankIndex(|xs|, p) + 1
  {
    CountUnderPermutation(xs, Sorted(xs), slo);
    CountUnderAscending(Sorted(xs), slo, RankIndex(|xs|, p));
  }

  /** `goodput`: the fraction of the requests sent that answered strictly under the objective; `None` is `nan`. */
  function Goodput(ttfts: seq<real>, sent: nat, slo: real): Option<real> {
    if sent == 0 then None else Some(CountUnder(ttfts, slo) as real / sent as real)
  }

  /** Nothing sent has no goodput; otherwise it is in `[0, 1]`, 0 and 1 exactly when none and all met the objective. */
  lemma {:induction false} GoodputEdges(ttfts: seq<real>, sent: nat, slo: real)
    requires |ttfts| <= sent
    ensures Goodput(ttfts, sent, slo).None? <==> sent == 0
    ensures sent > 0 ==>
      var g := Goodput(ttfts, sent, slo).value;
      && 0.0 <= g <= 1.0
      && (g == 0.0 <==> forall t :: t in ttfts ==> t >= slo)
      && (g == 1.0 <==> |ttfts| == sent && forall t :: t in ttfts ==> t < slo)
  {
    CountUnderExtremes(ttfts, slo);
    if sent > 0 {
      var c, n := CountUnder(ttfts, slo) as real, sent as real;
      QuotientTimes(c, n);
      QuotientOrder(0.0, c, n);
      QuotientOrder(c, n, n);
      UnitQuotient(c, n);
    }
  }

  lemma UnitQuotient(c: real, n: real)
    requires n > 0.0
    ensures c / n == 1.0 <==> c == n
    ensures c / n == 0.0 <==> c == 0.0
    ensures 0.0 / n == 0.0 && n / n == 1.0
  {
    QuotientTimes(c, n);
  }

  lemma {:induction false} CountUnderExtremes(xs: seq<real>, slo: real)
    ensures CountUnder(xs, slo) == 0 <==> forall t :: t in xs ==> t >= slo
    ensures CountUnder(xs, slo) == |xs| <==> forall t :: t in xs ==> t < slo
  {
    if xs != [] {
      CountUnderExtremes(xs[1..], slo);
      assert xs[0] in xs && forall t :: t in xs[1..] ==> t in xs;
      assert forall t :: t in xs ==> t == xs[0] || t in xs[1..];
      assert (forall t :: t in xs ==> t >= slo) <==> xs[0] >= slo && forall t :: t in xs[1..] ==> t >= slo;
      assert (forall t :: t in xs ==> t < slo) <==> xs[0] < slo && forall t :: t in xs[1..] ==> t < slo;
    }
  }

  /** So the percentile's verdict is read off goodput, whatever number of requests was sent. */
  lemma {:induction false} PercentileDecidedByGoodput(xs: seq<real>, sent: nat, p: real, slo: real)
    requires xs != [] && sent > 0
    ensures Percentile(xs, p).value < slo <==>
            Goodput(xs, sent, slo).value >= (RankIndex(|xs|, p) + 1) as real / sent as real
  {
    PercentileUnderIff(xs, p, slo);
    var c, k, n := CountUnder(xs, slo) as real, (RankIndex(|xs|, p) + 1) as real, sent as real;
    if c >= k {
      QuotientOrder(k, c, n);
    } else {
      QuotientOrder(c, k, n);
    }
  }

  lemma PercentileObserved(xs: seq<real>, p: real)
    requires xs != []
    ensures Percentile(xs, p).value in xs
  {
    SameElements(xs, Sorted(xs));
  }

  /** `(b - c) / b` for each pair of the two arms; zip stops at the shorter one. */
  function Reductions(cand: seq<real>, base: seq<real>): (r: seq<real>)
    requires NoZeroBase(cand, base)
    ensures |r| == Pairs(cand, base)
    ensures forall i :: 0 <= i < |r| ==> r[i] == (base[i] - cand[i]) / base[i]
  {
    if cand == [] || base == [] then []
    else
      assert forall i :: 0 <= i < |base| - 1 && i < |cand| - 1 ==> base[1..][i] == base[i + 1];
      [(base[0] - cand[0]) / base[0]] + Reductions(cand[1..], base[1..])
  }

  function Pairs(cand: seq<real>, base: seq<real>): nat {
    if |cand| < |base| then |cand| else |base|
  }

  predicate NoZeroBase(cand: seq<real>, base: seq<real>) {
    forall i :: 0 <= i < Pairs(cand, base) ==> base[i] != 0.0
  }

  /** `rel` lists, pair by pair, the share of the base by which the candidate is lower. */
  ghost predicate AreReductions(rel: seq<real>, cand: seq<real>, base: seq<real>) {
    && |rel| == Pairs(cand, base)
    && forall i :: 0 <= i < |rel| ==> rel[i] * base[i] == base[i] - cand[i]
  }

  lemma TimesBase(b: real, c: real)
    requires b != 0.0
    ensures (b - c) / b * b == b - c
  {
  }

  lemma {:induction false} ReductionsAre(cand: seq<real>, base: seq<real>)
    requires NoZeroBase(cand, base)
    ensures AreReductions(Reductions(cand, base), cand, base)
  {
    hide Reductions;
    var rel := Reductions(cand, base);
    forall i | 0 <= i < |rel| ensures rel[i] * base[i] == base[i] - cand[i] { TimesBase(base[i], cand[i]); }
  }

  /** On a positive base, a reduction is positive exactly when the candidate is lower. */
  lemma {:induction false} ReductionSign(rel: seq<real>, cand: seq<real>, base: seq<real>, i: nat)
    requires AreReductions(rel, cand, base) && i < |rel| && i < |base| && base[i] > 0.0
    ensures i < |cand| && (rel[i] > 0.0 <==> cand[i] < base[i]) && (rel[i] <= 1.0 <==> cand[i] >= 0.0)
  {
    ReductionAt(rel, cand, base, i);
    hide *;
    SignOfProduct(rel[i], base[i]);
    SignOfProduct(rel[i] - 1.0, base[i]);
    Distribute(rel[i], 1.0, base[i]);
  }

  lemma ReductionAt(rel: seq<real>, cand: seq<real>, base: seq<real>, i: nat)
    requires AreReductions(rel, cand, base) && i < |rel|
    ensures i < |base| && i < |cand| && rel[i] * base[i] == base[i] - cand[i]
  {
  }

  lemma SignOfProduct(x: real, b: real)
    requires b > 0.0
    ensures (x * b > 0.0 <==> x > 0.0) && (x * b <= 0.0 <==> x <= 0.0)
  {
  }

  lemma {:induction false} TimesNonzero(cand: seq<real>, base: seq<real>, k: real)
    requires NoZeroBase(cand, base) && k > 0.0
    ensures NoZeroBase(Times(cand, k), Times(base, k))
  {
    hide Times;
    forall i | 0 <= i < Pairs(cand, base) ensures Times(base, k)[i] != 0.0 { NonzeroScaled(base[i], k); }
  }

  /** The reduction of one pair does not depend on the unit. */
  lemma PairUnitFree(r: real, b: real, c: real, k: real, b': real, c': real)
    requires r * b == b - c && b' == b * k && c' == c * k
    ensures r * b' == b' - c'
  {
    Associate(r, b, k);
    Distribute(b, c, k);
  }

  ghost predicate IsTimes(scaled: seq<real>, xs: seq<real>, k: real) {
    |scaled| == |xs| && forall i :: 0 <= i < |xs| ==> ScaledEntry(scaled[i], xs[i], k)
  }

  predicate ScaledEntry(x': real, x: real, k: real) {
    x' == x * k
  }

  lemma {:induction false} AreReductionsUnitFree(rel: seq<real>, cand: seq<real>, base: seq<real>, c': seq<real>,
                                                 b': seq<real>, k: real)
    requires AreReductions(rel, cand, base) && IsTimes(c', cand, k) && IsTimes(b', base, k)
    ensures AreReductions(rel, c', b')
  {
    forall i | 0 <= i < |rel| ensures rel[i] * b'[i] == b'[i] - c'[i] {
      ReductionAt(rel, cand, base, i);
      assert ScaledEntry(b'[i], base[i], k) && ScaledEntry(c'[i], cand[i], k);
      hide AreReductions, IsTimes;
      PairUnitFree(rel[i], base[i], cand[i], k, b'[i], c'[i]);
    }
  }

  /** Measuring both arms in another unit changes nothing. */
  lemma {:induction false} ReductionsUnitFree(cand: seq<real>, base: seq<real>, k: real)
    requires NoZeroBase(cand, base) && k > 0.0
    ensures NoZeroBase(Times(cand, k), Times(base, k))
    ensures Reductions(Times(cand, k), Times(base, k)) == Reductions(cand, base)
  {
    assert IsTimes(Times(cand, k), cand, k) && IsTimes(Times(base, k), base, k);
    hide *;
    ReductionsAre(cand, base);
    TimesNonzero(cand, base, k);
    AreReductionsUnitFree(Reductions(cand, base), cand, base, Times(cand, k), Times(base, k), k);
    ReductionsUnique(Reductions(cand, base), Times(cand, k), Times(base, k));
  }

  function Times(xs: seq<real>, k: real): (r: seq<real>)
    ensures |r| == |xs| && forall i :: 0 <= i < |r| ==> r[i] == xs[i] * k
  {
    if xs == [] then [] else [xs[0] * k] + Times(xs[1..], k)
  }

  lemma NonzeroScaled(b: real, k: real)
    requires b != 0.0 && k > 0.0
    ensures b * k != 0.0
  {
  }

  /** One resample: the random stream's indices applied to the reductions. */
  function Resample(rel: seq<real>, picks: seq<nat>): (r: seq<real>)
    requires forall i :: 0 <= i < |picks| ==> picks[i] < |rel|
    ensures |r| == |picks|
    ensures forall i :: 0 <= i < |r| ==> r[i] == rel[picks[i]]
  {
    seq(|picks|, i requires 0 <= i < |picks| => rel[picks[i]])
  }

  /** One row of valid indices per iteration, as long as the list it resamples. */
  ghost predicate IsStream(size: nat, stream: seq<seq<nat>>) {
    forall t :: 0 <= t < |stream| ==> |stream[t]| == size && forall i :: 0 <= i < size ==> stream[t][i] < size
  }

  /** The median of every resample. */
  ghost predicate MediansOf(rel: seq<real>, stream: seq<seq<nat>>, medians: seq<real>)
    requires IsStream(|rel|, stream)
  {
    && |medians| == |stream|
    && forall t :: 0 <= t < |stream| ==> Some(medians[t]) == Percentile(Resample(rel, stream[t]), 50.0)
  }

  /** The ends of the interval are observed reductions, in order. */
  lemma {:induction false} IntervalEndsObserved(rel: seq<real>, stream: seq<seq<nat>>, medians: seq<real>)
    requires IsStream(|rel|, stream) && rel != [] && stream != [] && MediansOf(rel, stream, medians)
    ensures Percentile(medians, 2.5).value in rel && Percentile(medians, 97.5).value in rel
    ensures Percentile(medians, 2.5).value <= Percentile(medians, 97.5).value
  {
    hide Percentile;
    assert medians != [];
    PercentileObserved(medians, 2.5);
    PercentileObserved(medians, 97.5);
    PercentileMonotone(medians, 2.5, 97.5);
    forall t | 0 <= t < |medians| ensures medians[t] in rel {
      MedianObserved(rel, stream[t]);
    }
  }

  lemma MedianObserved(rel: seq<real>, picks: seq<nat>)
    requires picks != [] && forall i :: 0 <= i < |picks| ==> picks[i] < |rel|
    ensures Percentile(Resample(rel, picks), 50.0).Some? && Percentile(Resample(rel, picks), 50.0).value in rel
  {
    PercentileObserved(Resample(rel, picks), 50.0);
  }

  /** The list of reductions; `None` is the division by zero Python raises. */
  method RelativeReductions(cand: seq<real>, base: seq<real>) returns (rel: Option<seq<real>>)
    ensures rel.Some? <==> NoZeroBase(cand, base)
    ensures rel.Some? ==> AreReductions(rel.value, cand, base)
  {
    var r: seq<real> := [];
    for i := 0 to Pairs(cand, base)
      invariant |r| == i
      invariant forall j :: 0 <= j < i ==> base[j] != 0.0
      invariant forall j :: 0 <= j < i ==> r[j] * base[j] == base[j] - cand[j]
    {
      if base[i] == 0.0 { return None; }
      TimesBase(base[i], cand[i]);
      r := r + [(base[i] - cand[i]) / base[i]];
    }
    return Some(r);
  }

  /** The resampling loop, for any random stream. */
  method ResampleMedians(rel: seq<real>, stream: seq<seq<nat>>) returns (medians: seq<real>)
    requires IsStream(|rel|, stream) && rel != []
    ensures MediansOf(rel, stream, medians)
  {
    medians := [];
    for t := 0 to |stream|
      invariant |medians| == t
      invariant forall s :: 0 <= s < t ==> Some(medians[s]) == Percentile(Resample(rel, stream[s]), 50.0)
    {
      medians := medians + [Percentile(Resample(rel, stream[t]), 50.0).value];
    }
  }

  datatype Bootstrap = DivisionByZero | Interval(point: Option<real>, low: Option<real>, high: Option<real>)

  /**
   * `bootstrap_ci_median_rel_reduction`: the point is the median of the reductions, and each end the stated percentile
   * of the medians of the resamples.
   */
  method BootstrapMedian(cand: seq<real>, base: seq<real>, stream: seq<seq<nat>>)
    returns (r: Bootstrap, ghost rel: seq<real>, ghost medians: seq<real>)
    requires IsStream(Pairs(cand, base), stream)
    ensures r.DivisionByZero? <==> !NoZeroBase(cand, base)
    ensures r.Interval? ==> AreReductions(rel, cand, base) && r.point == Percentile(rel, 50.0)
    ensures r.Interval? && rel == [] ==> r.low == r.high == None
    ensures r.Interval? && rel != [] ==>
      && MediansOf(rel, stream, medians)
      && r.low == Percentile(medians, 2.5) && r.high == Percentile(medians, 97.5)
  {
    rel, medians := [], [];
    var computed := RelativeReductions(cand, base);
    if computed.None? { return DivisionByZero, rel, medians; }
    rel := computed.value;
    var point := Percentile(computed.value, 50.0);
    if computed.value == [] { return Interval(point, None, None), rel, medians; }
    var collected := ResampleMedians(computed.value, stream);
    return Interval(point, Percentile(collected, 2.5), Percentile(collected, 97.5)), rel, collected;
  }

  /** The nonzero bases determine the reductions. */
  lemma {:induction false} ReductionsUnique(rel: seq<real>, cand: seq<real>, base: seq<real>)
    requires NoZeroBase(cand, base) && AreReductions(rel, cand, base)
    ensures rel == Reductions(cand, base)
  {
    hide Reductions;
    ReductionsAre(cand, base);
    forall i | 0 <= i < |rel| ensures rel[i] == Reductions(cand, base)[i] {
      SameQuotient(base[i] - cand[i], base[i], rel[i]);
    }
  }
}
