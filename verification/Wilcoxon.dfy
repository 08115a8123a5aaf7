/** The exact one-sided Wilcoxon signed-rank test. */
module Wilcoxon {
  import opened PyDict
  import opened Sums
  import opened Sorting
  import opened SignCounts
  import opened Ranks
  import opened RealFacts

  function Abs(x: real): real {
    if x < 0.0 then -x else x
  }

  function Nonzero(diffs: seq<real>): (d: seq<real>)
    ensures forall x :: x in d ==> x != 0.0
  {
    if diffs == [] then []
    else if diffs[0] != 0.0 then [diffs[0]] + Nonzero(diffs[1..])
    else Nonzero(diffs[1..])
  }

  function Mags(d: seq<real>): (ms: seq<real>)
    ensures |ms| == |d|
  {
    Map(Abs, d)
  }

  /** Every difference's doubled midrank. */
  function Ranks2(d: seq<real>): (r: seq<int>)
    ensures |r| == |d|
  {
    RankEach(Mags(d), Mags(d))
  }

  function Signs(d: seq<real>): (s: seq<bool>)
    ensures |s| == |d|
  {
    if d == [] then [] else [d[0] > 0.0] + Signs(d[1..])
  }

  /** Twice W+: the doubled ranks of the positive differences. */
  function WPlus2(d: seq<real>): int {
    Dot(Ranks2(d), Signs(d))
  }

  /** The p-value of a list of differences: zeros dropped, P(W+ <= observed) over all sign assignments. */
  function PValue(diffs: seq<real>): real {
    var d := Nonzero(diffs);
    LeCount(Ranks2(d), WPlus2(d)) as real / Pow2(|d|) as real
  }

  lemma Ranks2Positive(d: seq<real>)
    ensures AllPositive(Ranks2(d)) && Sum(Ranks2(d)) == |d| * (|d| + 1)
  {
    RankSum(Mags(d));
    forall i | 0 <= i < |d| ensures Ranks2(d)[i] > 0 {
      RankEachAt(Mags(d), Mags(d), i);
    }
  }

  /** `d[i]`'s rank, as the code's reals have it. */
  function Midrank(d: seq<real>, i: nat): real
    requires i < |d|
  {
    Rank2(Mags(d), Abs(d[i])) as real / 2.0
  }

  function Range(n: nat): (r: seq<int>)
    ensures |r| == n && forall i :: 0 <= i < n ==> r[i] == i
  {
    seq(n, i => i)
  }

  function MagAt(d: seq<real>): int -> real {
    i => if 0 <= i < |d| then Abs(d[i]) else 0.0
  }

  function ByMagnitude(d: seq<real>): (int, int) -> bool {
    (a, b) => MagAt(d)(a) <= MagAt(d)(b)
  }

  /** `sorted(range(n), key=lambda i: abs(d[i]))`: a permutation of the indices whose magnitudes ascend. */
  function OrderOf(d: seq<real>): seq<int> {
    Sort(Range(|d|), ByMagnitude(d))
  }

  ghost predicate ListsIndices(order: seq<int>, n: nat) {
    && |order| == n
    && (forall i :: 0 <= i < n ==> i in order)
    && (forall k :: 0 <= k < n ==> 0 <= order[k] < n)
  }

  lemma OrderListsIndices(d: seq<real>)
    ensures ListsIndices(OrderOf(d), |d|)
  {
    var order, n := OrderOf(d), |d|;
    SameElements(order, Range(n));
    forall i | 0 <= i < n ensures i in order { assert Range(n)[i] in Range(n); }
    forall k | 0 <= k < n ensures 0 <= order[k] < n { assert order[k] in Range(n); }
  }

  function SortedMags(d: seq<real>): seq<real>
  {
    Map(MagAt(d), OrderOf(d))
  }

  lemma {:induction false} MagsByIndex(d: seq<real>)
    ensures Map(MagAt(d), Range(|d|)) == Mags(d)
  {
    forall i | 0 <= i < |d| ensures Map(MagAt(d), Range(|d|))[i] == Mags(d)[i] {
      MapAt(MagAt(d), Range(|d|), i);
      MapAt(Abs, d, i);
    }
  }

  lemma {:induction false} SortedMagsAscend(d: seq<real>)
    requires ListsIndices(OrderOf(d), |d|)
    ensures |SortedMags(d)| == |d| && Ascending(SortedMags(d))
    ensures forall k :: 0 <= k < |d| ==> SortedMags(d)[k] == Abs(d[OrderOf(d)[k]])
  {
    var order := OrderOf(d);
    SortSorts(Range(|d|), ByMagnitude(d));
    hide OrderOf, Sort, Abs;
    forall k | 0 <= k < |d| ensures SortedMags(d)[k] == MagAt(d)(order[k]) {
      MapAt(MagAt(d), order, k);
    }
    forall a, b | 0 <= a <= b < |d| ensures SortedMags(d)[a] <= SortedMags(d)[b] {
      if a < b { assert ByMagnitude(d)(order[a], order[b]); }
    }
  }

  lemma {:induction false} SortedMagsFacts(d: seq<real>)
    ensures |SortedMags(d)| == |d| && multiset(SortedMags(d)) == multiset(Mags(d))
    ensures Ascending(SortedMags(d))
    ensures ListsIndices(OrderOf(d), |d|)
    ensures forall k :: 0 <= k < |d| ==> SortedMags(d)[k] == Abs(d[OrderOf(d)[k]])
  {
    OrderListsIndices(d);
    SortedMagsAscend(d);
    MapPermutation(MagAt(d), OrderOf(d), Range(|d|));
    MagsByIndex(d);
  }

  /** The value the tie loop writes for a group is the midrank of each of its members. */
  lemma GroupMidrank(d: seq<real>, i: nat, j: nat, k: nat)
    requires ListsIndices(OrderOf(d), |d|)
    requires TieGroup(SortedMags(d), i, j) && i <= k <= j < |d|
    ensures 0 <= OrderOf(d)[k] < |d|
    ensures (i + j) as real / 2.0 + 1.0 == Midrank(d, OrderOf(d)[k])
  {
    var ms := SortedMags(d);
    SortedMagsFacts(d);
    TieGroupRank(ms, i, j);
    RankPermutation(ms, Mags(d), ms[i]);
    assert Abs(d[OrderOf(d)[k]]) == ms[i];
  }

  /** The tie loop: every entry gets (number strictly smaller in magnitude) + (number equal + 1) / 2. */
  method Midranks(d: seq<real>) returns (ranks: seq<real>)
    ensures |ranks| == |d|
    ensures forall i :: 0 <= i < |d| ==> ranks[i] == Midrank(d, i)
  {
    var n := |d|;
    var order := OrderOf(d);
    ghost var ms := SortedMags(d);
    SortedMagsFacts(d);
    hide Midrank, Ascending, OrderOf, SortedMags;
    var buffer := new real[n](_ => 0.0);
    var i := 0;
    while i < n
      invariant 0 <= i <= n
      invariant 0 < i < n ==> ms[i - 1] != ms[i]
      invariant forall k :: 0 <= k < i ==> buffer[order[k]] == Midrank(d, order[k])
    {
      var j := i;
      while j + 1 < n && Abs(d[order[j + 1]]) == Abs(d[order[i]])
        invariant i <= j < n && ms[j] == ms[i]
      {
        j := j + 1;
      }
      assert TieGroup(ms, i, j);
      var mid := (i + j) as real / 2.0 + 1.0;
      FillGroup(d, order, buffer, i, j, mid);
      i := j + 1;
    }
    ranks := buffer[..];
    forall t | 0 <= t < n ensures ranks[t] == Midrank(d, t) {
      assert t in order;
      var k :| 0 <= k < |order| && order[k] == t;
    }
  }

  /** `for k in range(i, j + 1): ranks[order[k]] = mid`. */
  method FillGroup(d: seq<real>, order: seq<int>, buffer: array<real>, i: nat, j: nat, mid: real)
    requires order == OrderOf(d) && ListsIndices(order, |d|) && buffer.Length == |d|
    requires i <= j < |d| && TieGroup(SortedMags(d), i, j) && mid == (i + j) as real / 2.0 + 1.0
    requires forall k :: 0 <= k < i ==> buffer[order[k]] == Midrank(d, order[k])
    modifies buffer
    ensures forall k :: 0 <= k < j + 1 ==> buffer[order[k]] == Midrank(d, order[k])
  {
    hide Midrank, SortedMags, TieGroup, OrderOf;
    for k := i to j + 1
      invariant forall l :: 0 <= l < k ==> buffer[order[l]] == Midrank(d, order[l])
    {
      GroupMidrank(d, i, j, k);
      buffer[order[k]] := mid;
    }
  }

  /** `sum(r for r, s in zip(ranks, signs) if s)` on the code's reals. */
  function RealDot(ranks: seq<real>, signs: seq<bool>): real {
    if ranks == [] || signs == [] then 0.0
    else (if signs[0] then ranks[0] else 0.0) + RealDot(ranks[1..], signs[1..])
  }

  lemma {:induction false} RealDotIsHalf(ranks: seq<real>, r2: seq<int>, signs: seq<bool>)
    requires |ranks| == |r2| && forall i :: 0 <= i < |ranks| ==> ranks[i] == r2[i] as real / 2.0
    ensures RealDot(ranks, signs) == Dot(r2, signs) as real / 2.0
  {
    if ranks != [] && signs != [] {
      assert forall i :: 0 <= i < |ranks[1..]| ==> ranks[1..][i] == ranks[i + 1] && r2[1..][i] == r2[i + 1];
      RealDotIsHalf(ranks[1..], r2[1..], signs[1..]);
    }
  }

  /** Half-integers differ by at least one half, so the comparison slack never changes an answer. */
  lemma SlackIsIdle(a: int, b: int)
    ensures a as real / 2.0 <= b as real / 2.0 + 0.000000001 <==> a <= b
  {
    if a > b {
      assert a as real >= b as real + 1.0;
    }
  }

  /** `wilcoxon_exact_one_sided`. */
  method ExactOneSided(diffs: seq<real>) returns (n: nat, wPlus: Option<real>, p: real)
    ensures n == |Nonzero(diffs)|
    ensures wPlus == if n == 0 then None else Some(WPlus2(Nonzero(diffs)) as real / 2.0)
    ensures p == PValue(diffs)
  {
    var d := Nonzero(diffs);
    n := |d|;
    if n == 0 {
      LeCountIsSubsetCount([], 0);
      assert Ranks2(d) == [];
      return 0, None, 1.0;
    }
    var ranks := Midranks(d);
    ghost var r2 := Ranks2(d);
    forall i | 0 <= i < n ensures ranks[i] == r2[i] as real / 2.0 {
      RankEachAt(Mags(d), Mags(d), i);
      MapAt(Abs, d, i);
    }
    var w := RealDot(ranks, Signs(d));
    RealDotIsHalf(ranks, r2, Signs(d));
    var count := CountAtMost(ranks, w, r2, WPlus2(d));
    return n, Some(w), count as real / Pow2(n) as real;
  }

  /** The count over `itertools.product`; `r2` and `w2` are the doubled ranks and the doubled observed sum. */
  method CountAtMost(ranks: seq<real>, w: real, ghost r2: seq<int>, ghost w2: int) returns (count: nat)
    requires |ranks| == |r2| && forall i :: 0 <= i < |ranks| ==> ranks[i] == r2[i] as real / 2.0
    requires w == w2 as real / 2.0
    ensures count == LeCount(r2, w2)
  {
    var vectors := SignVectors(|ranks|);
    count := 0;
    for i := 0 to |vectors|
      invariant count + CountIf(vectors[i..], AtMost(r2, w2)) == LeCount(r2, w2)
    {
      RealDotIsHalf(ranks, r2, vectors[i]);
      SlackIsIdle(Dot(r2, vectors[i]), w2);
      assert vectors[i..][1..] == vectors[i + 1..];
      if RealDot(ranks, vectors[i]) <= w + 0.000000001 {
        count := count + 1;
      }
    }
  }

  /** The magnitudes with a sign assignment put on them. */
  function Signed(mags: seq<real>, signs: seq<bool>): (d: seq<real>)
    requires |mags| == |signs|
    ensures |d| == |mags|
  {
    if mags == [] then [] else [if signs[0] then mags[0] else -mags[0]] + Signed(mags[1..], signs[1..])
  }

  ghost predicate AllMagnitudes(mags: seq<real>) {
    forall i :: 0 <= i < |mags| ==> mags[i] > 0.0
  }

  lemma {:induction false} SignedFacts(mags: seq<real>, signs: seq<bool>)
    requires |mags| == |signs| && AllMagnitudes(mags)
    ensures Nonzero(Signed(mags, signs)) == Signed(mags, signs)
    ensures Mags(Signed(mags, signs)) == mags && Signs(Signed(mags, signs)) == signs
  {
    if mags != [] {
      assert AllMagnitudes(mags[1..]);
      SignedFacts(mags[1..], signs[1..]);
      assert Signed(mags, signs)[1..] == Signed(mags[1..], signs[1..]);
    }
  }

  /** The test's p-value at or below `alpha`, as a property of the sign assignment. */
  function Rejects(mags: seq<real>, alpha: real): seq<bool> -> bool {
    s => |s| == |mags| && PValue(Signed(mags, s)) <= alpha
  }

  /** Validity at every level: at most `alpha * 2^n` of the sign assignments get a p-value of at most `alpha`. */
  lemma {:induction false} TestIsValid(mags: seq<real>, alpha: real)
    requires AllMagnitudes(mags) && alpha >= 0.0
    ensures CountIf(SignVectors(|mags|), Rejects(mags, alpha)) as real <= alpha * Pow2(|mags|) as real
  {
    var size := Pow2(|mags|) as real;
    NonnegativeProduct(alpha, size);
    ValidWithin(mags, alpha, alpha * size);
  }

  lemma {:induction false} ValidWithin(mags: seq<real>, alpha: real, bound: real)
    requires AllMagnitudes(mags) && bound == alpha * Pow2(|mags|) as real && bound >= 0.0
    ensures CountIf(SignVectors(|mags|), Rejects(mags, alpha)) as real <= bound
  {
    hide *;
    RejectionsWithin(mags, alpha, bound);
    TailCountsAreValid(RankEach(mags, mags), bound);
    RankEachLength(mags);
  }

  lemma RankEachLength(mags: seq<real>)
    ensures |RankEach(mags, mags)| == |mags|
  {
  }

  lemma {:induction false} RejectionsWithin(mags: seq<real>, alpha: real, bound: real)
    requires AllMagnitudes(mags) && bound == alpha * Pow2(|mags|) as real
    ensures CountIf(SignVectors(|mags|), Rejects(mags, alpha)) <=
            CountIf(SignVectors(|mags|), TailWithin(RankEach(mags, mags), bound))
  {
    var ranks := RankEach(mags, mags);
    hide PValue, Signed, Dot, LeCount, RankEach, Pow2, SignVectors, CountIf;
    forall s | Rejects(mags, alpha)(s) ensures TailWithin(ranks, bound)(s) {
      RejectsWithin(mags, alpha, s);
    }
    CountMonotone(SignVectors(|mags|), Rejects(mags, alpha), TailWithin(ranks, bound));
  }

  /** Every sign assignment of the same magnitudes is judged against the same null distribution. */
  lemma {:induction false} PValueOfSigned(mags: seq<real>, s: seq<bool>)
    requires AllMagnitudes(mags) && |s| == |mags|
    ensures var ranks := RankEach(mags, mags);
      PValue(Signed(mags, s)) == LeCount(ranks, Dot(ranks, s)) as real / Pow2(|mags|) as real
  {
    SignedFacts(mags, s);
    hide Dot, LeCount, RankEach, Signed, Nonzero, Mags, Signs;
    assert Ranks2(Signed(mags, s)) == RankEach(mags, mags);
  }

  lemma {:induction false} RejectsWithin(mags: seq<real>, alpha: real, s: seq<bool>)
    requires AllMagnitudes(mags) && |s| == |mags| && PValue(Signed(mags, s)) <= alpha
    ensures LeCount(RankEach(mags, mags), Dot(RankEach(mags, mags), s)) as real <= alpha * Pow2(|mags|) as real
  {
    hide *;
    PValueOfSigned(mags, s);
    LevelTimesSize(LeCount(RankEach(mags, mags), Dot(RankEach(mags, mags), s)) as real, Pow2(|mags|) as real, alpha);
  }

  /** The level is attained: at `s0`'s own p-value, exactly that share of the assignments is rejected. */
  lemma {:induction false} TestIsExact(mags: seq<real>, s0: seq<bool>)
    requires AllMagnitudes(mags) && |s0| == |mags|
    ensures var p := PValue(Signed(mags, s0));
      CountIf(SignVectors(|mags|), Rejects(mags, p)) as real == p * Pow2(|mags|) as real
  {
    hide *;
    RejectionsCounted(mags, s0);
    ShareOfRejections(mags, s0, PValue(Signed(mags, s0)), Pow2(|mags|) as real);
  }

  lemma {:induction false} ShareOfRejections(mags: seq<real>, s0: seq<bool>, p: real, size: real)
    requires AllMagnitudes(mags) && |s0| == |mags| && p == PValue(Signed(mags, s0)) && size == Pow2(|mags|) as real
    ensures LeCount(RankEach(mags, mags), Dot(RankEach(mags, mags), s0)) as real == p * size
  {
    Pow2Positive(|mags|);
    hide *;
    PValueOfSigned(mags, s0);
    ShareTimesSize(p, LeCount(RankEach(mags, mags), Dot(RankEach(mags, mags), s0)) as real, size);
  }

  lemma Pow2Positive(n: nat)
    ensures Pow2(n) as real >= 1.0
  {
  }

  lemma ShareTimesSize(p: real, c: real, size: real)
    requires size > 0.0 && p == c / size
    ensures p * size == c
  {
    QuotientTimes(c, size);
  }

  lemma {:induction false} RejectionsCounted(mags: seq<real>, s0: seq<bool>)
    requires AllMagnitudes(mags) && |s0| == |mags|
    ensures var ranks := RankEach(mags, mags);
      CountIf(SignVectors(|mags|), Rejects(mags, PValue(Signed(mags, s0)))) == LeCount(ranks, Dot(ranks, s0))
  {
    var ranks, n := RankEach(mags, mags), |mags|;
    RankEachLength(mags);
    var c := LeCount(ranks, Dot(ranks, s0));
    hide PValue, Signed, Dot, LeCount, RankEach, Pow2, SignVectors, CountIf;
    TailCountsAreExact(ranks, s0);
    forall s | s in SignVectors(n)
      ensures Rejects(mags, PValue(Signed(mags, s0)))(s) == TailWithin(ranks, c as real)(s)
    {
      VectorLengths(n, s);
      RejectsAtIff(mags, s0, s);
    }
    CountSame(SignVectors(n), Rejects(mags, PValue(Signed(mags, s0))), TailWithin(ranks, c as real));
  }

  lemma {:induction false} RejectsAtIff(mags: seq<real>, s0: seq<bool>, s: seq<bool>)
    requires AllMagnitudes(mags) && |s0| == |mags| == |s|
    ensures var ranks := RankEach(mags, mags);
      PValue(Signed(mags, s)) <= PValue(Signed(mags, s0)) <==>
      LeCount(ranks, Dot(ranks, s)) <= LeCount(ranks, Dot(ranks, s0))
  {
    var ranks := RankEach(mags, mags);
    var c, c0 := LeCount(ranks, Dot(ranks, s)) as real, LeCount(ranks, Dot(ranks, s0)) as real;
    var size := Pow2(|mags|) as real;
    assert size > 0.0;
    hide *;
    PValueOfSigned(mags, s);
    PValueOfSigned(mags, s0);
    if c <= c0 {
      QuotientOrder(c, c0, size);
    } else {
      QuotientOrder(c0, c, size);
    }
  }

  lemma LevelTimesSize(c: real, size: real, alpha: real)
    requires size > 0.0 && c / size <= alpha
    ensures c <= alpha * size
  {
    QuotientTimes(c, size);
    ProductMonotone(size, c / size, alpha);
  }

  function OneUnlessZero(x: real): multiset<real> {
    if x != 0.0 then multiset{x} else multiset{}
  }

  lemma NonzeroHead(d: seq<real>)
    requires d != []
    ensures multiset(Nonzero(d)) == OneUnlessZero(d[0]) + multiset(Nonzero(d[1..]))
  {
  }

  lemma {:induction false} NonzeroSplit(d: seq<real>, i: nat)
    requires i < |d|
    ensures multiset(Nonzero(d)) == OneUnlessZero(d[i]) + multiset(Nonzero(d[..i] + d[i + 1..]))
  {
    hide Nonzero, OneUnlessZero;
    var rest := d[..i] + d[i + 1..];
    NonzeroHead(d);
    if i > 0 {
      NonzeroSplit(d[1..], i - 1);
      NonzeroHead(rest);
      assert rest[1..] == d[1..][..i - 1] + d[1..][i..];
    } else {
      assert rest == d[1..];
    }
  }

  lemma {:induction false} NonzeroPermutation(a: seq<real>, b: seq<real>)
    requires multiset(a) == multiset(b)
    ensures multiset(Nonzero(a)) == multiset(Nonzero(b))
    decreases |a|
  {
    if a == [] {
      assert |multiset(b)| == |b|;
    } else {
      var i := SplitAtHead(a, b);
      NonzeroPermutation(a[1..], b[..i] + b[i + 1..]);
      NonzeroSplit(b, i);
    }
  }

  /** The positive rank sum entry by entry, against a fixed collection of magnitudes. */
  function PositiveSum(ms: seq<real>, d: seq<real>): int {
    if d == [] then 0 else (if d[0] > 0.0 then Rank2(ms, Abs(d[0])) else 0) + PositiveSum(ms, d[1..])
  }

  lemma {:induction false} DotIsPositiveSum(ms: seq<real>, d: seq<real>)
    ensures Dot(RankEach(ms, Mags(d)), Signs(d)) == PositiveSum(ms, d)
  {
    if d != [] { DotIsPositiveSum(ms, d[1..]); }
  }

  lemma {:induction false} PositiveSumSplit(ms: seq<real>, d: seq<real>, i: nat)
    requires i < |d|
    ensures PositiveSum(ms, d) ==
            (if d[i] > 0.0 then Rank2(ms, Abs(d[i])) else 0) + PositiveSum(ms, d[..i] + d[i + 1..])
  {
    if i > 0 {
      PositiveSumSplit(ms, d[1..], i - 1);
      assert (d[..i] + d[i + 1..])[1..] == d[1..][..i - 1] + d[1..][i..];
    } else {
      assert d[..0] + d[1..] == d[1..];
    }
  }

  lemma {:induction false} PositiveSumPermutation(ms: seq<real>, ms': seq<real>, a: seq<real>, b: seq<real>)
    requires multiset(a) == multiset(b) && multiset(ms) == multiset(ms')
    ensures PositiveSum(ms, a) == PositiveSum(ms', b)
    decreases |a|
  {
    if a == [] {
      assert |multiset(b)| == |b|;
    } else {
      var i := SplitAtHead(a, b);
      PositiveSumPermutation(ms, ms', a[1..], b[..i] + b[i + 1..]);
      PositiveSumSplit(ms', b, i);
      RankPermutation(ms, ms', Abs(a[0]));
    }
  }

  /** Seed order does not matter: permuting the differences leaves n, W+ and p unchanged. */
  lemma OrderDoesNotMatter(a: seq<real>, b: seq<real>)
    requires multiset(a) == multiset(b)
    ensures |Nonzero(a)| == |Nonzero(b)|
    ensures WPlus2(Nonzero(a)) == WPlus2(Nonzero(b))
    ensures PValue(a) == PValue(b)
  {
    NonzeroPermutation(a, b);
    var x, y := Nonzero(a), Nonzero(b);
    SameElements(x, y);
    MapPermutation(Abs, x, y);
    var mx, my := Mags(x), Mags(y);
    DotIsPositiveSum(mx, x);
    DotIsPositiveSum(my, y);
    PositiveSumPermutation(mx, my, x, y);
    RankEachSame(mx, my, my);
    RankEachPermutation(mx, mx, my);
    var w := WPlus2(x);
    LeCountIsSubsetCount(Ranks2(x), w);
    LeCountIsSubsetCount(Ranks2(y), w);
    SubsetCountPermutation(Ranks2(x), Ranks2(y), w);
  }

  function Negated(d: seq<real>): (r: seq<real>)
    ensures |r| == |d|
  {
    if d == [] then [] else [-d[0]] + Negated(d[1..])
  }

  lemma {:induction false} NegatedFacts(d: seq<real>)
    ensures Nonzero(Negated(d)) == Negated(Nonzero(d)) && Mags(Negated(d)) == Mags(d)
  {
    if d != [] { NegatedFacts(d[1..]); }
  }

  lemma {:induction false} ComplementaryDots(ranks: seq<int>, d: seq<real>)
    requires |ranks| == |d| && forall x :: x in d ==> x != 0.0
    ensures Dot(ranks, Signs(d)) + Dot(ranks, Signs(Negated(d))) == Sum(ranks)
  {
    if d != [] {
      assert d[0] in d && forall x :: x in d[1..] ==> x in d;
      ComplementaryDots(ranks[1..], d[1..]);
    }
  }

  /** The probability, under all sign assignments, of exactly the observed W+. */
  function PointProbability(diffs: seq<real>): real {
    var d := Nonzero(diffs);
    EqCount(Ranks2(d), WPlus2(d)) as real / Pow2(|d|) as real
  }

  /** Mirror law: the two directions share the rank total, and their p-values overlap by the observed point. */
  lemma {:induction false} MirrorLaw(diffs: seq<real>)
    ensures var d, e, n := Nonzero(diffs), Nonzero(Negated(diffs)), |Nonzero(diffs)|;
      WPlus2(d) + WPlus2(e) == n * (n + 1)
    ensures PValue(diffs) + PValue(Negated(diffs)) == 1.0 + PointProbability(diffs)
  {
    var d, n := Nonzero(diffs), |Nonzero(diffs)|;
    NegatedFacts(diffs);
    MirrorCounts(d);
    hide LeCount, EqCount, Ranks2, WPlus2, Negated, Nonzero, Pow2;
    ShareOfWhole(LeCount(Ranks2(d), WPlus2(d)) as real, LeCount(Ranks2(d), WPlus2(Negated(d))) as real,
                 EqCount(Ranks2(d), WPlus2(d)) as real, Pow2(n) as real);
  }

  /** The mirror law on counts. */
  lemma {:induction false} MirrorCounts(d: seq<real>)
    requires forall x :: x in d ==> x != 0.0
    ensures Ranks2(Negated(d)) == Ranks2(d) && Pow2(|d|) >= 1
    ensures WPlus2(d) + WPlus2(Negated(d)) == |d| * (|d| + 1)
    ensures LeCount(Ranks2(d), WPlus2(d)) + LeCount(Ranks2(d), WPlus2(Negated(d))) ==
            Pow2(|d|) + EqCount(Ranks2(d), WPlus2(d))
  {
    var ranks, w := Ranks2(d), WPlus2(d);
    NegatedFacts(d);
    Ranks2Positive(d);
    ComplementaryDots(ranks, d);
    Complement(ranks, w);
    LeCountIsSubsetCount(ranks, w - 1);
    LeCountIsSubsetCount(ranks, Sum(ranks) - w);
    EqCountIsStep(SignVectors(|d|), ranks, w);
  }

  lemma ShareOfWhole(a: real, b: real, c: real, size: real)
    requires size > 0.0 && a + b == size + c
    ensures a / size + b / size == 1.0 + c / size
  {
    QuotientSum(a, b, size);
    QuotientSum(size, c, size);
  }

  /** No p-value is below 1/2^n, and that floor is met exactly when no difference is positive. */
  lemma {:induction false} PValueFloor(diffs: seq<real>)
    ensures PValue(diffs) >= 1.0 / Pow2(|Nonzero(diffs)|) as real
    ensures PValue(diffs) == 1.0 / Pow2(|Nonzero(diffs)|) as real <==> forall x :: x in Nonzero(diffs) ==> x <= 0.0
  {
    var d := Nonzero(diffs);
    var ranks, w := Ranks2(d), WPlus2(d);
    Ranks2Positive(d);
    DotBounds(ranks, d);
    LeCountIsSubsetCount(ranks, w);
    SubsetCountAtLeastOne(ranks, w);
    QuotientOrder(1.0, LeCount(ranks, w) as real, Pow2(|d|) as real);
    if forall x :: x in d ==> x <= 0.0 {
      assert w == 0;
    } else {
      var x :| x in d && x > 0.0;
      var i :| 0 <= i < |d| && d[i] == x;
      DotCovers(ranks, d, i);
    }
  }

  lemma {:induction false} DotBounds(ranks: seq<int>, d: seq<real>)
    requires |ranks| == |d| && AllPositive(ranks)
    ensures Dot(ranks, Signs(d)) >= 0
    ensures (forall x :: x in d ==> x <= 0.0) ==> Dot(ranks, Signs(d)) == 0
  {
    if d != [] {
      assert d[0] in d && forall x :: x in d[1..] ==> x in d;
      DotBounds(ranks[1..], d[1..]);
    }
  }

  lemma {:induction false} DotCovers(ranks: seq<int>, d: seq<real>, i: nat)
    requires |ranks| == |d| && AllPositive(ranks) && i < |d| && d[i] > 0.0
    ensures Dot(ranks, Signs(d)) >= ranks[i]
  {
    if i > 0 {
      DotCovers(ranks[1..], d[1..], i - 1);
    } else {
      DotBounds(ranks[1..], d[1..]);
    }
  }

  /** The pre-registered level `ALPHA = 0.025` cannot be reached with five seeds or fewer. */
  lemma FiveSeedsCannotBeSignificant(diffs: seq<real>)
    requires |Nonzero(diffs)| <= 5
    ensures PValue(diffs) > 0.025
  {
    PValueFloor(diffs);
    FloorAboveAlpha(|Nonzero(diffs)|);
  }

  lemma FloorAboveAlpha(n: nat)
    requires n <= 5
    ensures 1.0 / Pow2(n) as real > 0.025
  {
    assert Pow2(0) == 1 && Pow2(1) == 2 && Pow2(2) == 4 && Pow2(3) == 8 && Pow2(4) == 16 && Pow2(5) == 32;
    assert 1.0 / 1.0 > 0.025 && 1.0 / 2.0 > 0.025 && 1.0 / 4.0 > 0.025;
    assert 1.0 / 8.0 > 0.025 && 1.0 / 16.0 > 0.025 && 1.0 / 32.0 > 0.025;
    assert n == 0 || n == 1 || n == 2 || n == 3 || n == 4 || n == 5;
  }

  lemma {:induction false} PowersBelow(n: nat)
    requires n >= 6
    ensures Pow2(n) >= 64
  {
    assert Pow2(0) == 1 && Pow2(1) == 2 && Pow2(2) == 4 && Pow2(3) == 8 && Pow2(4) == 16 && Pow2(5) == 32;
    if n > 6 { PowersBelow(n - 1); }
  }

  function Decreases(n: nat): (d: seq<real>)
    ensures |d| == n && forall x :: x in d ==> x == -1.0
  {
    if n == 0 then [] else [-1.0] + Decreases(n - 1)
  }

  lemma {:induction false} DecreasesAreNonzero(n: nat)
    ensures Nonzero(Decreases(n)) == Decreases(n)
  {
    if n > 0 { DecreasesAreNonzero(n - 1); }
  }

  /** The pre-registered level can be reached exactly from six nonzero differences on. */
  lemma {:induction false} SignificanceReachableIff(n: nat)
    ensures (exists diffs :: |Nonzero(diffs)| == n && PValue(diffs) <= 0.025) <==> n >= 6
  {
    if n >= 6 {
      var d := Decreases(n);
      DecreasesAreNonzero(n);
      PValueFloor(d);
      PowersBelow(n);
      hide PValue, Pow2, Nonzero;
      LevelOfSize(Pow2(n) as real);
    } else {
      forall diffs | |Nonzero(diffs)| == n ensures PValue(diffs) > 0.025 { FiveSeedsCannotBeSignificant(diffs); }
    }
  }

  lemma LevelOfSize(size: real)
    requires size >= 64.0
    ensures 1.0 / size <= 0.025
  {
    QuotientTimes(1.0, size);
  }
}
