/** Counting sign assignments by the rank sum of their positive entries. */
module SignCounts {
  import opened PyDict
  import opened Sums

  function Pow2(n: nat): (r: nat)
    ensures r >= 1
  {
    if n == 0 then 1 else 2 * Pow2(n - 1)
  }

  /** `sum(r for r, s in zip(ranks, signs) if s)`. */
  function Dot(ranks: seq<int>, signs: seq<bool>): int {
    if ranks == [] || signs == [] then 0
    else (if signs[0] then ranks[0] else 0) + Dot(ranks[1..], signs[1..])
  }

  function Prepend(b: bool, vs: seq<seq<bool>>): (r: seq<seq<bool>>)
    ensures |r| == |vs|
  {
    if vs == [] then [] else [[b] + vs[0]] + Prepend(b, vs[1..])
  }

  /** `itertools.product((0, 1), repeat=n)`, in its order. */
  function SignVectors(n: nat): (r: seq<seq<bool>>)
    ensures |r| == Pow2(n)
  {
    if n == 0 then [[]]
    else Prepend(false, SignVectors(n - 1)) + Prepend(true, SignVectors(n - 1))
  }

  lemma {:induction false} PrependAt(b: bool, vs: seq<seq<bool>>, i: nat)
    requires i < |vs|
    ensures Prepend(b, vs)[i] == [b] + vs[i]
  {
    if i > 0 { PrependAt(b, vs[1..], i - 1); }
  }

  /** Where a vector sits in the enumeration: read its signs as binary digits. */
  function IndexOf(v: seq<bool>): (i: nat)
    ensures i < Pow2(|v|)
  {
    if v == [] then 0 else (if v[0] then Pow2(|v| - 1) else 0) + IndexOf(v[1..])
  }

  /** The enumeration lists every vector of length `n`, exactly once. */
  lemma {:induction false} EveryVectorOnce(n: nat, v: seq<bool>, i: nat)
    requires i < Pow2(n)
    ensures |SignVectors(n)[i]| == n
    ensures |v| == n ==> (SignVectors(n)[i] == v <==> i == IndexOf(v))
    decreases n
  {
    if n > 0 {
      var half := SignVectors(n - 1);
      var b := i >= |half|;
      var k := if b then i - |half| else i;
      PrependAt(b, half, k);
      assert SignVectors(n)[i] == [b] + half[k];
      if |v| == n {
        EveryVectorOnce(n - 1, v[1..], k);
        assert v == [v[0]] + v[1..];
        assert ([b] + half[k])[1..] == half[k];
      } else {
        EveryVectorOnce(n - 1, [], k);
      }
    }
  }

  function CountIf<T>(vs: seq<T>, p: T -> bool): (c: nat)
    ensures c <= |vs|
  {
    if vs == [] then 0 else (if p(vs[0]) then 1 else 0) + CountIf(vs[1..], p)
  }

  lemma {:induction false} CountAppend<T>(a: seq<T>, b: seq<T>, p: T -> bool)
    ensures CountIf(a + b, p) == CountIf(a, p) + CountIf(b, p)
  {
    if a == [] {
      assert a + b == b;
    } else {
      CountAppend(a[1..], b, p);
      assert (a + b)[1..] == a[1..] + b;
    }
  }

  lemma {:induction false} CountMonotone<T>(vs: seq<T>, p: T -> bool, q: T -> bool)
    requires forall v :: v in vs && p(v) ==> q(v)
    ensures CountIf(vs, p) <= CountIf(vs, q)
  {
    if vs != [] { CountMonotone(vs[1..], p, q); }
  }

  function AtMost(ranks: seq<int>, w: int): seq<bool> -> bool {
    s => Dot(ranks, s) <= w
  }

  function Exactly(ranks: seq<int>, w: int): seq<bool> -> bool {
    s => Dot(ranks, s) == w
  }

  /** How many sign assignments have rank sum at most `w`. */
  function LeCount(ranks: seq<int>, w: int): (c: nat)
    ensures c <= Pow2(|ranks|)
  {
    CountIf(SignVectors(|ranks|), AtMost(ranks, w))
  }

  function EqCount(ranks: seq<int>, w: int): nat {
    CountIf(SignVectors(|ranks|), Exactly(ranks, w))
  }

  /** The same count by leaving each rank out or taking it. */
  function SubsetCount(ranks: seq<int>, w: int): nat {
    if ranks == [] then (if 0 <= w then 1 else 0)
    else SubsetCount(ranks[1..], w) + SubsetCount(ranks[1..], w - ranks[0])
  }

  lemma {:induction false} CountPrepend(b: bool, vs: seq<seq<bool>>, ranks: seq<int>, w: int)
    requires ranks != []
    ensures CountIf(Prepend(b, vs), AtMost(ranks, w)) ==
            CountIf(vs, AtMost(ranks[1..], if b then w - ranks[0] else w))
  {
    if vs != [] {
      CountPrepend(b, vs[1..], ranks, w);
      assert ([b] + vs[0])[1..] == vs[0];
    }
  }

  lemma {:induction false} LeCountIsSubsetCount(ranks: seq<int>, w: int)
    ensures LeCount(ranks, w) == SubsetCount(ranks, w)
    decreases |ranks|
  {
    if ranks == [] {
      assert SignVectors(0) == [[]];
      assert CountIf([[]][1..], AtMost(ranks, w)) == 0;
    } else {
      var half := SignVectors(|ranks| - 1);
      CountAppend(Prepend(false, half), Prepend(true, half), AtMost(ranks, w));
      CountPrepend(false, half, ranks, w);
      CountPrepend(true, half, ranks, w);
      LeCountIsSubsetCount(ranks[1..], w);
      LeCountIsSubsetCount(ranks[1..], w - ranks[0]);
    }
  }

  lemma {:induction false} SubsetCountSplit(ranks: seq<int>, i: nat, w: int)
    requires i < |ranks|
    ensures var rest := ranks[..i] + ranks[i + 1..];
      SubsetCount(ranks, w) == SubsetCount(rest, w) + SubsetCount(rest, w - ranks[i])
    decreases i
  {
    var rest := ranks[..i] + ranks[i + 1..];
    if i > 0 {
      SubsetCountSplit(ranks[1..], i - 1, w);
      SubsetCountSplit(ranks[1..], i - 1, w - ranks[0]);
      assert rest[1..] == ranks[1..][..i - 1] + ranks[1..][i..];
    } else {
      assert rest == ranks[1..];
    }
  }

  /** The count does not depend on the order of the ranks. */
  lemma {:induction false} SubsetCountPermutation(a: seq<int>, b: seq<int>, w: int)
    requires multiset(a) == multiset(b)
    ensures SubsetCount(a, w) == SubsetCount(b, w)
    decreases |a|
  {
    if a == [] {
      assert |multiset(b)| == |b|;
    } else {
      var i := SplitAtHead(a, b);
      var rest := b[..i] + b[i + 1..];
      SubsetCountPermutation(a[1..], rest, w);
      SubsetCountPermutation(a[1..], rest, w - a[0]);
      SubsetCountSplit(b, i, w);
    }
  }

  /** The complement bijection: rank sums at most `total - w` are complements of rank sums at least `w`. */
  lemma {:induction false} Complement(ranks: seq<int>, w: int)
    ensures SubsetCount(ranks, Sum(ranks) - w) + SubsetCount(ranks, w - 1) == Pow2(|ranks|)
    decreases |ranks|
  {
    if ranks != [] {
      Complement(ranks[1..], w);
      Complement(ranks[1..], w - ranks[0]);
    }
  }

  lemma {:induction false} EqCountIsStep(vs: seq<seq<bool>>, ranks: seq<int>, w: int)
    ensures CountIf(vs, Exactly(ranks, w)) == CountIf(vs, AtMost(ranks, w)) - CountIf(vs, AtMost(ranks, w - 1))
  {
    if vs != [] { EqCountIsStep(vs[1..], ranks, w); }
  }

  ghost predicate AllPositive(ranks: seq<int>) {
    forall i :: 0 <= i < |ranks| ==> ranks[i] > 0
  }

  /** The empty assignment is always counted; it is the only one exactly below every rank. */
  lemma {:induction false} SubsetCountAtLeastOne(ranks: seq<int>, w: int)
    requires AllPositive(ranks) && w >= 0
    ensures SubsetCount(ranks, w) >= 1
    ensures SubsetCount(ranks, w) == 1 <==> forall i :: 0 <= i < |ranks| ==> w < ranks[i]
    decreases |ranks|
  {
    if ranks != [] {
      SubsetCountAtLeastOne(ranks[1..], w);
      if w >= ranks[0] {
        SubsetCountAtLeastOne(ranks[1..], w - ranks[0]);
      } else {
        SubsetCountNegative(ranks[1..], w - ranks[0]);
        assert forall i :: 0 < i < |ranks| ==> ranks[i] == ranks[1..][i - 1];
        assert forall i :: 0 <= i < |ranks[1..]| ==> ranks[1..][i] == ranks[i + 1];
      }
    }
  }

  lemma {:induction false} SubsetCountNegative(ranks: seq<int>, w: int)
    requires AllPositive(ranks) && w < 0
    ensures SubsetCount(ranks, w) == 0
    decreases |ranks|
  {
    if ranks != [] {
      SubsetCountNegative(ranks[1..], w);
      SubsetCountNegative(ranks[1..], w - ranks[0]);
    }
  }

  /** A vector whose tail count is at most `bound`. */
  function TailWithin(ranks: seq<int>, bound: real): seq<bool> -> bool {
    s => LeCount(ranks, Dot(ranks, s)) as real <= bound
  }

  /** If any listed vector is in, one of them has the largest rank sum of those that are. */
  lemma {:induction false} LargestWithin(vs: seq<seq<bool>>, ranks: seq<int>, bound: real) returns (top: seq<bool>)
    requires CountIf(vs, TailWithin(ranks, bound)) > 0
    ensures top in vs && TailWithin(ranks, bound)(top)
    ensures forall s :: s in vs && TailWithin(ranks, bound)(s) ==> Dot(ranks, s) <= Dot(ranks, top)
    decreases |vs|
  {
    var p := TailWithin(ranks, bound);
    if CountIf(vs[1..], p) > 0 {
      top := LargestWithin(vs[1..], ranks, bound);
      if p(vs[0]) && Dot(ranks, vs[0]) > Dot(ranks, top) { top := vs[0]; }
    } else {
      top := vs[0];
      NoneCounted(vs[1..], p);
    }
    assert forall s :: s in vs <==> s == vs[0] || s in vs[1..];
  }

  lemma {:induction false} NoneCounted<T>(vs: seq<T>, p: T -> bool)
    requires CountIf(vs, p) == 0
    ensures forall v :: v in vs ==> !p(v)
  {
    if vs != [] { NoneCounted(vs[1..], p); }
  }

  /** At most `bound` of the sign assignments have a tail count of at most `bound`. */
  lemma {:induction false} TailCountsAreValid(ranks: seq<int>, bound: real)
    requires bound >= 0.0
    ensures CountIf(SignVectors(|ranks|), TailWithin(ranks, bound)) as real <= bound
  {
    var vs := SignVectors(|ranks|);
    var p := TailWithin(ranks, bound);
    if CountIf(vs, p) > 0 {
      var top := LargestWithin(vs, ranks, bound);
      CountMonotone(vs, p, AtMost(ranks, Dot(ranks, top)));
    }
  }

  lemma {:induction false} VectorIsListed(v: seq<bool>)
    ensures v in SignVectors(|v|)
  {
    EveryVectorOnce(|v|, v, IndexOf(v));
  }

  lemma VectorLengths(n: nat, v: seq<bool>)
    requires v in SignVectors(n)
    ensures |v| == n
  {
    var i :| 0 <= i < |SignVectors(n)| && SignVectors(n)[i] == v;
    EveryVectorOnce(n, v, i);
  }

  lemma {:induction false} CountStrict<T>(vs: seq<T>, p: T -> bool, q: T -> bool, v: T)
    requires forall x :: x in vs && p(x) ==> q(x)
    requires v in vs && q(v) && !p(v)
    ensures CountIf(vs, p) < CountIf(vs, q)
  {
    if v == vs[0] {
      CountMonotone(vs[1..], p, q);
    } else {
      CountStrict(vs[1..], p, q, v);
    }
  }

  lemma {:induction false} CountSame<T>(vs: seq<T>, p: T -> bool, q: T -> bool)
    requires forall v :: v in vs ==> p(v) == q(v)
    ensures CountIf(vs, p) == CountIf(vs, q)
  {
    if vs != [] { CountSame(vs[1..], p, q); }
  }

  /** Tail counts order the assignments just as their rank sums do. */
  lemma TailCountOrder(ranks: seq<int>, s: seq<bool>, t: seq<bool>)
    requires |s| == |ranks|
    ensures LeCount(ranks, Dot(ranks, s)) <= LeCount(ranks, Dot(ranks, t)) <==> Dot(ranks, s) <= Dot(ranks, t)
  {
    var vs, a, b := SignVectors(|ranks|), Dot(ranks, s), Dot(ranks, t);
    if a <= b {
      CountMonotone(vs, AtMost(ranks, a), AtMost(ranks, b));
    } else {
      VectorIsListed(s);
      CountStrict(vs, AtMost(ranks, b), AtMost(ranks, a), s);
    }
  }

  /** Exactly as many assignments as `s0`'s tail counts have a tail count no larger than it. */
  lemma {:induction false} TailCountsAreExact(ranks: seq<int>, s0: seq<bool>)
    requires |s0| == |ranks|
    ensures var c := LeCount(ranks, Dot(ranks, s0));
      CountIf(SignVectors(|ranks|), TailWithin(ranks, c as real)) == c
  {
    var vs, c := SignVectors(|ranks|), LeCount(ranks, Dot(ranks, s0));
    forall s | s in vs ensures TailWithin(ranks, c as real)(s) == AtMost(ranks, Dot(ranks, s0))(s) {
      VectorLengths(|ranks|, s);
      TailCountOrder(ranks, s, s0);
    }
    CountSame(vs, TailWithin(ranks, c as real), AtMost(ranks, Dot(ranks, s0)));
  }
}
