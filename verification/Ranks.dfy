/** Midranks of magnitudes, doubled so that they are integers. */
module Ranks {
  import opened PyDict
  import opened Sums
  import opened Sorting

  /** How many magnitudes are strictly smaller than `x`. */
  function Less(ms: seq<real>, x: real): nat {
    if ms == [] then 0 else (if ms[0] < x then 1 else 0) + Less(ms[1..], x)
  }

  /** How many magnitudes equal `x`. */
  function Equal(ms: seq<real>, x: real): nat {
    if ms == [] then 0 else (if ms[0] == x then 1 else 0) + Equal(ms[1..], x)
  }

  /** Twice the midrank of `x`: (number smaller) + (number equal + 1) / 2, doubled. */
  function Rank2(ms: seq<real>, x: real): int {
    2 * Less(ms, x) + Equal(ms, x) + 1
  }

  lemma {:induction false} CountsAppend(a: seq<real>, b: seq<real>, x: real)
    ensures Less(a + b, x) == Less(a, x) + Less(b, x)
    ensures Equal(a + b, x) == Equal(a, x) + Equal(b, x)
  {
    if a == [] {
      assert a + b == b;
    } else {
      CountsAppend(a[1..], b, x);
      assert (a + b)[1..] == a[1..] + b;
    }
  }

  lemma {:induction false} CountsSplit(ms: seq<real>, i: nat, x: real)
    requires i < |ms|
    ensures Less(ms, x) == (if ms[i] < x then 1 else 0) + Less(ms[..i] + ms[i + 1..], x)
    ensures Equal(ms, x) == (if ms[i] == x then 1 else 0) + Equal(ms[..i] + ms[i + 1..], x)
  {
    if i > 0 {
      CountsSplit(ms[1..], i - 1, x);
      assert (ms[..i] + ms[i + 1..])[1..] == ms[1..][..i - 1] + ms[1..][i..];
    } else {
      assert ms[..0] + ms[1..] == ms[1..];
    }
  }

  /** A rank depends on the magnitudes only as a collection. */
  lemma {:induction false} RankPermutation(a: seq<real>, b: seq<real>, x: real)
    requires multiset(a) == multiset(b)
    ensures Less(a, x) == Less(b, x) && Equal(a, x) == Equal(b, x)
    ensures Rank2(a, x) == Rank2(b, x)
    decreases |a|
  {
    if a == [] {
      assert |multiset(b)| == |b|;
    } else {
      var i := SplitAtHead(a, b);
      RankPermutation(a[1..], b[..i] + b[i + 1..], x);
      CountsSplit(b, i, x);
    }
  }

  /** The doubled ranks of `xs` among `ms`. */
  function RankEach(ms: seq<real>, xs: seq<real>): (r: seq<int>)
    ensures |r| == |xs|
  {
    if xs == [] then [] else [Rank2(ms, xs[0])] + RankEach(ms, xs[1..])
  }

  lemma {:induction false} RankEachAt(ms: seq<real>, xs: seq<real>, i: nat)
    requires i < |xs|
    ensures RankEach(ms, xs)[i] == Rank2(ms, xs[i])
  {
    if i > 0 { RankEachAt(ms, xs[1..], i - 1); }
  }

  lemma {:induction false} RankEachSame(a: seq<real>, b: seq<real>, xs: seq<real>)
    requires multiset(a) == multiset(b)
    ensures RankEach(a, xs) == RankEach(b, xs)
  {
    if xs != [] {
      RankPermutation(a, b, xs[0]);
      RankEachSame(a, b, xs[1..]);
    }
  }

  lemma {:induction false} RankEachHead(ms: seq<real>, xs: seq<real>)
    requires xs != []
    ensures multiset(RankEach(ms, xs)) == multiset{Rank2(ms, xs[0])} + multiset(RankEach(ms, xs[1..]))
  {
    hide Rank2;
    HeadOut(Rank2(ms, xs[0]), RankEach(ms, xs[1..]));
  }

  lemma {:induction false} RankEachSplit(ms: seq<real>, xs: seq<real>, i: nat)
    requires i < |xs|
    ensures multiset(RankEach(ms, xs)) == multiset{Rank2(ms, xs[i])} + multiset(RankEach(ms, xs[..i] + xs[i + 1..]))
  {
    hide Rank2, RankEach;
    var rest := xs[..i] + xs[i + 1..];
    RankEachHead(ms, xs);
    if i > 0 {
      RankEachHead(ms, rest);
      RankEachSplit(ms, xs[1..], i - 1);
      assert rest[1..] == xs[1..][..i - 1] + xs[1..][i..];
    } else {
      assert rest == xs[1..];
    }
  }

  lemma {:induction false} RankEachPermutation(ms: seq<real>, a: seq<real>, b: seq<real>)
    requires multiset(a) == multiset(b)
    ensures multiset(RankEach(ms, a)) == multiset(RankEach(ms, b))
    decreases |a|
  {
    if a == [] {
      assert |multiset(b)| == |b|;
    } else {
      var i := SplitAtHead(a, b);
      RankEachPermutation(ms, a[1..], b[..i] + b[i + 1..]);
      RankEachSplit(ms, b, i);
    }
  }

  /** Adding one magnitude raises each old rank by what it beats, and the newcomer's rank makes up the rest. */
  lemma {:induction false} RankSumGrows(ms: seq<real>, xs: seq<real>, y: real)
    ensures Sum(RankEach(ms + [y], xs)) == Sum(RankEach(ms, xs)) + 2 * |xs| - 2 * Less(xs, y) - Equal(xs, y)
    decreases |xs|
  {
    if xs != [] {
      CountsAppend(ms, [y], xs[0]);
      assert [y][1..] == [];
      RankSumGrows(ms, xs[1..], y);
    }
  }

  lemma {:induction false} RankEachAppend(ms: seq<real>, a: seq<real>, b: seq<real>)
    ensures RankEach(ms, a + b) == RankEach(ms, a) + RankEach(ms, b)
  {
    hide Rank2;
    if a == [] {
      assert a + b == b;
    } else {
      RankEachAppend(ms, a[1..], b);
      assert (a + b)[1..] == a[1..] + b;
    }
  }

  /** The midranks always sum to n(n + 1)/2, ties or not. */
  lemma {:induction false} RankSum(ms: seq<real>)
    ensures Sum(RankEach(ms, ms)) == |ms| * (|ms| + 1)
    decreases |ms|
  {
    if ms != [] {
      var n := |ms| - 1;
      var before, y := ms[..n], ms[n];
      assert ms == before + [y];
      RankSum(before);
      RankSumGrows(before, before, y);
      RankEachAppend(ms, before, [y]);
      SumAppend(RankEach(ms, before), RankEach(ms, [y]));
      CountsAppend(before, [y], y);
      assert [y][1..] == [];
      assert Sum(RankEach(ms, [y])) == Rank2(ms, y);
      assert n * (n + 1) + 2 * n + 2 == (n + 1) * (n + 2);
    }
  }

  lemma {:induction false} CountsBelow(ms: seq<real>, x: real)
    requires forall k :: 0 <= k < |ms| ==> ms[k] < x
    ensures Less(ms, x) == |ms| && Equal(ms, x) == 0
  {
    if ms != [] { CountsBelow(ms[1..], x); }
  }

  lemma {:induction false} CountsTied(ms: seq<real>, x: real)
    requires forall k :: 0 <= k < |ms| ==> ms[k] == x
    ensures Less(ms, x) == 0 && Equal(ms, x) == |ms|
  {
    if ms != [] { CountsTied(ms[1..], x); }
  }

  lemma {:induction false} CountsAbove(ms: seq<real>, x: real)
    requires forall k :: 0 <= k < |ms| ==> ms[k] > x
    ensures Less(ms, x) == 0 && Equal(ms, x) == 0
  {
    if ms != [] { CountsAbove(ms[1..], x); }
  }

  lemma CountsInThree(lo: seq<real>, mid: seq<real>, hi: seq<real>, x: real)
    requires forall k :: 0 <= k < |lo| ==> lo[k] < x
    requires forall k :: 0 <= k < |mid| ==> mid[k] == x
    requires forall k :: 0 <= k < |hi| ==> hi[k] > x
    ensures Less(lo + (mid + hi), x) == |lo| && Equal(lo + (mid + hi), x) == |mid|
  {
    CountsAppend(lo, mid + hi, x);
    CountsAppend(mid, hi, x);
    CountsBelow(lo, x);
    CountsTied(mid, x);
    CountsAbove(hi, x);
  }

  lemma AscendingAt(ms: seq<real>, a: nat, b: nat)
    requires Ascending(ms) && a <= b < |ms|
    ensures ms[a] <= ms[b]
  {
  }

  /** A tie group `i..j` of an ascending list: its magnitude and its boundaries. */
  ghost predicate TieGroup(ms: seq<real>, i: nat, j: nat) {
    && i <= j < |ms| && ms[i] == ms[j]
    && (i > 0 ==> ms[i - 1] != ms[i])
    && (j + 1 < |ms| ==> ms[j + 1] != ms[i])
  }

  /** In an ascending list, every member of the tie group `i..j` has doubled rank `i + j + 2`. */
  lemma TieGroupRank(ms: seq<real>, i: nat, j: nat)
    requires Ascending(ms) && TieGroup(ms, i, j)
    ensures forall k :: i <= k <= j ==> ms[k] == ms[i]
    ensures Rank2(ms, ms[i]) == i + j + 2
  {
    hide Ascending;
    var x := ms[i];
    var lo, mid, hi := ms[..i], ms[i..j + 1], ms[j + 1..];
    forall k | 0 <= k < |lo| ensures lo[k] < x {
      AscendingAt(ms, k, i - 1);
      AscendingAt(ms, i - 1, i);
    }
    forall k | i <= k <= j ensures ms[k] == x {
      AscendingAt(ms, i, k);
      AscendingAt(ms, k, j);
    }
    forall k | 0 <= k < |hi| ensures hi[k] > x {
      AscendingAt(ms, j, j + 1);
      AscendingAt(ms, j + 1, j + 1 + k);
    }
    CountsInThree(lo, mid, hi, x);
    assert ms == lo + (mid + hi);
  }
}
