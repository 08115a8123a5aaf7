/** The median, by what it computes: where it stands among the values, and how it moves with them. */
module Medians {
  import opened Sorting
  import opened Sums
  import opened Ranks

  /** `_median`. */
  function Median(xs: seq<real>): real
    requires xs != []
  {
    var s := Sorted(xs);
    var mid := |s| / 2;
    if |s| % 2 == 1 then s[mid] else (s[mid - 1] + s[mid]) / 2.0
  }

  /** Order does not matter. */
  lemma {:induction false} MedianPermutation(a: seq<real>, b: seq<real>)
    requires a != [] && multiset(a) == multiset(b)
    ensures b != [] && Median(a) == Median(b)
  {
    assert |multiset(a)| == |a| && |multiset(b)| == |b|;
    SortedPermutation(a, b);
  }

  lemma {:induction false} AscendingIsSorted(xs: seq<real>, s: seq<real>)
    requires multiset(s) == multiset(xs) && Ascending(s)
    ensures Sorted(xs) == s
  {
    assert SortedBy(RealLe, s);
    assert SortedBy(RealLe, Sorted(xs)) by { hide Sorted; }
    SortedUnique(Sorted(xs), s, RealLe);
  }

  function Shifted(xs: seq<real>, c: real): (r: seq<real>)
    ensures |r| == |xs|
  {
    Map((x: real) => x + c, xs)
  }

  lemma {:induction false} ShiftedAt(xs: seq<real>, c: real, i: nat)
    requires i < |xs|
    ensures Shifted(xs, c)[i] == xs[i] + c
  {
    MapAt((x: real) => x + c, xs, i);
  }

  lemma {:induction false} ShiftedPermutation(a: seq<real>, b: seq<real>, c: real)
    requires multiset(a) == multiset(b)
    ensures multiset(Shifted(a, c)) == multiset(Shifted(b, c))
  {
    MapPermutation((x: real) => x + c, a, b);
  }

  lemma {:induction false} ShiftAscends(s: seq<real>, c: real)
    requires Ascending(s)
    ensures Ascending(Shifted(s, c))
    ensures forall i :: 0 <= i < |s| ==> Shifted(s, c)[i] == s[i] + c
  {
    forall i | 0 <= i < |s| ensures Shifted(s, c)[i] == s[i] + c { ShiftedAt(s, c, i); }
  }

  /** Adding a constant to every value adds it to the median. */
  lemma {:induction false} MedianShift(xs: seq<real>, c: real)
    requires xs != []
    ensures Median(Shifted(xs, c)) == Median(xs) + c
  {
    hide Shifted, Sorted;
    var s := Sorted(xs);
    ShiftAscends(s, c);
    ShiftedPermutation(s, xs, c);
    AscendingIsSorted(Shifted(xs, c), Shifted(s, c));
    hide Ascending;
  }

  function Mirrored(xs: seq<real>): (r: seq<real>)
    ensures |r| == |xs|
  {
    Map((x: real) => -x, xs)
  }

  function Reversed(xs: seq<real>): (r: seq<real>)
    ensures |r| == |xs| && multiset(r) == multiset(xs)
    ensures forall i :: 0 <= i < |r| ==> r[i] == xs[|xs| - 1 - i]
  {
    if xs == [] then []
    else
      assert xs == [xs[0]] + xs[1..];
      Reversed(xs[1..]) + [xs[0]]
  }

  lemma {:induction false} MirroredAt(xs: seq<real>, i: nat)
    requires i < |xs|
    ensures Mirrored(xs)[i] == -xs[i]
  {
    MapAt((x: real) => -x, xs, i);
  }

  lemma {:induction false} MirroredPermutation(a: seq<real>, b: seq<real>)
    requires multiset(a) == multiset(b)
    ensures multiset(Mirrored(a)) == multiset(Mirrored(b))
  {
    MapPermutation((x: real) => -x, a, b);
  }

  lemma {:induction false} MirrorReverses(s: seq<real>)
    requires Ascending(s)
    ensures Ascending(Reversed(Mirrored(s)))
    ensures forall i :: 0 <= i < |s| ==> Reversed(Mirrored(s))[i] == -s[|s| - 1 - i]
  {
    var r := Reversed(Mirrored(s));
    forall i | 0 <= i < |s| ensures r[i] == -s[|s| - 1 - i] { MirroredAt(s, |s| - 1 - i); }
    hide Mirrored, Reversed;
    forall a, b | 0 <= a <= b < |s| ensures r[a] <= r[b] {
      assert s[|s| - 1 - b] <= s[|s| - 1 - a];
    }
  }

  /** Negating every value negates the median: neither middle value is preferred. */
  lemma {:induction false} MedianMirror(xs: seq<real>)
    requires xs != []
    ensures Median(Mirrored(xs)) == -Median(xs)
  {
    hide Mirrored, Reversed, Sorted;
    var s := Sorted(xs);
    MirrorReverses(s);
    MirroredPermutation(s, xs);
    AscendingIsSorted(Mirrored(xs), Reversed(Mirrored(s)));
    hide Ascending;
  }

  lemma {:induction false} NoneLess(ms: seq<real>, x: real)
    requires forall k :: 0 <= k < |ms| ==> ms[k] >= x
    ensures Less(ms, x) == 0
  {
    if ms != [] { NoneLess(ms[1..], x); }
  }

  lemma {:induction false} AllAtOrBelow(ms: seq<real>, x: real)
    requires forall k :: 0 <= k < |ms| ==> ms[k] <= x
    ensures Less(ms, x) + Equal(ms, x) == |ms|
  {
    if ms != [] { AllAtOrBelow(ms[1..], x); }
  }

  lemma {:induction false} LessAtMost(ms: seq<real>, x: real)
    ensures Less(ms, x) <= |ms|
  {
    if ms != [] { LessAtMost(ms[1..], x); }
  }

  /** Entries from `k` on not below `x`, the first `j` not above it: at most `k` below, at least `j` at or below. */
  lemma {:induction false} CountsAround(s: seq<real>, x: real, j: nat, k: nat)
    requires j <= |s| && k <= |s|
    requires forall i :: 0 <= i < j ==> s[i] <= x
    requires forall i :: k <= i < |s| ==> s[i] >= x
    ensures Less(s, x) <= k && Less(s, x) + Equal(s, x) >= j
  {
    assert s == s[..k] + s[k..] && s == s[..j] + s[j..];
    CountsAppend(s[..k], s[k..], x);
    CountsAppend(s[..j], s[j..], x);
    NoneLess(s[k..], x);
    LessAtMost(s[..k], x);
    AllAtOrBelow(s[..j], x);
  }

  /** At least half the values are at or below the median, and at least half at or above it. */
  lemma {:induction false} MedianHalves(xs: seq<real>)
    requires xs != []
    ensures 2 * (Less(xs, Median(xs)) + Equal(xs, Median(xs))) >= |xs|
    ensures 2 * (|xs| - Less(xs, Median(xs))) >= |xs|
  {
    var s, m := Sorted(xs), Median(xs);
    var mid := |s| / 2;
    RankPermutation(xs, s, m);
    if |s| % 2 == 1 {
      CountsAround(s, m, mid + 1, mid);
    } else {
      assert s[mid - 1] <= m <= s[mid];
      CountsAround(s, m, mid, mid);
    }
  }

  function Repeat(x: real, n: nat): (s: seq<real>)
    ensures |s| == n && forall i :: 0 <= i < n ==> s[i] == x
  {
    seq(n, _ => x)
  }

  /** One outlier among at least two equal values does not move the median. */
  lemma {:induction false} MedianOfOneOutlier(xs: seq<real>, h: nat, g: real)
    requires |xs| >= 3 && h < |xs| && xs[h] >= g
    requires forall i :: 0 <= i < |xs| && i != h ==> xs[i] == g
    ensures Median(xs) == g
  {
    var s := Repeat(g, |xs| - 1) + [xs[h]];
    TakenOut(xs, h);
    assert xs[..h] + xs[h + 1..] == Repeat(g, |xs| - 1);
    assert multiset(s) == multiset(Repeat(g, |xs| - 1)) + multiset{xs[h]};
    AscendingIsSorted(xs, s);
  }
}
