/** Sums over sequences, and what a permutation leaves unchanged. */
module Sums {

  function Sum(xs: seq<int>): int {
    if xs == [] then 0 else xs[0] + Sum(xs[1..])
  }

  function Map<T, U>(f: T -> U, xs: seq<T>): (r: seq<U>)
    ensures |r| == |xs|
  {
    if xs == [] then [] else [f(xs[0])] + Map(f, xs[1..])
  }

  lemma {:induction false} MapAt<T, U>(f: T -> U, xs: seq<T>, i: nat)
    requires i < |xs|
    ensures Map(f, xs)[i] == f(xs[i])
  {
    if i > 0 { MapAt(f, xs[1..], i - 1); }
  }

  lemma HeadOut<T>(x: T, s: seq<T>)
    ensures multiset([x] + s) == multiset{x} + multiset(s)
  {
  }

  lemma TakenOut<T>(s: seq<T>, i: nat)
    requires i < |s|
    ensures s == s[..i] + [s[i]] + s[i + 1..]
    ensures multiset(s) == multiset{s[i]} + multiset(s[..i] + s[i + 1..])
  {
    assert s == s[..i] + ([s[i]] + s[i + 1..]);
  }

  lemma FindHead<T>(a: seq<T>, b: seq<T>) returns (i: nat)
    requires a != [] && multiset(a) == multiset(b)
    ensures i < |b| && b[i] == a[0]
  {
    assert a[0] in multiset(b);
    i :| 0 <= i < |b| && b[i] == a[0];
  }

  lemma SameRest<T>(x: T, a: multiset<T>, b: multiset<T>)
    requires multiset{x} + a == multiset{x} + b
    ensures a == b
  {
    assert a == multiset{x} + a - multiset{x};
    assert b == multiset{x} + b - multiset{x};
  }

  /** `b` with its occurrence of `a`'s head taken out, ready for induction on permutations. */
  lemma SplitAtHead<T>(a: seq<T>, b: seq<T>) returns (i: nat)
    requires a != [] && multiset(a) == multiset(b)
    ensures i < |b| && b[i] == a[0] && b == b[..i] + [a[0]] + b[i + 1..]
    ensures multiset(a[1..]) == multiset(b[..i] + b[i + 1..])
  {
    i := FindHead(a, b);
    TakenOut(a, 0);
    TakenOut(b, i);
    assert a[..0] + a[1..] == a[1..];
    SameRest(a[0], multiset(a[1..]), multiset(b[..i] + b[i + 1..]));
  }

  lemma {:induction false} MapPermutation<T, U>(f: T -> U, a: seq<T>, b: seq<T>)
    requires multiset(a) == multiset(b)
    ensures multiset(Map(f, a)) == multiset(Map(f, b))
    decreases |a|
  {
    if a == [] {
      assert |multiset(b)| == |b|;
    } else {
      var i := SplitAtHead(a, b);
      MapPermutation(f, a[1..], b[..i] + b[i + 1..]);
      MapHeadOut(f, b, i);
    }
  }

  lemma {:induction false} MapHeadOut<T, U>(f: T -> U, b: seq<T>, i: nat)
    requires i < |b|
    ensures multiset(Map(f, b)) == multiset{f(b[i])} + multiset(Map(f, b[..i] + b[i + 1..]))
  {
    var rest := b[..i] + b[i + 1..];
    if i == 0 {
      assert rest == b[1..];
    } else {
      MapHeadOut(f, b[1..], i - 1);
      assert rest[1..] == b[1..][..i - 1] + b[1..][i..];
      assert Map(f, b) == [f(b[0])] + Map(f, b[1..]);
      assert Map(f, rest) == [f(b[0])] + Map(f, rest[1..]);
    }
  }

  lemma {:induction false} SumAppend(a: seq<int>, b: seq<int>)
    ensures Sum(a + b) == Sum(a) + Sum(b)
  {
    if a == [] {
      assert a + b == b;
    } else {
      SumAppend(a[1..], b);
      assert (a + b)[1..] == a[1..] + b;
    }
  }
}
