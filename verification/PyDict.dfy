/** A Python `dict`: a map together with the order its keys were first inserted. */
module PyDict {

  datatype Option<+T> = None | Some(value: T)

  ghost predicate NoDuplicates<T>(s: seq<T>) {
    forall i, j :: 0 <= i < j < |s| ==> s[i] != s[j]
  }

  function Without<T(==, !new)>(s: seq<T>, x: T): (r: seq<T>)
    ensures forall y :: y in r <==> y in s && y != x
    ensures NoDuplicates(s) ==> NoDuplicates(r)
  {
    if s == [] then []
    else if s[0] == x then Without(s[1..], x)
    else
      var rest := Without(s[1..], x);
      assert NoDuplicates(s) ==> NoDuplicates(rest) && s[0] !in rest by {
        if NoDuplicates(s) { TailNoDuplicates(s); }
      }
      [s[0]] + rest
  }

  lemma TailNoDuplicates<T>(s: seq<T>)
    requires s != [] && NoDuplicates(s)
    ensures NoDuplicates(s[1..]) && s[0] !in s[1..]
  {
    forall i, j | 0 <= i < j < |s[1..]| ensures s[1..][i] != s[1..][j] {
      assert s[i + 1] != s[j + 1];
    }
  }

  /** In a duplicate-free list, an entry is found before or after a cut exactly by its position. */
  lemma PositionDecides<T(!new)>(s: seq<T>, j: nat, m: nat)
    requires NoDuplicates(s) && j < |s| && m <= |s|
    ensures s[j] in s[..m] <==> j < m
    ensures s[j] in s[m..] <==> m <= j
  {
    if j < m {
      assert s[..m][j] == s[j];
    } else {
      assert s[m..][j - m] == s[j];
    }
  }

  function Elements<T(!new)>(s: seq<T>): (r: set<T>)
    ensures forall x :: x in r <==> x in s
  {
    set x | x in s
  }

  lemma {:induction false} WithoutAbsent<T(!new)>(s: seq<T>, x: T)
    requires x !in s
    ensures Without(s, x) == s
  {
    if s != [] { WithoutAbsent(s[1..], x); }
  }

  lemma WithoutHead<T(!new)>(s: seq<T>, x: T)
    requires s != []
    ensures Without(s, x) == (if s[0] == x then [] else [s[0]]) + Without(s[1..], x)
  {
  }

  /** Taking an entry out of a duplicate-free list leaves the others in their order. */
  lemma {:induction false} WithoutKeepsOrder<T(!new)>(s: seq<T>, i: nat)
    requires NoDuplicates(s) && i < |s|
    ensures Without(s, s[i]) == s[..i] + s[i + 1..]
  {
    hide Without, NoDuplicates;
    TailNoDuplicates(s);
    WithoutHead(s, s[i]);
    var tail := s[1..];
    if i > 0 {
      WithoutKeepsOrder(tail, i - 1);
      assert tail[i - 1] == s[i] && s[i] in tail;
      assert s[..i] == [s[0]] + tail[..i - 1] && tail[i..] == s[i + 1..];
    } else {
      WithoutAbsent(tail, s[0]);
    }
  }

  datatype Dict<K(==, !new), V> = Dict(keys: seq<K>, at: map<K, V>) {

    ghost predicate Valid() {
      && NoDuplicates(keys)
      && forall k :: k in keys <==> k in at
    }

    /** `d[k] = v`: a new key goes to the end, a known key keeps its place. */
    function Put(k: K, v: V): (d: Dict<K, V>)
      ensures Valid() ==> d.Valid()
      ensures k in at ==> d.keys == keys
      ensures k !in at ==> d.keys == keys + [k]
    {
      Dict(if k in at then keys else keys + [k], at[k := v])
    }

    /** `del d[k]`. */
    function Remove(k: K): (d: Dict<K, V>)
      ensures Valid() ==> d.Valid()
    {
      Dict(Without(keys, k), at - {k})
    }
  }

  /** Dicts with the same key order and the same entries are the same dict. */
  lemma SameDict<K(!new), V>(a: Dict<K, V>, b: Dict<K, V>)
    requires a.keys == b.keys && a.at.Keys == b.at.Keys
    requires forall k :: k in a.at ==> a.at[k] == b.at[k]
    ensures a == b
  {
    assert a.at == b.at;
  }

  function Empty<K(!new), V>(): (d: Dict<K, V>)
    ensures d.Valid() && d.keys == []
  {
    Dict([], map[])
  }
}
