/** The registry `kv_pool` as a value: chunk key -> ordered list of holders, and the three operations on it. */
module KvPool {
  import opened PyDict

  type Key = int

  datatype Meta = Meta(instanceId: string, workerId: int, location: string)

  type Pool = Dict<Key, seq<Meta>>

  /** What an eviction or a deregistration takes out of a holder list. */
  datatype Removal = Entry(meta: Meta) | Worker(instanceId: string, workerId: int)

  predicate Hits(r: Removal, m: Meta) {
    match r
    case Entry(e) => m == e
    case Worker(i, w) => m.instanceId == i && m.workerId == w
  }

  function Drop(ms: seq<Meta>, r: Removal): (rest: seq<Meta>)
    ensures forall m :: m in rest <==> m in ms && !Hits(r, m)
  {
    if ms == [] then []
    else if Hits(r, ms[0]) then Drop(ms[1..], r)
    else
      var rest := Drop(ms[1..], r);
      [ms[0]] + rest
  }

  function Holders(pool: Pool, key: Key): seq<Meta> {
    if key in pool.at then pool.at[key] else []
  }

  /** Every key is mapped, and to a nonempty list. */
  ghost predicate Wellformed(pool: Pool) {
    pool.Valid() && forall k :: k in pool.at ==> pool.at[k] != []
  }

  function Admitted(pool: Pool, key: Key, m: Meta): Pool {
    pool.Put(key, Holders(pool, key) + [m])
  }

  function Evicted(pool: Pool, key: Key, m: Meta): Pool {
    if key !in pool.at then pool
    else
      var remaining := Drop(pool.at[key], Entry(m));
      if remaining == [] then pool.Remove(key) else pool.Put(key, remaining)
  }

  /** Position of the first key, in dict order from `i`, whose list `r` empties; `|keys|` if there is none. */
  function FirstEmptied(pool: Pool, r: Removal, i: nat): (f: nat)
    requires i <= |pool.keys|
    ensures i <= f <= |pool.keys|
    ensures forall j :: i <= j < f ==> Drop(Holders(pool, pool.keys[j]), r) != []
    ensures f < |pool.keys| ==> Drop(Holders(pool, pool.keys[f]), r) == []
    decreases |pool.keys| - i
  {
    if i == |pool.keys| || Drop(Holders(pool, pool.keys[i]), r) == [] then i
    else FirstEmptied(pool, r, i + 1)
  }

  /** The pool's lists after `r` has been applied to its first `n` keys. */
  function Filtered(pool: Pool, r: Removal, n: nat): (at: map<Key, seq<Meta>>)
    requires n <= |pool.keys|
    ensures at.Keys == pool.at.Keys
  {
    map k | k in pool.at :: if k in pool.keys[..n] then Drop(pool.at[k], r) else pool.at[k]
  }

  lemma FilteredStep(pool: Pool, r: Removal, n: nat)
    requires pool.Valid() && n < |pool.keys|
    ensures pool.keys[n] in pool.at && Filtered(pool, r, n)[pool.keys[n]] == pool.at[pool.keys[n]]
    ensures Filtered(pool, r, n + 1) == Filtered(pool, r, n)[pool.keys[n] := Drop(pool.at[pool.keys[n]], r)]
  {
    var key := pool.keys[n];
    assert key !in pool.keys[..n];
    assert pool.keys[..n + 1] == pool.keys[..n] + [key];
  }

  /**
   * `deregister` as CPython runs it. Deleting a key while iterating the dict makes the next iteration
   * step raise, so the loop filters the keys before the first emptied one, deletes that one, and stops.
   */
  function Deregistered(pool: Pool, r: Removal): Pool {
    var f := FirstEmptied(pool, r, 0);
    if f == |pool.keys| then Dict(pool.keys, Filtered(pool, r, f))
    else Dict(pool.keys, Filtered(pool, r, f)).Remove(pool.keys[f])
  }

  lemma RemoveAfterPut(at: map<Key, seq<Meta>>, key: Key, ms: seq<Meta>)
    ensures at[key := ms] - {key} == at - {key}
  {
  }

  lemma {:induction false} FilteredThenRemoved(pool: Pool, r: Removal)
    requires pool.Valid() && FirstEmptied(pool, r, 0) < |pool.keys|
    ensures var f := FirstEmptied(pool, r, 0);
      Dict(pool.keys, Filtered(pool, r, f + 1)).Remove(pool.keys[f]) == Deregistered(pool, r)
  {
    hide Drop, Filtered, Without, NoDuplicates;
    var f := FirstEmptied(pool, r, 0);
    FilteredStep(pool, r, f);
    RemoveAfterPut(Filtered(pool, r, f), pool.keys[f], Drop(pool.at[pool.keys[f]], r));
  }

  /** One step of the loop: the first emptied key is deleted and the loop is over; any other is filtered and passed. */
  lemma {:induction false} DeregisterLoopStep(pool: Pool, r: Removal, i: nat)
    requires pool.Valid() && i < |pool.keys| && i <= FirstEmptied(pool, r, 0)
    ensures var now := Dict(pool.keys, Filtered(pool, r, i));
      var key := pool.keys[i];
      && key in now.at
      && now.Put(key, Drop(now.at[key], r)) == Dict(pool.keys, Filtered(pool, r, i + 1))
      && (Drop(now.at[key], r) == [] <==> i == FirstEmptied(pool, r, 0))
      && (Drop(now.at[key], r) == [] ==>
            Dict(pool.keys, Filtered(pool, r, i + 1)).Remove(key) == Deregistered(pool, r))
  {
    hide Drop, Filtered;
    FilteredStep(pool, r, i);
    if i == FirstEmptied(pool, r, 0) { FilteredThenRemoved(pool, r); }
  }

  ghost predicate Completes(pool: Pool, r: Removal) {
    forall k :: k in pool.at ==> Drop(pool.at[k], r) != []
  }

  /** The keys whose lists the loop never reached. */
  function Spared(pool: Pool, r: Removal): set<Key> {
    var f := FirstEmptied(pool, r, 0);
    if f == |pool.keys| then {} else Elements(pool.keys[f + 1..])
  }

  lemma DeregisterCompletesIff(pool: Pool, r: Removal)
    requires pool.Valid()
    ensures Completes(pool, r) <==> FirstEmptied(pool, r, 0) == |pool.keys|
    ensures Completes(pool, r) ==> Spared(pool, r) == {}
  {
    var f := FirstEmptied(pool, r, 0);
    if f == |pool.keys| {
      forall k | k in pool.at ensures Drop(pool.at[k], r) != [] {
        var j :| 0 <= j < |pool.keys| && pool.keys[j] == k;
      }
    } else {
      assert pool.keys[f] in pool.at;
    }
  }

  lemma FilteredAt(pool: Pool, r: Removal, n: nat, key: Key)
    requires n <= |pool.keys|
    ensures Filtered(pool, r, n).Keys == pool.at.Keys
    ensures key in pool.at ==>
      Filtered(pool, r, n)[key] == if key in pool.keys[..n] then Drop(pool.at[key], r) else pool.at[key]
  {
  }

  lemma DeregisteredLists(pool: Pool, r: Removal)
    ensures var f := FirstEmptied(pool, r, 0);
      Deregistered(pool, r).at ==
      if f == |pool.keys| then Filtered(pool, r, f) else Filtered(pool, r, f) - {pool.keys[f]}
  {
    hide Filtered, Without;
  }

  /** Before, at or after position `f`: a key is in exactly one place. */
  lemma KeyPosition(pool: Pool, f: nat, key: Key)
    requires pool.Valid() && key in pool.at && f <= |pool.keys|
    ensures f == |pool.keys| ==> key in pool.keys[..f]
    ensures f < |pool.keys| ==>
      && (key in pool.keys[..f] ==> key != pool.keys[f] && key !in Elements(pool.keys[f + 1..]))
      && (key !in pool.keys[..f] ==> (key == pool.keys[f] <==> key !in Elements(pool.keys[f + 1..])))
  {
    var j :| 0 <= j < |pool.keys| && pool.keys[j] == key;
    PositionDecides(pool.keys, j, f);
    if f < |pool.keys| {
      PositionDecides(pool.keys, j, f + 1);
      if j != f { assert pool.keys[j] != pool.keys[f]; }
    }
  }

  /** What `deregister` is meant to leave under `key`. */
  function Intended(pool: Pool, r: Removal, key: Key): seq<Meta> {
    Drop(Holders(pool, key), r)
  }

  lemma DeregisteredHolders(pool: Pool, r: Removal, key: Key)
    requires pool.Valid()
    ensures Holders(Deregistered(pool, r), key) ==
            if key in Spared(pool, r) then Holders(pool, key) else Intended(pool, r, key)
  {
    var f := FirstEmptied(pool, r, 0);
    DeregisteredLists(pool, r);
    FilteredAt(pool, r, f, key);
    assert Drop([], r) == [];
    if key in pool.at {
      KeyPosition(pool, f, key);
    }
    hide Drop, Filtered, Deregistered, NoDuplicates, Elements;
  }

  /** No key the loop never reached lists a holder that `r` should have removed. */
  ghost predicate SparesNothing(pool: Pool, r: Removal) {
    forall key, m :: key in Spared(pool, r) && m in Holders(pool, key) ==> !Hits(r, m)
  }

  /** `deregister` does what it is meant to do exactly when no key past the first emptied one holds the worker. */
  lemma {:induction false} DeregisterMeetsIntentIff(pool: Pool, r: Removal)
    requires pool.Valid()
    ensures (forall key :: Holders(Deregistered(pool, r), key) == Intended(pool, r, key)) <==> SparesNothing(pool, r)
  {
    forall key
      ensures Holders(Deregistered(pool, r), key) == Intended(pool, r, key)
         <==> (key in Spared(pool, r) ==> forall m :: m in Holders(pool, key) ==> !Hits(r, m))
    {
      DeregisteredHolders(pool, r, key);
      DropNothing(Holders(pool, key), r);
    }
  }

  lemma DropNothing(ms: seq<Meta>, r: Removal)
    ensures Drop(ms, r) == ms <==> forall m :: m in ms ==> !Hits(r, m)
  {
    if ms != [] && !Hits(r, ms[0]) {
      DropNothing(ms[1..], r);
      assert Drop(ms, r) == [ms[0]] + Drop(ms[1..], r);
      assert ms == [ms[0]] + ms[1..];
      assert Drop(ms, r) == ms <==> Drop(ms[1..], r) == ms[1..] by {
        assert Drop(ms, r)[1..] == Drop(ms[1..], r);
      }
      assert forall m :: m in ms <==> m == ms[0] || m in ms[1..];
    } else if ms != [] {
      assert ms[0] in ms && ms[0] !in Drop(ms, r);
    }
  }

  /** A worker that is the only holder of two chunks: deregistering it raises and leaves the second chunk behind. */
  lemma DeregisterLeavesPhantom()
    ensures
      var m := Meta("a", 0, "LocalCPUBackend");
      var pool := Admitted(Admitted(Empty(), 1, m), 2, m);
      !Completes(pool, Worker("a", 0)) && Holders(Deregistered(pool, Worker("a", 0)), 2) == [m]
  {
    var m := Meta("a", 0, "LocalCPUBackend");
    var pool: Pool := Admitted(Admitted(Empty(), 1, m), 2, m);
    assert pool.keys == [1, 2] && pool.at == map[1 := [] + [m], 2 := [] + [m]];
    assert [] + [m] == [m];
    var r := Worker("a", 0);
    assert Drop([m], r) == [] by { assert Hits(r, m); assert Drop([m][1..], r) == []; }
    assert FirstEmptied(pool, r, 0) == 0;
    DeregisteredHolders(pool, r, 2);
    assert pool.keys[1..] == [2];
    assert 1 in pool.at;
  }

  lemma AdmittedWellformed(pool: Pool, key: Key, m: Meta)
    requires Wellformed(pool)
    ensures Wellformed(Admitted(pool, key, m))
  {
  }

  lemma EvictedWellformed(pool: Pool, key: Key, m: Meta)
    requires Wellformed(pool)
    ensures Wellformed(Evicted(pool, key, m))
  {
  }

  /** An evict takes at most its own key out of the dict, and leaves the others in their order. */
  lemma {:induction false} EvictedKeysKeepOrder(pool: Pool, key: Key, m: Meta, i: nat)
    requires Wellformed(pool) && i < |pool.keys| && pool.keys[i] == key
    ensures key in pool.at
    ensures Evicted(pool, key, m).keys ==
            if forall n :: n in pool.at[key] ==> n == m then pool.keys[..i] + pool.keys[i + 1..] else pool.keys
  {
    WithoutKeepsOrder(pool.keys, i);
    var remaining := Drop(pool.at[key], Entry(m));
    if remaining != [] {
      assert remaining[0] in remaining;
    }
    hide NoDuplicates;
  }

  lemma DeregisteredWellformed(pool: Pool, r: Removal)
    requires Wellformed(pool)
    ensures Wellformed(Deregistered(pool, r))
  {
    var f := FirstEmptied(pool, r, 0);
    var filtered := Filtered(pool, r, f);
    assert Dict(pool.keys, filtered).Valid();
    forall k | k in pool.keys[..f] ensures filtered[k] != [] {
      var j :| 0 <= j < f && pool.keys[j] == k;
    }
  }
}
