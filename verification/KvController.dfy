/** `KVController`: the registry updated in place, and the two read walks over it. */
module KvController {
  import opened PyDict
  import opened KvPool
  import opened EventLog
  import opened Chunking
  import opened PrefixMatch
  import opened PeerWalk

  datatype Outcome = Done | Raised

  class KVController {
    var kvPool: Pool
    ghost var log: seq<Event>
    const db: TokenDb
    /** `reg_controller.get_distributed_url`. */
    const distributedUrl: (string, int) -> string

    ghost predicate Valid()
      reads this
    {
      Refines(kvPool, log) && db.chunkSize > 0
    }

    constructor (db: TokenDb, distributedUrl: (string, int) -> string)
      requires db.chunkSize > 0
      ensures Valid() && log == [] && kvPool == Empty()
      ensures this.db == db && this.distributedUrl == distributedUrl
    {
      kvPool := Empty();
      log := [];
      this.db := db;
      this.distributedUrl := distributedUrl;
    }

    method Admit(key: Key, m: Meta)
      requires Valid()
      modifies this
      ensures Valid() && log == old(log) + [Event.Admit(key, m)]
      ensures kvPool == Admitted(old(kvPool), key, m)
    {
      AdmitRefines(kvPool, log, key, m);
      if key !in kvPool.at {
        kvPool := kvPool.Put(key, []);
      }
      kvPool := kvPool.Put(key, kvPool.at[key] + [m]);
      assert kvPool.at == Admitted(old(kvPool), key, m).at;
      log := log + [Event.Admit(key, m)];
    }

    method Evict(key: Key, m: Meta)
      requires Valid()
      modifies this
      ensures Valid() && log == old(log) + [Event.Evict(key, m)]
      ensures kvPool == Evicted(old(kvPool), key, m)
    {
      EvictRefines(kvPool, log, key, m);
      log := log + [Event.Evict(key, m)];
      if key !in kvPool.at { return; }
      var remaining := Drop(kvPool.at[key], Entry(m));
      if remaining != [] {
        kvPool := kvPool.Put(key, remaining);
      } else {
        kvPool := kvPool.Remove(key);
      }
    }

    /** The loop deletes from the dict it iterates, so its next step raises. */
    method Deregister(instanceId: string, workerId: int) returns (outcome: Outcome)
      requires Valid()
      modifies this
      ensures Valid()
      ensures var spared := Spared(old(kvPool), Worker(instanceId, workerId));
        log == old(log) + [Event.Deregister(instanceId, workerId, spared)]
      ensures kvPool == Deregistered(old(kvPool), Worker(instanceId, workerId))
      ensures outcome == Done <==> Completes(old(kvPool), Worker(instanceId, workerId))
    {
      DeregisterRefines(kvPool, log, instanceId, workerId);
      DeregisterCompletesIff(kvPool, Worker(instanceId, workerId));
      log := log + [Event.Deregister(instanceId, workerId, Spared(kvPool, Worker(instanceId, workerId)))];
      outcome := FilterEvery(Worker(instanceId, workerId));
    }

    /** The loop of `deregister` over the dict. */
    method FilterEvery(r: Removal) returns (outcome: Outcome)
      requires kvPool.Valid()
      modifies this`kvPool
      ensures kvPool == Deregistered(old(kvPool), r)
      ensures outcome == Done <==> FirstEmptied(old(kvPool), r, 0) == |old(kvPool).keys|
    {
      ghost var before := kvPool;
      ghost var f := FirstEmptied(before, r, 0);
      assert kvPool.at == Filtered(before, r, 0);
      var keys := kvPool.keys;
      hide Drop, Filtered;
      for i := 0 to |keys|
        invariant i <= f
        invariant kvPool == Dict(keys, Filtered(before, r, i))
      {
        var key := keys[i];
        DeregisterLoopStep(before, r, i);
        kvPool := kvPool.Put(key, Drop(kvPool.at[key], r));
        if kvPool.at[key] == [] {
          kvPool := kvPool.Remove(key);
          return Raised;
        }
      }
      return Done;
    }

    /** Every instance's longest contiguous match. */
    method Lookup(tokens: seq<Token>) returns (layoutInfo: Layout)
      requires Valid()
      ensures layoutInfo == ExactLayout(kvPool, Chunks(db, tokens))
    {
      layoutInfo := WalkChunks(Chunks(db, tokens));
    }

    /** The walk of `lookup`; neither early exit loses an instance or a token. */
    method WalkChunks(cs: seq<Chunk>) returns (layoutInfo: Layout)
      ensures layoutInfo == ExactLayout(kvPool, cs)
    {
      layoutInfo := Empty();
      var contiguous: Option<set<string>> := None;
      WalkStart(kvPool, cs);
      hide ExactLayout, IsContiguous, Matching, Merged, RunLength, NoDuplicates, Elements;
      for i := 0 to |cs|
        invariant layoutInfo == ExactLayout(kvPool, cs[..i])
        invariant IsContiguous(kvPool, cs, i, contiguous)
      {
        var c := cs[i];
        if c.key !in kvPool.at {
          UnmappedEndsWalk(kvPool, cs, i);
          return;
        }
        var holders := HoldersOf(kvPool.at[c.key], contiguous);
        if holders.keys == [] {
          NoMatchEndsWalk(kvPool, cs, i, contiguous, holders);
          return;
        }
        ExactLayoutStep(kvPool, cs, i, contiguous, holders);
        layoutInfo := CreditHolders(layoutInfo, holders, c.end);
        contiguous := Some(Elements(holders.keys));
      }
      assert cs[..|cs|] == cs;
    }

    /** The inner loop of `lookup`: `holders.setdefault` over the entries of still-contiguous instances. */
    method HoldersOf(ms: seq<Meta>, contiguous: Option<set<string>>) returns (holders: Dict<string, string>)
      ensures Matching(ms, contiguous, holders)
    {
      holders := Empty();
      for i := 0 to |ms|
        invariant Matching(ms[..i], contiguous, holders)
      {
        var m := ms[i];
        MatchingStep(ms[..i], contiguous, holders, m);
        assert ms[..i + 1] == ms[..i] + [m];
        if contiguous.Some? && m.instanceId !in contiguous.value { continue; }
        if m.instanceId !in holders.at {
          holders := holders.Put(m.instanceId, m.location);
        }
      }
      assert ms[..|ms|] == ms;
    }

    /** The crediting loop of `lookup`: the last write per instance is its longest match. */
    method CreditHolders(layout: Layout, holders: Dict<string, string>, end: nat) returns (r: Layout)
      requires Creditable(layout, holders)
      ensures r == Merged(layout, holders, end)
    {
      r := layout;
      MergedAll(layout, holders, end);
      for j := 0 to |holders.keys|
        invariant r == MergedUpTo(layout, holders, end, j)
      {
        MergedStep(layout, holders, end, j);
        r := r.Put(holders.keys[j], (holders.at[holders.keys[j]], end));
      }
    }

    method BatchedP2PLookup(hashes: seq<Key>, asker: string, workerId: int)
      returns (instanceId: string, location: string, numHitChunks: nat, peerInitUrl: string)
      ensures Walk(instanceId, location, numHitChunks) == WalkFrom(kvPool, hashes, asker, Walk("", "", 0))
      ensures peerInitUrl == if numHitChunks == 0 then "" else distributedUrl(instanceId, workerId)
    {
      numHitChunks, instanceId, location, peerInitUrl := 0, "", "", "";
      for i := 0 to |hashes|
        invariant WalkFrom(kvPool, hashes, asker, Walk("", "", 0)) ==
                  WalkFrom(kvPool, hashes[i..], asker, Walk(instanceId, location, numHitChunks))
        invariant numHitChunks == 0 ==> instanceId == "" && location == ""
        invariant peerInitUrl == if numHitChunks == 0 then "" else distributedUrl(instanceId, workerId)
      {
        var key := hashes[i];
        WalkUnroll(kvPool, hashes, i, asker, Walk(instanceId, location, numHitChunks));
        if key !in kvPool.at { return; }
        var matched := FirstPeer(kvPool.at[key], asker);
        if matched.None? { return; }
        var m := matched.value;
        if instanceId != "" && (instanceId != m.instanceId || location != m.location) {
          return;
        } else if instanceId == "" {
          instanceId := m.instanceId;
          location := m.location;
          peerInitUrl := distributedUrl(instanceId, workerId);
        }
        numHitChunks := numHitChunks + 1;
      }
      assert hashes[|hashes|..] == [];
    }

    /** The scan for the first holder that is not the asker. */
    method FirstPeer(ms: seq<Meta>, asker: string) returns (p: Option<Meta>)
      ensures p == Peer(ms, asker)
    {
      p := None;
      for i := 0 to |ms|
        invariant Peer(ms, asker) == Peer(ms[i..], asker)
      {
        assert ms[i..][0] == ms[i] && ms[i..][1..] == ms[i + 1..];
        if ms[i].instanceId != asker { return Some(ms[i]); }
      }
      assert ms[|ms|..] == [];
    }
  }

  function Merged(layout: Layout, holders: Dict<string, string>, end: nat): Layout {
    Dict(if layout.keys == [] then holders.keys else layout.keys,
         map inst | inst in layout.at.Keys + holders.at.Keys ::
           if inst in holders.at then (holders.at[inst], end) else layout.at[inst])
  }

  /** Credits go to instances already in the layout, or start an empty one. */
  ghost predicate Creditable(layout: Layout, holders: Dict<string, string>) {
    layout.Valid() && holders.Valid() && (layout.keys == [] || forall inst :: inst in holders.at ==> inst in layout.at)
  }

  /** The merged credits once the first `n` holders are written. */
  function MergedAt(at: map<string, (string, nat)>, holders: Dict<string, string>, end: nat, n: nat)
    : (r: map<string, (string, nat)>)
    requires holders.Valid() && n <= |holders.keys|
    ensures r.Keys == at.Keys + Elements(holders.keys[..n])
  {
    map inst | inst in at.Keys + Elements(holders.keys[..n]) ::
      if inst in holders.keys[..n] then (holders.at[inst], end) else at[inst]
  }

  lemma MergedAtStep(at: map<string, (string, nat)>, holders: Dict<string, string>, end: nat, n: nat)
    requires holders.Valid() && n < |holders.keys|
    ensures holders.keys[n] in holders.at && holders.keys[n] !in holders.keys[..n]
    ensures MergedAt(at, holders, end, n + 1) ==
            MergedAt(at, holders, end, n)[holders.keys[n] := (holders.at[holders.keys[n]], end)]
  {
    assert holders.keys[..n + 1] == holders.keys[..n] + [holders.keys[n]];
  }

  function MergedUpTo(layout: Layout, holders: Dict<string, string>, end: nat, n: nat): Layout
    requires holders.Valid() && n <= |holders.keys|
  {
    Dict(if layout.keys == [] then holders.keys[..n] else layout.keys, MergedAt(layout.at, holders, end, n))
  }

  lemma {:induction false} MergedStep(layout: Layout, holders: Dict<string, string>, end: nat, n: nat)
    requires layout.Valid() && holders.Valid() && n < |holders.keys|
    requires layout.keys == [] || holders.keys[n] in layout.at
    ensures holders.keys[n] in holders.at
    ensures MergedUpTo(layout, holders, end, n + 1) ==
            MergedUpTo(layout, holders, end, n).Put(holders.keys[n], (holders.at[holders.keys[n]], end))
  {
    MergedAtStep(layout.at, holders, end, n);
    if layout.keys == [] {
      assert holders.keys[n] !in layout.at;
      assert holders.keys[..n + 1] == holders.keys[..n] + [holders.keys[n]];
    }
  }

  lemma MergedAll(layout: Layout, holders: Dict<string, string>, end: nat)
    requires holders.Valid()
    ensures MergedUpTo(layout, holders, end, 0) == layout
    ensures MergedUpTo(layout, holders, end, |holders.keys|) == Merged(layout, holders, end)
  {
    assert holders.keys[..|holders.keys|] == holders.keys;
    assert MergedUpTo(layout, holders, end, 0).at == layout.at;
    assert Elements(holders.keys) == holders.at.Keys;
  }

  ghost predicate IsContiguous(pool: Pool, cs: seq<Chunk>, i: nat, contiguous: Option<set<string>>)
    requires i <= |cs|
  {
    && (contiguous.None? <==> i == 0)
    && (contiguous.Some? ==> forall inst :: inst in contiguous.value <==> RunLength(pool, cs[..i], inst) == i)
  }

  /** The chunk's contiguous holders are the instances whose run grows by it; no other run changes. */
  lemma RunsStep(pool: Pool, cs: seq<Chunk>, i: nat, contiguous: Option<set<string>>, holders: Dict<string, string>,
                 inst: string)
    requires i < |cs| && IsContiguous(pool, cs, i, contiguous)
    requires Matching(Holders(pool, cs[i].key), contiguous, holders)
    ensures inst in holders.at <==> RunLength(pool, cs[..i + 1], inst) == i + 1
    ensures inst in holders.at ==> RunLength(pool, cs[..i], inst) == i
    ensures inst !in holders.at ==> RunLength(pool, cs[..i + 1], inst) == RunLength(pool, cs[..i], inst)
  {
    RunLengthExtend(pool, cs, i, inst);
  }

  /** One chunk of the walk takes the exact answer for `i` chunks to the exact answer for `i + 1`. */
  lemma ExactLayoutStep(pool: Pool, cs: seq<Chunk>, i: nat, contiguous: Option<set<string>>,
                        holders: Dict<string, string>)
    requires i < |cs| && IsContiguous(pool, cs, i, contiguous)
    requires Matching(Holders(pool, cs[i].key), contiguous, holders)
    ensures IsContiguous(pool, cs, i + 1, Some(Elements(holders.keys)))
    ensures Creditable(ExactLayout(pool, cs[..i]), holders)
    ensures Merged(ExactLayout(pool, cs[..i]), holders, cs[i].end) == ExactLayout(pool, cs[..i + 1])
  {
    hide Names, FirstLocation, RunLength, Credit, Instances;
    MergedKeys(pool, cs, i, contiguous, holders);
    var before, exact := ExactLayout(pool, cs[..i]), ExactLayout(pool, cs[..i + 1]);
    var merged := Merged(before, holders, cs[i].end);
    forall inst
      ensures inst in holders.at && i > 0 ==> inst in before.at
      ensures i == 0 ==> before.keys == []
      ensures inst in holders.at <==> RunLength(pool, cs[..i + 1], inst) == i + 1
      ensures inst in merged.at <==> inst in exact.at
      ensures inst in merged.at ==> merged.at[inst] == exact.at[inst]
    {
      RunsStep(pool, cs, i, contiguous, holders, inst);
      if inst in exact.at { MergedCredit(pool, cs, i, contiguous, holders, inst); }
    }
    SameDict(merged, exact);
  }

  lemma MergedKeys(pool: Pool, cs: seq<Chunk>, i: nat, contiguous: Option<set<string>>, holders: Dict<string, string>)
    requires i < |cs| && IsContiguous(pool, cs, i, contiguous)
    requires Matching(Holders(pool, cs[i].key), contiguous, holders)
    ensures Merged(ExactLayout(pool, cs[..i]), holders, cs[i].end).keys == ExactLayout(pool, cs[..i + 1]).keys
  {
    assert cs[..i + 1][0] == cs[0];
    if i > 0 {
      assert cs[..i][0] == cs[0];
      if ExactLayout(pool, cs[..i]).keys == [] && holders.keys != [] {
        RunsStep(pool, cs, i, contiguous, holders, holders.keys[0]);
        assert false;
      }
    }
  }

  lemma {:induction false} MergedCredit(pool: Pool, cs: seq<Chunk>, i: nat, contiguous: Option<set<string>>,
                                        holders: Dict<string, string>, inst: string)
    requires i < |cs| && IsContiguous(pool, cs, i, contiguous)
    requires Matching(Holders(pool, cs[i].key), contiguous, holders)
    requires RunLength(pool, cs[..i + 1], inst) > 0
    ensures inst in holders.at ==> Credit(pool, cs[..i + 1], inst) == (holders.at[inst], cs[i].end)
    ensures inst !in holders.at ==>
      RunLength(pool, cs[..i], inst) > 0 && Credit(pool, cs[..i + 1], inst) == Credit(pool, cs[..i], inst)
  {
    RunsStep(pool, cs, i, contiguous, holders, inst);
    var r := RunLength(pool, cs[..i + 1], inst);
    assert cs[..i + 1][r - 1] == cs[r - 1];
    if r <= i { assert cs[..i][r - 1] == cs[r - 1]; }
  }

  /** No instance's run goes past a chunk that no contiguous instance holds. */
  lemma {:induction false} NobodyHolds(pool: Pool, cs: seq<Chunk>, i: nat)
    requires i < |cs|
    requires forall inst :: RunLength(pool, cs[..i], inst) == i ==> !Holds(pool, cs[i].key, inst)
    ensures ExactLayout(pool, cs[..i]) == ExactLayout(pool, cs)
  {
    forall inst ensures RunLength(pool, cs, inst) == RunLength(pool, cs[..i], inst) {
      var r := RunLength(pool, cs[..i], inst);
      forall j | 0 <= j < r ensures Holds(pool, cs[j].key, inst) {
        assert cs[..i][j] == cs[j];
      }
      if r < i { assert cs[..i][r] == cs[r]; }
      RunLengthUnique(pool, cs, inst, r);
    }
    if i > 0 {
      assert cs[..i][0] == cs[0];
    } else if Instances(Holders(pool, cs[0].key)) != [] {
      var first := Instances(Holders(pool, cs[0].key))[0];
      assert Holds(pool, cs[0].key, first);
      assert false;
    }
    SameCredits(pool, cs, i);
  }

  lemma WalkStart(pool: Pool, cs: seq<Chunk>)
    ensures ExactLayout(pool, cs[..0]) == Empty() && IsContiguous(pool, cs, 0, None)
  {
  }

  /** The first early exit: a chunk no instance holds. */
  lemma {:induction false} UnmappedEndsWalk(pool: Pool, cs: seq<Chunk>, i: nat)
    requires i < |cs| && cs[i].key !in pool.at
    ensures ExactLayout(pool, cs[..i]) == ExactLayout(pool, cs)
  {
    NobodyHolds(pool, cs, i);
  }

  /** The second early exit: a chunk no still-contiguous instance holds. */
  lemma {:induction false} NoMatchEndsWalk(pool: Pool, cs: seq<Chunk>, i: nat, contiguous: Option<set<string>>,
                                           holders: Dict<string, string>)
    requires i < |cs| && IsContiguous(pool, cs, i, contiguous)
    requires Matching(Holders(pool, cs[i].key), contiguous, holders) && holders.keys == []
    ensures ExactLayout(pool, cs[..i]) == ExactLayout(pool, cs)
  {
    forall inst | RunLength(pool, cs[..i], inst) == i ensures !Holds(pool, cs[i].key, inst) {
      assert inst !in holders.at;
    }
    NobodyHolds(pool, cs, i);
  }

  lemma {:induction false} SameCredits(pool: Pool, cs: seq<Chunk>, i: nat)
    requires i < |cs| && forall inst :: RunLength(pool, cs, inst) == RunLength(pool, cs[..i], inst)
    requires ExactLayout(pool, cs[..i]).keys == ExactLayout(pool, cs).keys
    ensures ExactLayout(pool, cs[..i]) == ExactLayout(pool, cs)
  {
    var shorter, longer := ExactLayout(pool, cs[..i]), ExactLayout(pool, cs);
    forall inst
      ensures inst in shorter.at <==> inst in longer.at
      ensures inst in shorter.at ==> longer.at[inst] == shorter.at[inst]
    {
      if inst in shorter.at { SameCredit(pool, cs, i, inst); }
    }
    SameDict(shorter, longer);
  }

  lemma SameCredit(pool: Pool, cs: seq<Chunk>, i: nat, inst: string)
    requires i < |cs| && RunLength(pool, cs, inst) == RunLength(pool, cs[..i], inst) > 0
    ensures Credit(pool, cs, inst) == Credit(pool, cs[..i], inst)
  {
    var r := RunLength(pool, cs, inst);
    assert cs[..i][r - 1] == cs[r - 1];
  }
}
