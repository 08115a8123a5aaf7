/** The registry's event log, and the run-level statement that `kv_pool` is exactly what the log leaves alive. */
module EventLog {
  import opened PyDict
  import opened KvPool

  /** `spared` is the set of keys a raising `deregister` never reached. */
  datatype Event =
    | Admit(key: Key, meta: Meta)
    | Evict(key: Key, meta: Meta)
    | Deregister(instanceId: string, workerId: int, spared: set<Key>)

  predicate Removes(e: Event, key: Key, m: Meta) {
    match e
    case Admit(_, _) => false
    case Evict(k, n) => k == key && n == m
    case Deregister(i, w, spared) => key !in spared && m.instanceId == i && m.workerId == w
  }

  predicate Removed(log: seq<Event>, key: Key, m: Meta) {
    exists j :: 0 <= j < |log| && Removes(log[j], key, m)
  }

  lemma RemovedAppend(log: seq<Event>, e: Event, key: Key, m: Meta)
    ensures Removed(log + [e], key, m) <==> Removed(log, key, m) || Removes(e, key, m)
  {
    if Removed(log, key, m) {
      var j :| 0 <= j < |log| && Removes(log[j], key, m);
      assert (log + [e])[j] == log[j];
    }
    assert (log + [e])[|log|] == e;
  }

  /** The admits of `key`, in order, that no later event removes. */
  function Live(log: seq<Event>, key: Key): seq<Meta> {
    if log == [] then []
    else
      var rest := Live(log[1..], key);
      if log[0].Admit? && log[0].key == key && !Removed(log[1..], key, log[0].meta)
      then [log[0].meta] + rest
      else rest
  }

  ghost predicate AdmittedAndKept(log: seq<Event>, key: Key, m: Meta) {
    exists j :: 0 <= j < |log| && log[j] == Admit(key, m) && !Removed(log[j + 1..], key, m)
  }

  /** A holder is listed exactly when some admit of it has no later removal. */
  lemma {:induction false} LiveIff(log: seq<Event>, key: Key, m: Meta)
    ensures m in Live(log, key) <==> AdmittedAndKept(log, key, m)
  {
    if log != [] {
      var rest := log[1..];
      LiveIff(rest, key, m);
      if AdmittedAndKept(rest, key, m) {
        var j :| 0 <= j < |rest| && rest[j] == Admit(key, m) && !Removed(rest[j + 1..], key, m);
        assert log[j + 1] == rest[j] && log[j + 2..] == rest[j + 1..];
      }
      if AdmittedAndKept(log, key, m) {
        var j :| 0 <= j < |log| && log[j] == Admit(key, m) && !Removed(log[j + 1..], key, m);
        if j > 0 { assert rest[j - 1] == log[j] && rest[j..] == log[j + 1..]; }
      }
    }
  }

  /** Removing what an event removes from `key`'s list. */
  function Surviving(ms: seq<Meta>, e: Event, key: Key): seq<Meta> {
    match e
    case Admit(_, _) => ms
    case Evict(k, m) => if k == key then Drop(ms, Entry(m)) else ms
    case Deregister(i, w, spared) => if key in spared then ms else Drop(ms, Worker(i, w))
  }

  lemma SurvivingCons(m: Meta, ms: seq<Meta>, e: Event, key: Key)
    ensures Surviving([m] + ms, e, key) == (if Removes(e, key, m) then [] else [m]) + Surviving(ms, e, key)
  {
    assert ([m] + ms)[1..] == ms;
  }

  lemma SurvivingNil(e: Event, key: Key)
    ensures Surviving([], e, key) == []
  {
  }

  lemma LiveSingle(e: Event, key: Key)
    ensures Live([e], key) == if e.Admit? && e.key == key then [e.meta] else []
  {
    assert [e][1..] == [];
  }

  lemma {:induction false} LiveAppend(log: seq<Event>, e: Event, key: Key)
    ensures Live(log + [e], key) ==
            Surviving(Live(log, key), e, key) + if e.Admit? && e.key == key then [e.meta] else []
  {
    var all := log + [e];
    SurvivingNil(e, key);
    LiveSingle(e, key);
    hide Drop, Removes, Removed, Surviving;
    if log == [] {
      assert all == [e];
    } else {
      LiveAppend(log[1..], e, key);
      assert all[0] == log[0] && all[1..] == log[1..] + [e];
      if log[0].Admit? && log[0].key == key {
        RemovedAppend(log[1..], e, key, log[0].meta);
        SurvivingCons(log[0].meta, Live(log[1..], key), e, key);
      }
    }
  }

  /** `pool` holds, under every key, exactly the log's live entries in order, and never an empty list. */
  ghost predicate Refines(pool: Pool, log: seq<Event>) {
    Wellformed(pool) && forall key :: Holders(pool, key) == Live(log, key)
  }

  lemma AdmitRefines(pool: Pool, log: seq<Event>, key: Key, m: Meta)
    requires Refines(pool, log)
    ensures Refines(Admitted(pool, key, m), log + [Admit(key, m)])
  {
    AdmittedWellformed(pool, key, m);
    forall k { LiveAppend(log, Admit(key, m), k); }
  }

  lemma EvictRefines(pool: Pool, log: seq<Event>, key: Key, m: Meta)
    requires Refines(pool, log)
    ensures Refines(Evicted(pool, key, m), log + [Evict(key, m)])
  {
    EvictedWellformed(pool, key, m);
    forall k ensures Holders(Evicted(pool, key, m), k) == Live(log + [Evict(key, m)], k) {
      LiveAppend(log, Evict(key, m), k);
      assert Drop([], Entry(m)) == [];
    }
  }

  lemma DeregisterRefines(pool: Pool, log: seq<Event>, i: string, w: int)
    requires Refines(pool, log)
    ensures Refines(Deregistered(pool, Worker(i, w)), log + [Deregister(i, w, Spared(pool, Worker(i, w)))])
  {
    var r := Worker(i, w);
    DeregisteredWellformed(pool, r);
    forall k ensures Holders(Deregistered(pool, r), k) == Live(log + [Deregister(i, w, Spared(pool, r))], k) {
      LiveAppend(log, Deregister(i, w, Spared(pool, r)), k);
      DeregisteredHolders(pool, r, k);
    }
  }

  /** A call as the Controller receives it. */
  datatype Call =
    | AdmitCall(key: Key, meta: Meta)
    | EvictCall(key: Key, meta: Meta)
    | DeregisterCall(instanceId: string, workerId: int)

  function Apply(pool: Pool, c: Call): Pool {
    match c
    case AdmitCall(k, m) => Admitted(pool, k, m)
    case EvictCall(k, m) => Evicted(pool, k, m)
    case DeregisterCall(i, w) => Deregistered(pool, Worker(i, w))
  }

  function EventOf(pool: Pool, c: Call): Event {
    match c
    case AdmitCall(k, m) => Admit(k, m)
    case EvictCall(k, m) => Evict(k, m)
    case DeregisterCall(i, w) => Deregister(i, w, Spared(pool, Worker(i, w)))
  }

  /** The event a call is meant to be: a deregistration that spares nothing. */
  function IntendedEvent(c: Call): Event {
    match c
    case AdmitCall(k, m) => Admit(k, m)
    case EvictCall(k, m) => Evict(k, m)
    case DeregisterCall(i, w) => Deregister(i, w, {})
  }

  function Run(calls: seq<Call>): Pool {
    if calls == [] then Empty()
    else Apply(Run(calls[..|calls| - 1]), calls[|calls| - 1])
  }

  function Log(calls: seq<Call>): (log: seq<Event>)
    ensures |log| == |calls|
  {
    if calls == [] then []
    else
      var before := calls[..|calls| - 1];
      Log(before) + [EventOf(Run(before), calls[|calls| - 1])]
  }

  /** Every run from the empty registry refines its own event log. */
  lemma {:induction false} RunRefinesLog(calls: seq<Call>)
    ensures Refines(Run(calls), Log(calls))
  {
    if calls != [] {
      var before, c := calls[..|calls| - 1], calls[|calls| - 1];
      RunRefinesLog(before);
      match c
      case AdmitCall(k, m) => AdmitRefines(Run(before), Log(before), k, m);
      case EvictCall(k, m) => EvictRefines(Run(before), Log(before), k, m);
      case DeregisterCall(i, w) => DeregisterRefines(Run(before), Log(before), i, w);
    }
  }

  function IntendedLog(calls: seq<Call>): seq<Event> {
    if calls == [] then []
    else IntendedLog(calls[..|calls| - 1]) + [IntendedEvent(calls[|calls| - 1])]
  }

  /** The registry lets the call do what it means: any admit or evict, and a deregistration sparing nothing. */
  ghost predicate Fulfils(pool: Pool, c: Call) {
    c.DeregisterCall? ==> SparesNothing(pool, Worker(c.instanceId, c.workerId))
  }

  lemma {:induction false} DeregisterFulfilsIff(pool: Pool, log: seq<Event>, i: string, w: int)
    requires Refines(pool, log)
    ensures Refines(Deregistered(pool, Worker(i, w)), log + [Deregister(i, w, {})]) <==>
            SparesNothing(pool, Worker(i, w))
  {
    var r, e := Worker(i, w), Deregister(i, w, {});
    DeregisterMeetsIntentIff(pool, r);
    DeregisteredWellformed(pool, r);
    hide Deregistered, SparesNothing, Wellformed, Spared, Live;
    forall key ensures Live(log + [e], key) == Intended(pool, r, key) { LiveAppend(log, e, key); }
  }

  lemma {:induction false} CallFulfilsIff(pool: Pool, log: seq<Event>, c: Call)
    requires Refines(pool, log)
    ensures Refines(Apply(pool, c), log + [IntendedEvent(c)]) <==> Fulfils(pool, c)
  {
    match c
    case AdmitCall(k, m) => AdmitRefines(pool, log, k, m);
    case EvictCall(k, m) => EvictRefines(pool, log, k, m);
    case DeregisterCall(i, w) => DeregisterFulfilsIff(pool, log, i, w);
  }

  /** After each of the calls, the registry holds exactly the admits with no later matching evict or deregister. */
  ghost predicate StaysAsIntended(calls: seq<Call>) {
    forall n :: 0 <= n <= |calls| ==> Refines(Run(calls[..n]), IntendedLog(calls[..n]))
  }

  ghost predicate EveryCallFulfils(calls: seq<Call>) {
    forall n :: 0 <= n < |calls| ==> Fulfils(Run(calls[..n]), calls[n])
  }

  lemma {:induction false} OneMoreCall(calls: seq<Call>, n: nat)
    requires n < |calls| && Refines(Run(calls[..n]), IntendedLog(calls[..n]))
    ensures Refines(Run(calls[..n + 1]), IntendedLog(calls[..n + 1])) <==> Fulfils(Run(calls[..n]), calls[n])
  {
    assert calls[..n + 1][..n] == calls[..n];
    CallFulfilsIff(Run(calls[..n]), IntendedLog(calls[..n]), calls[n]);
  }

  lemma {:induction false} FulfilledPrefix(calls: seq<Call>, n: nat)
    requires n <= |calls| && EveryCallFulfils(calls)
    ensures Refines(Run(calls[..n]), IntendedLog(calls[..n]))
  {
    if n == 0 {
      assert calls[..0] == [];
    } else {
      FulfilledPrefix(calls, n - 1);
      assert Fulfils(Run(calls[..n - 1]), calls[n - 1]);
      hide *;
      OneMoreCall(calls, n - 1);
    }
  }

  /**
   * Throughout a run the registry is what its calls mean, if and only if no deregistration finds its worker listed
   * past the first key it empties.
   */
  lemma {:induction false} RunRefinesIntentIff(calls: seq<Call>)
    ensures StaysAsIntended(calls) <==> EveryCallFulfils(calls)
  {
    hide Refines, Fulfils, Run, IntendedLog;
    if StaysAsIntended(calls) {
      forall n | 0 <= n < |calls| ensures Fulfils(Run(calls[..n]), calls[n]) {
        assert 0 <= n + 1 <= |calls|;
        OneMoreCall(calls, n);
      }
    }
    if EveryCallFulfils(calls) {
      forall n | 0 <= n <= |calls| ensures Refines(Run(calls[..n]), IntendedLog(calls[..n])) {
        FulfilledPrefix(calls, n);
      }
    }
  }
}
