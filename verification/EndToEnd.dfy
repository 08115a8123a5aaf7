/** From the registry to the score: what an engine's benefit term says about its cache. */
module EndToEnd {
  import opened PyDict
  import opened KvPool
  import opened Chunking
  import opened PrefixMatch
  import opened CreditFacts
  import opened LoadAware
  import opened RealFacts
  import opened Bridge
  import B = BridgeRuns
  import E = EventLog

  /** A request routed on the lookup's own answer for its own tokens. */
  ghost predicate Routed(db: TokenDb, pool: Pool, tokens: seq<Token>, bridge: BridgeMap, q: Request)
    requires db.chunkSize > 0
  {
    && tokens != [] && q.promptTokens == |tokens|
    && CreditsLive(bridge, ExactLayout(pool, Chunks(db, tokens)), q.matched)
  }

  /**
   * The benefit is a true fraction of the prompt, read off the URL's live instance: the guard against matches
   * longer than the prompt never acts, it is positive exactly when the instance holds the first chunk, and it is
   * 1 exactly when the instance holds them all.
   */
  lemma {:induction false} BenefitIsTrueFraction(db: TokenDb, pool: Pool, tokens: seq<Token>, bridge: BridgeMap,
                                                 q: Request, url: string, id: string)
    requires db.chunkSize > 0 && Routed(db, pool, tokens, bridge, q) && Live(bridge, url) == Some(id)
    ensures q.Matched(url) <= |tokens| && q.Benefit(url) == q.Matched(url) as real / |tokens| as real
    ensures q.Benefit(url) > 0.0 <==> RunLength(pool, Chunks(db, tokens), id) > 0
    ensures q.Benefit(url) == 1.0 <==> HoldsEvery(pool, Chunks(db, tokens), id)
  {
    var cs := Chunks(db, tokens);
    var layout := ExactLayout(pool, cs);
    ChunksTile(db, tokens);
    if id in layout.at {
      CreditIsFraction(db, pool, tokens, id);
    } else {
      assert cs != [];
      assert RunLength(pool, cs, id) == 0;
    }
    hide ExactLayout, Chunks, RunLength, HoldsEvery, Tiles;
    FractionBounds(q.Matched(url), |tokens|);
    PositiveFraction(q.Matched(url), |tokens|);
  }

  lemma PositiveFraction(k: nat, n: nat)
    requires n > 0
    ensures k as real / n as real > 0.0 <==> k > 0
  {
    QuotientTimes(k as real, n as real);
    QuotientOrder(0.0, k as real, n as real);
  }

  /** While the bridge names the last reported ids, a URL's benefit reads only the cache of the id reported for it. */
  lemma {:induction false} BenefitReadsReportedEngine(db: TokenDb, pool: Pool, tokens: seq<Token>, w: B.World,
                                                      q: Request, url: string)
    requires db.chunkSize > 0 && B.LiveIsReported(w) && Routed(db, pool, tokens, w.bridge, q)
    ensures url !in w.reported ==> q.Benefit(url) == 0.0
    ensures url in w.reported ==>
      (q.Benefit(url) == 1.0 <==> HoldsEvery(pool, Chunks(db, tokens), w.reported[url]))
  {
    assert Live(w.bridge, url) == if url in w.reported then Some(w.reported[url]) else None;
    hide *;
    if url in w.reported {
      BenefitIsTrueFraction(db, pool, tokens, w.bridge, q, url, w.reported[url]);
    } else {
      UnreportedIsCold(db, pool, tokens, w.bridge, q, url);
    }
  }

  lemma UnreportedIsCold(db: TokenDb, pool: Pool, tokens: seq<Token>, bridge: BridgeMap, q: Request, url: string)
    requires db.chunkSize > 0 && Routed(db, pool, tokens, bridge, q) && Live(bridge, url) == None
    ensures q.Benefit(url) == 0.0
  {
    assert q.Matched(url) == 0;
  }

  /** Some worker of `inst` has an admit of `key` in the log with no later removal. */
  ghost predicate AdmittedBy(log: seq<E.Event>, key: Key, inst: string) {
    exists m: Meta :: m.instanceId == inst && E.AdmittedAndKept(log, key, m)
  }

  lemma HeldIffAdmitted(calls: seq<E.Call>, key: Key, inst: string)
    ensures Holds(E.Run(calls), key, inst) <==> AdmittedBy(E.Log(calls), key, inst)
  {
    var log, ms := E.Log(calls), Holders(E.Run(calls), key);
    E.RunRefinesLog(calls);
    NamesIff(ms, inst);
    hide E.Run, E.Log, E.Live, E.AdmittedAndKept, Holders;
    if Holds(E.Run(calls), key, inst) {
      var i :| 0 <= i < |ms| && ms[i].instanceId == inst;
      E.LiveIff(log, key, ms[i]);
    }
    if m: Meta :| m.instanceId == inst && E.AdmittedAndKept(log, key, m) {
      E.LiveIff(log, key, m);
      var i :| 0 <= i < |ms| && ms[i] == m;
    }
  }

  /** After any calls, a credit reaches chunk `i` exactly when every chunk up to it has a surviving admit. */
  lemma {:induction false} CreditReadsEventLog(calls: seq<E.Call>, cs: seq<Chunk>, inst: string, i: nat)
    requires i < |cs| && EndsIncrease(cs)
    ensures (inst in ExactLayout(E.Run(calls), cs).at && cs[i].end <= ExactLayout(E.Run(calls), cs).at[inst].1)
       <==> (forall k :: 0 <= k <= i ==> AdmittedBy(E.Log(calls), cs[k].key, inst))
  {
    var pool := E.Run(calls);
    var r := RunLength(pool, cs, inst);
    hide E.Run, E.Log, AdmittedBy, Holds, FirstLocation, Instances;
    forall k | 0 <= k < |cs| ensures Holds(pool, cs[k].key, inst) <==> AdmittedBy(E.Log(calls), cs[k].key, inst) {
      HeldIffAdmitted(calls, cs[k].key, inst);
    }
    if r > i {
      CreditCovers(pool, cs, inst, i + 1);
    } else if inst in ExactLayout(pool, cs).at {
      assert ExactLayout(pool, cs).at[inst].1 == cs[r - 1].end;
    }
  }
}
