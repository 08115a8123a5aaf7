/** The life of a request in the two counters a load is made of: placed, first token, finished. */
module LoadCycle {
  import opened PyDict
  import opened LoadAware
  import opened LoadRuns

  type RequestId = nat

  datatype Event = Place(id: RequestId, url: string) | FirstToken(id: RequestId) | Finish(id: RequestId)

  /** The requests placed and not finished, each with its engine, read off the run. */
  function Open(run: seq<Event>): map<RequestId, string> {
    if run == [] then map[]
    else
      var n := |run| - 1;
      match run[n]
      case Place(id, url) => Open(run[..n])[id := url]
      case FirstToken(_) => Open(run[..n])
      case Finish(id) => Open(run[..n]) - {id}
  }

  /** The requests that have had a first token. */
  function Answered(run: seq<Event>): set<RequestId> {
    if run == [] then {}
    else
      var n := |run| - 1;
      match run[n]
      case FirstToken(id) => Answered(run[..n]) + {id}
      case _ => Answered(run[..n])
  }

  function Placed(run: seq<Event>): set<RequestId> {
    if run == [] then {}
    else
      var n := |run| - 1;
      match run[n]
      case Place(id, _) => Placed(run[..n]) + {id}
      case _ => Placed(run[..n])
  }

  /** A request is placed once, then has its first token, then finishes. */
  predicate Enabled(before: seq<Event>, e: Event) {
    match e
    case Place(id, _) => id !in Placed(before)
    case FirstToken(id) => id in Open(before) && id !in Answered(before)
    case Finish(id) => id in Open(before) && id in Answered(before)
  }

  predicate Possible(run: seq<Event>) {
    run == [] || (Possible(run[..|run| - 1]) && Enabled(run[..|run| - 1], run[|run| - 1]))
  }

  /** A first token moves one request of `url` from prefilling to decoding. */
  function Streaming(stats: Stats, url: string): Stats {
    if url !in stats then stats
    else
      var l := stats[url];
      stats[url := EngineLoad(if l.inPrefill > 0 then l.inPrefill - 1 else 0, l.inDecoding + 1)]
  }

  /** A finish takes one request of `url` out of decoding. */
  function Finished(stats: Stats, url: string): Stats {
    if url !in stats then stats
    else
      var l := stats[url];
      stats[url := l.(inDecoding := if l.inDecoding > 0 then l.inDecoding - 1 else 0)]
  }

  /** `request_stats` after the run. */
  function StatsOf(run: seq<Event>): Stats {
    if run == [] then map[]
    else
      var n := |run| - 1;
      var before := StatsOf(run[..n]);
      match run[n]
      case Place(_, url) => Bumped(before, url)
      case FirstToken(id) => if id in Open(run[..n]) then Streaming(before, Open(run[..n])[id]) else before
      case Finish(id) => if id in Open(run[..n]) then Finished(before, Open(run[..n])[id]) else before
  }

  /** The open requests of one engine that wait for their first token, and those that have had it. */
  function Waiting(run: seq<Event>, url: string): set<RequestId> {
    set id | id in Open(run) && Open(run)[id] == url && id !in Answered(run)
  }

  function Decoding(run: seq<Event>, url: string): set<RequestId> {
    set id | id in Open(run) && Open(run)[id] == url && id in Answered(run)
  }

  function OpenOn(run: seq<Event>, url: string): set<RequestId> {
    set id | id in Open(run) && Open(run)[id] == url
  }

  function Prefilling(stats: Stats, url: string): nat {
    if url in stats then stats[url].inPrefill else 0
  }

  function Decodes(stats: Stats, url: string): nat {
    if url in stats then stats[url].inDecoding else 0
  }

  lemma {:induction false} KnownRequests(run: seq<Event>)
    requires Possible(run)
    ensures Open(run).Keys <= Placed(run) && Answered(run) <= Placed(run)
  {
    if run != [] { KnownRequests(run[..|run| - 1]); }
  }

  /** An open request was placed on its engine and never finished. */
  lemma {:induction false} OpenIff(run: seq<Event>, id: RequestId, url: string)
    requires Possible(run)
    ensures id in OpenOn(run, url) <==> Place(id, url) in run && Finish(id) !in run
  {
    if run != [] {
      var n := |run| - 1;
      var before := run[..n];
      OpenIff(before, id, url);
      PlacedIff(before, id);
      if Finish(id) in before { FinishedWasPlaced(before, id); }
      assert run == before + [run[n]];
    }
  }

  lemma {:induction false} PlacedIff(run: seq<Event>, id: RequestId)
    ensures id in Placed(run) <==> exists url :: Place(id, url) in run
  {
    if run != [] {
      var n := |run| - 1;
      PlacedIff(run[..n], id);
      assert run == run[..n] + [run[n]];
    }
  }

  lemma {:induction false} FinishedWasPlaced(run: seq<Event>, id: RequestId)
    requires Possible(run) && Finish(id) in run
    ensures id in Placed(run)
  {
    var n := |run| - 1;
    assert run == run[..n] + [run[n]];
    KnownRequests(run[..n]);
    if Finish(id) in run[..n] { FinishedWasPlaced(run[..n], id); }
  }

  lemma {:induction false} RequestsStep(before: seq<Event>, e: Event, url: string)
    requires Possible(before) && Enabled(before, e)
    ensures e.Place? ==>
      && e.id !in Waiting(before, url)
      && Waiting(before + [e], url) == Waiting(before, url) + (if e.url == url then {e.id} else {})
      && Decoding(before + [e], url) == Decoding(before, url)
    ensures e.FirstToken? ==>
      && (e.id in Waiting(before, url) <==> Open(before)[e.id] == url) && e.id !in Decoding(before, url)
      && Waiting(before + [e], url) == Waiting(before, url) - {e.id}
      && Decoding(before + [e], url) == Decoding(before, url) + (if Open(before)[e.id] == url then {e.id} else {})
    ensures e.Finish? ==>
      && (e.id in Decoding(before, url) <==> Open(before)[e.id] == url)
      && Waiting(before + [e], url) == Waiting(before, url)
      && Decoding(before + [e], url) == Decoding(before, url) - {e.id}
  {
    var run := before + [e];
    assert run[..|run| - 1] == before && run[|run| - 1] == e;
    KnownRequests(before);
    hide StatsOf, Possible, Placed;
  }

  lemma {:induction false} CountersStep(before: seq<Event>, e: Event, url: string)
    requires Enabled(before, e)
    ensures e.Place? ==>
      && Prefilling(StatsOf(before + [e]), url) == Prefilling(StatsOf(before), url) + (if e.url == url then 1 else 0)
      && Decodes(StatsOf(before + [e]), url) == Decodes(StatsOf(before), url)
    ensures e.FirstToken? && Prefilling(StatsOf(before), Open(before)[e.id]) > 0 ==>
      var moved := if Open(before)[e.id] == url then 1 else 0;
      && Prefilling(StatsOf(before + [e]), url) == Prefilling(StatsOf(before), url) - moved
      && Decodes(StatsOf(before + [e]), url) == Decodes(StatsOf(before), url) + moved
    ensures e.Finish? && Decodes(StatsOf(before), Open(before)[e.id]) > 0 ==>
      && Prefilling(StatsOf(before + [e]), url) == Prefilling(StatsOf(before), url)
      && Decodes(StatsOf(before + [e]), url) ==
         Decodes(StatsOf(before), url) - (if Open(before)[e.id] == url then 1 else 0)
  {
    var run := before + [e];
    assert run[..|run| - 1] == before && run[|run| - 1] == e;
    hide Placed, Answered;
  }

  ghost predicate Counted(run: seq<Event>, url: string) {
    Prefilling(StatsOf(run), url) == |Waiting(run, url)| && Decodes(StatsOf(run), url) == |Decoding(run, url)|
  }

  lemma {:induction false} CountedStep(before: seq<Event>, e: Event, url: string)
    requires Possible(before) && Enabled(before, e) && forall u :: Counted(before, u)
    ensures Counted(before + [e], url)
  {
    RequestsStep(before, e, url);
    CountersStep(before, e, url);
    if !e.Place? {
      var u := Open(before)[e.id];
      RequestsStep(before, e, u);
      assert Counted(before, u);
    }
    assert Counted(before, url);
    hide StatsOf, Waiting, Decoding, Open, Answered, Placed, Possible, Prefilling, Decodes;
    OneMore(Waiting(before, url), e.id);
    OneMore(Decoding(before, url), e.id);
  }

  lemma OneMore(ids: set<RequestId>, id: RequestId)
    ensures |ids + {id}| == |ids| + if id in ids then 0 else 1
    ensures |ids - {id}| == |ids| - if id in ids then 1 else 0
    ensures ids + {} == ids
  {
    if id in ids {
      assert ids + {id} == ids;
    } else {
      assert ids - {id} == ids;
    }
  }

  /** The two counters of an engine are its waiting and its decoding requests. */
  lemma {:induction false} CountersAreRequests(run: seq<Event>, url: string)
    requires Possible(run)
    ensures Counted(run, url)
    decreases |run|
  {
    if run == [] {
      assert Waiting(run, url) == {} && Decoding(run, url) == {};
    } else {
      var before, e := run[..|run| - 1], run[|run| - 1];
      assert run == before + [e];
      hide Counted;
      forall u ensures Counted(before, u) { CountersAreRequests(before, u); }
      CountedStep(before, e, url);
    }
  }

  /** A load is the number of requests placed on the engine and not finished, whatever their phase. */
  lemma {:induction false} LoadIsOpenRequests(run: seq<Event>, url: string)
    requires Possible(run)
    ensures Load(StatsOf(run), url) == |OpenOn(run, url)|
  {
    CountersAreRequests(run, url);
    hide StatsOf, Open, Answered;
    assert OpenOn(run, url) == Waiting(run, url) + Decoding(run, url);
    assert Waiting(run, url) !! Decoding(run, url);
  }

  lemma {:induction false} SameTotal(a: Stats, b: Stats, us: seq<string>)
    requires forall u :: Load(a, u) == Load(b, u)
    ensures Total(a, us) == Total(b, us)
  {
    if us != [] { SameTotal(a, b, us[1..]); }
  }

  lemma {:induction false} SameScore(q: Request, stats: Stats, u: string)
    requires q.endpoints != [] && forall v :: Load(stats, v) == Load(q.stats, v)
    ensures q.(stats := stats).Score(u) == q.Score(u)
  {
    var r := q.(stats := stats);
    SameTotal(q.stats, stats, q.Fleet());
    MeanIs(q);
    MeanIs(r);
    assert r.Benefit(u) == q.Benefit(u) && r.LoadOf(u) == q.LoadOf(u);
    hide Load, Total, Request.Mean, Request.Benefit, Request.LoadOf;
  }

  /** A choice depends on the counters only through the loads. */
  lemma {:induction false} LoadsDecide(q: Request, stats: Stats, url: string)
    requires forall u :: Load(stats, u) == Load(q.stats, u)
    ensures IsChoice(q.(stats := stats), url) <==> IsChoice(q, url)
  {
    hide Load, Request.Score;
    if q.endpoints != [] {
      forall u ensures q.(stats := stats).Score(u) == q.Score(u) { SameScore(q, stats, u); }
    }
  }

  /** A first token changes no choice. */
  lemma {:induction false} FirstTokenChangesNoChoice(run: seq<Event>, id: RequestId, q: Request, url: string)
    requires Possible(run) && Enabled(run, FirstToken(id)) && q.stats == StatsOf(run)
    ensures IsChoice(q.(stats := StatsOf(run + [FirstToken(id)])), url) <==> IsChoice(q, url)
  {
    var after := run + [FirstToken(id)];
    assert after[..|run|] == run && after[|run|] == FirstToken(id);
    assert Possible(after);
    assert Open(after) == Open(run);
    forall u ensures Load(StatsOf(after), u) == Load(StatsOf(run), u) {
      LoadIsOpenRequests(run, u);
      LoadIsOpenRequests(after, u);
      assert OpenOn(after, u) == OpenOn(run, u);
    }
    hide StatsOf, IsChoice, Load;
    LoadsDecide(q, StatsOf(after), url);
  }
}
