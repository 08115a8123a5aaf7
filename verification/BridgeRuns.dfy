/** Runs of the world around the bridge: engines restart, registrations lag, the router queries. */
module BridgeRuns {
  import opened PyDict
  import opened Bridge
  import opened BridgeRefresh
  import opened PrefixMatch

  /** The fleet's URLs, and the address a URL is queried by: its host, without scheme and port. */
  datatype Fleet = Fleet(urls: set<string>, address: string -> string)

  /** No two engines of the fleet share an address. */
  ghost predicate Separate(fleet: Fleet) {
    forall u, v :: u in fleet.urls && v in fleet.urls && fleet.address(u) == fleet.address(v) ==> u == v
  }

  /**
   * The world around the bridge. `issued` maps every id ever taken to its engine's URL; `live` is each engine's
   * current id; `registered` is what the Controller answers for an address, which may lag a restart; `reported` is
   * what the router last heard for a URL.
   */
  datatype World = World(
    issued: map<string, string>, live: map<string, string>, registered: map<string, string>,
    bridge: BridgeMap, reported: map<string, string>)

  datatype Step = Restart(url: string, id: string) | Register(url: string) | Query(url: string)

  predicate Enabled(fleet: Fleet, w: World, s: Step) {
    && s.url in fleet.urls
    && match s
       case Restart(_, id) => id !in w.issued
       case Register(url) => url in w.live
       case Query(url) => fleet.address(url) in w.registered
  }

  function Answer(fleet: Fleet, w: World, url: string): string
    requires fleet.address(url) in w.registered
  {
    w.registered[fleet.address(url)]
  }

  /** An awaited query and the write of its answer are one step. */
  function Next(fleet: Fleet, w: World, s: Step): World
    requires Enabled(fleet, w, s)
  {
    match s
    case Restart(url, id) => w.(live := w.live[url := id], issued := w.issued[id := url])
    case Register(url) => w.(registered := w.registered[fleet.address(url) := w.live[url]])
    case Query(url) =>
      w.(bridge := w.bridge.Put(Answer(fleet, w, url), url), reported := w.reported[url := Answer(fleet, w, url)])
  }

  const START := World(map[], map[], map[], Empty(), map[])

  /** Every id anyone knows was issued to the URL it is known for. */
  ghost predicate Owned(fleet: Fleet, w: World) {
    && (forall id :: id in w.bridge.at ==> id in w.issued && w.bridge.at[id] == w.issued[id])
    && (forall u :: u in w.live ==> w.live[u] in w.issued && w.issued[w.live[u]] == u)
    && (forall u :: u in fleet.urls && fleet.address(u) in w.registered ==>
          Answer(fleet, w, u) in w.issued && w.issued[Answer(fleet, w, u)] == u)
  }

  /** An id already in the bridge is never ahead of what was reported for its URL. */
  ghost predicate InStep(fleet: Fleet, w: World) {
    && (forall u :: u in fleet.urls && u in w.live && w.live[u] in w.bridge.at ==>
          fleet.address(u) in w.registered && Answer(fleet, w, u) == w.live[u])
    && (forall u :: u in fleet.urls && fleet.address(u) in w.registered && Answer(fleet, w, u) in w.bridge.at ==>
          u in w.reported && w.reported[u] == Answer(fleet, w, u))
  }

  ghost predicate Invariant(fleet: Fleet, w: World) {
    w.bridge.Valid() && Owned(fleet, w) && InStep(fleet, w) && LiveIsReported(w)
  }

  ghost predicate LiveIsReported(w: World) {
    NamesReported(w.bridge, w.reported)
  }

  lemma {:induction false} NextKeepsInvariant(fleet: Fleet, w: World, s: Step)
    requires Separate(fleet) && Invariant(fleet, w) && Enabled(fleet, w, s)
    ensures Invariant(fleet, Next(fleet, w, s))
  {
    match s
    case Restart(_, _) =>
    case Register(_) =>
    case Query(url) => QueryKeepsInvariant(fleet, w, url);
  }

  lemma {:induction false} QueryKeepsInvariant(fleet: Fleet, w: World, url: string)
    requires Separate(fleet) && Invariant(fleet, w) && Enabled(fleet, w, Query(url))
    ensures Invariant(fleet, Next(fleet, w, Query(url)))
  {
    if Answer(fleet, w, url) in w.bridge.at {
      KnownAnswerChangesNothing(fleet, w, url);
    } else {
      NewAnswerKeepsOwned(fleet, w, url);
      NewAnswerKeepsInStep(fleet, w, url);
      NewAnswerIsLive(fleet, w, url);
      hide Owned, InStep, LiveIsReported;
    }
  }

  lemma {:induction false} NewAnswerKeepsOwned(fleet: Fleet, w: World, url: string)
    requires Owned(fleet, w) && Enabled(fleet, w, Query(url))
    ensures Owned(fleet, Next(fleet, w, Query(url)))
  {
  }

  lemma {:induction false} NewAnswerKeepsInStep(fleet: Fleet, w: World, url: string)
    requires Separate(fleet) && Owned(fleet, w) && InStep(fleet, w) && Enabled(fleet, w, Query(url))
    ensures InStep(fleet, Next(fleet, w, Query(url)))
  {
    hide NoDuplicates;
  }

  lemma {:induction false} KnownAnswerChangesNothing(fleet: Fleet, w: World, url: string)
    requires Invariant(fleet, w) && Enabled(fleet, w, Query(url)) && Answer(fleet, w, url) in w.bridge.at
    ensures Next(fleet, w, Query(url)) == w
  {
    var id := Answer(fleet, w, url);
    assert w.bridge.at[id := url] == w.bridge.at;
    assert w.reported[url := id] == w.reported;
  }

  lemma {:induction false} NewAnswerIsLive(fleet: Fleet, w: World, url: string)
    requires w.bridge.Valid() && LiveIsReported(w) && Enabled(fleet, w, Query(url))
    requires Answer(fleet, w, url) !in w.bridge.at
    ensures LiveIsReported(Next(fleet, w, Query(url)))
  {
    var after := Next(fleet, w, Query(url));
    forall u ensures Live(after.bridge, u) == if u in after.reported then Some(after.reported[u]) else None {
      FreshIdIsLive(w.bridge, Answer(fleet, w, url), url, u);
    }
  }

  predicate Possible(fleet: Fleet, steps: seq<Step>)
    decreases |steps|, 0
  {
    || steps == []
    || (Possible(fleet, steps[..|steps| - 1])
        && Enabled(fleet, Reached(fleet, steps[..|steps| - 1]), steps[|steps| - 1]))
  }

  function Reached(fleet: Fleet, steps: seq<Step>): World
    requires Possible(fleet, steps)
    decreases |steps|, 1
  {
    if steps == [] then START
    else Next(fleet, Reached(fleet, steps[..|steps| - 1]), steps[|steps| - 1])
  }

  lemma {:induction false} OneMoreStep(fleet: Fleet, steps: seq<Step>, s: Step)
    requires Possible(fleet, steps) && Enabled(fleet, Reached(fleet, steps), s)
    ensures Possible(fleet, steps + [s])
    ensures Reached(fleet, steps + [s]) == Next(fleet, Reached(fleet, steps), s)
  {
    hide Enabled, Next;
    assert (steps + [s])[..|steps|] == steps;
  }

  /** Over any interleaving of restarts, registrations and queries, the bridge's live id is the one last reported. */
  lemma {:induction false} BridgeNamesLastReported(fleet: Fleet, steps: seq<Step>)
    requires Separate(fleet) && Possible(fleet, steps)
    ensures Invariant(fleet, Reached(fleet, steps)) && LiveIsReported(Reached(fleet, steps))
    decreases |steps|
  {
    if steps != [] {
      var before := steps[..|steps| - 1];
      BridgeNamesLastReported(fleet, before);
      NextKeepsInvariant(fleet, Reached(fleet, before), steps[|steps| - 1]);
    }
  }

  /** One engine reported, then a query of another at the same address: the first URL has lost its id. */
  lemma {:induction false} SharedAddressLosesId(fleet: Fleet, u: string, v: string) returns (steps: seq<Step>)
    requires u in fleet.urls && v in fleet.urls && u != v && fleet.address(u) == fleet.address(v)
    ensures Possible(fleet, steps) && !LiveIsReported(Reached(fleet, steps))
  {
    OneMoreStep(fleet, [], Restart(u, "x"));
    var one: seq<Step> := [] + [Restart(u, "x")];
    OneMoreStep(fleet, one, Register(u));
    var two := one + [Register(u)];
    OneMoreStep(fleet, two, Query(u));
    var three := two + [Query(u)];
    OneMoreStep(fleet, three, Query(v));
    steps := three + [Query(v)];
    var w := Reached(fleet, three);
    hide Possible, Reached, Enabled;
    assert w.bridge == Empty().Put("x", u) && w.reported == map[u := "x"];
    FreshIdIsLive(Empty(), "x", u, u);
    WriteLeavesOthers(w.bridge, "x", v, u);
  }

  /** The bridge names the last reported ids over every run if and only if no two engines share an address. */
  lemma {:induction false} AlwaysReportedIffSeparate(fleet: Fleet)
    ensures (forall steps :: Possible(fleet, steps) ==> LiveIsReported(Reached(fleet, steps))) <==> Separate(fleet)
  {
    hide Possible, Reached, LiveIsReported, Invariant;
    if Separate(fleet) {
      forall steps | Possible(fleet, steps) ensures LiveIsReported(Reached(fleet, steps)) {
        BridgeNamesLastReported(fleet, steps);
      }
    } else {
      var u, v :| u in fleet.urls && v in fleet.urls && fleet.address(u) == fleet.address(v) && u != v;
      var steps := SharedAddressLosesId(fleet, u, v);
    }
  }

  /** An id older than the last reported one never contributes: only the reported id's match is ever read. */
  lemma {:induction false} OnlyReportedIdCredited(w: World, layout: Layout, other: Layout, matched: map<string, nat>,
                                                  matched': map<string, nat>)
    requires LiveIsReported(w)
    requires CreditsLive(w.bridge, layout, matched) && CreditsLive(w.bridge, other, matched')
    requires forall u :: u in w.reported ==>
      var id := w.reported[u];
      (id in layout.at <==> id in other.at) && (id in layout.at ==> layout.at[id].1 == other.at[id].1)
    ensures matched == matched'
  {
    forall u ensures u in matched <==> u in matched' { }
    forall u | u in matched ensures matched[u] == matched'[u] { }
  }

  /** A query makes the URL's credit its live engine's own exactly when the registration is no longer behind. */
  lemma {:induction false} QueriedEngineIsLiveIff(fleet: Fleet, steps: seq<Step>, url: string)
    requires Separate(fleet) && Possible(fleet, steps) && Enabled(fleet, Reached(fleet, steps), Query(url))
    requires url in Reached(fleet, steps).live
    ensures var w := Reached(fleet, steps);
      Live(Next(fleet, w, Query(url)).bridge, url) == Some(w.live[url]) <==> Answer(fleet, w, url) == w.live[url]
  {
    BridgeNamesLastReported(fleet, steps);
    NextKeepsInvariant(fleet, Reached(fleet, steps), Query(url));
  }

  /** The URLs queried from step `m` on, in order. */
  function Asked(steps: seq<Step>, m: nat): (urls: seq<string>)
    decreases |steps|
  {
    if |steps| <= m then []
    else
      var n := |steps| - 1;
      Asked(steps[..n], m) + if steps[n].Query? then [steps[n].url] else []
  }

  /** What the Controller answered to those queries, each at its own moment. */
  function Heard(fleet: Fleet, steps: seq<Step>, m: nat): (ids: seq<string>)
    requires Possible(fleet, steps)
    ensures |ids| == |Asked(steps, m)|
    decreases |steps|
  {
    if |steps| <= m then []
    else
      var n := |steps| - 1;
      Heard(fleet, steps[..n], m) +
      if steps[n].Query? then [Answer(fleet, Reached(fleet, steps[..n]), steps[n].url)] else []
  }

  /** However restarts and registrations fall between its queries, a refresh writes exactly the answers it heard. */
  lemma {:induction false} RefreshIsItsAnswers(fleet: Fleet, steps: seq<Step>, m: nat)
    requires m <= |steps| && Possible(fleet, steps) && Possible(fleet, steps[..m])
    ensures Reached(fleet, steps).bridge ==
            Refreshed(Reached(fleet, steps[..m]).bridge, Asked(steps, m), Heard(fleet, steps, m))
    decreases |steps|
  {
    if m == |steps| {
      assert steps[..m] == steps;
    } else {
      var n := |steps| - 1;
      var before := steps[..n];
      assert before[..m] == steps[..m];
      RefreshIsItsAnswers(fleet, before, m);
      var asked, heard := Asked(before, m), Heard(fleet, before, m);
      if steps[n].Query? {
        RefreshedSnoc(Reached(fleet, steps[..m]).bridge, asked, heard, steps[n].url,
                      Answer(fleet, Reached(fleet, before), steps[n].url));
      } else {
        assert Asked(steps, m) == asked && Heard(fleet, steps, m) == heard;
      }
    }
  }
}
