/** `refresh_instance_map`: when it runs, what it writes, and what an arbitrary series of answers does to the bridge. */
module BridgeRefresh {
  import opened PyDict
  import opened Bridge
  import opened PrefixMatch

  /** `instance_map_is_stale`. */
  predicate IsStale(bridge: BridgeMap, endpoints: seq<string>, layout: Layout) {
    || (exists i :: 0 <= i < |endpoints| && endpoints[i] !in bridge.at.Values)
    || (exists i :: 0 <= i < |layout.keys| && layout.keys[i] !in bridge.at)
  }

  /** No refresh is due exactly when every endpoint has a live id and every named holder is known. */
  lemma {:induction false} FreshIff(bridge: BridgeMap, endpoints: seq<string>, layout: Layout)
    requires bridge.Valid() && layout.Valid()
    ensures !IsStale(bridge, endpoints, layout) <==>
            && (forall url :: url in endpoints ==> Live(bridge, url).Some?)
            && (forall id :: id in layout.at ==> id in bridge.at)
  {
    forall url ensures Live(bridge, url).Some? <==> url in bridge.at.Values {
      if url in bridge.at.Values {
        var id :| id in bridge.at && bridge.at[id] == url;
        assert id in bridge.keys;
      }
    }
    if !IsStale(bridge, endpoints, layout) {
      forall url | url in endpoints ensures Live(bridge, url).Some? {
        var i :| 0 <= i < |endpoints| && endpoints[i] == url;
      }
      forall id | id in layout.at ensures id in bridge.at {
        assert id in layout.keys;
        var i :| 0 <= i < |layout.keys| && layout.keys[i] == id;
      }
    }
  }

  /** The refresh loop's writes: endpoint `i`'s answer is `answers[i]`. */
  function Refreshed(bridge: BridgeMap, endpoints: seq<string>, answers: seq<string>): (r: BridgeMap)
    requires |endpoints| == |answers|
    ensures bridge.Valid() ==> r.Valid()
    ensures r.at.Keys == bridge.at.Keys + Elements(answers)
    decreases |endpoints|
  {
    if endpoints == [] then bridge
    else
      var n := |endpoints| - 1;
      assert answers == answers[..n] + [answers[n]];
      Refreshed(bridge, endpoints[..n], answers[..n]).Put(answers[n], endpoints[n])
  }

  lemma RefreshedSnoc(bridge: BridgeMap, endpoints: seq<string>, answers: seq<string>, url: string, id: string)
    requires |endpoints| == |answers|
    ensures Refreshed(bridge, endpoints + [url], answers + [id]) == Refreshed(bridge, endpoints, answers).Put(id, url)
  {
    assert (endpoints + [url])[..|endpoints|] == endpoints && (answers + [id])[..|answers|] == answers;
  }

  lemma RefreshedOneMore(bridge: BridgeMap, endpoints: seq<string>, answers: seq<string>, n: nat)
    requires |endpoints| == |answers| && n < |endpoints|
    ensures Refreshed(bridge, endpoints[..n + 1], answers[..n + 1]) ==
            Refreshed(bridge, endpoints[..n], answers[..n]).Put(answers[n], endpoints[n])
  {
    assert endpoints[..n + 1] == endpoints[..n] + [endpoints[n]] && answers[..n + 1] == answers[..n] + [answers[n]];
    RefreshedSnoc(bridge, endpoints[..n], answers[..n], endpoints[n], answers[n]);
  }

  lemma {:induction false} LastWrite(bridge: BridgeMap, endpoints: seq<string>, answers: seq<string>)
    requires |endpoints| == |answers| && endpoints != []
    ensures var n := |endpoints| - 1;
      && Refreshed(bridge, endpoints, answers) ==
         Refreshed(bridge, endpoints[..n], answers[..n]).Put(answers[n], endpoints[n])
      && answers == answers[..n] + [answers[n]]
  {
  }

  /** Every answered id maps to the last endpoint that answered it. */
  lemma {:induction false} RefreshedAt(bridge: BridgeMap, endpoints: seq<string>, answers: seq<string>, i: nat)
    requires |endpoints| == |answers| && i < |endpoints| && answers[i] !in answers[i + 1..]
    ensures answers[i] in Refreshed(bridge, endpoints, answers).at
    ensures Refreshed(bridge, endpoints, answers).at[answers[i]] == endpoints[i]
    decreases |endpoints|
  {
    hide Refreshed, NoDuplicates, Elements;
    LastWrite(bridge, endpoints, answers);
    var n := |endpoints| - 1;
    if i < n {
      var before, fewer := endpoints[..n], answers[..n];
      assert answers[i + 1..] == fewer[i + 1..] + [answers[n]];
      assert fewer[i] == answers[i] && before[i] == endpoints[i];
      RefreshedAt(bridge, before, fewer, i);
    }
  }

  /** An id nobody answered keeps its entry, or its absence. */
  lemma {:induction false} RefreshedFrame(bridge: BridgeMap, endpoints: seq<string>, answers: seq<string>, id: string)
    requires |endpoints| == |answers| && id !in answers
    ensures id in Refreshed(bridge, endpoints, answers).at <==> id in bridge.at
    ensures id in bridge.at ==> Refreshed(bridge, endpoints, answers).at[id] == bridge.at[id]
    decreases |endpoints|
  {
    if endpoints != [] {
      var n := |endpoints| - 1;
      assert answers == answers[..n] + [answers[n]];
      RefreshedFrame(bridge, endpoints[..n], answers[..n], id);
    }
  }

  lemma {:induction false} LastAnswer(answers: seq<string>, id: string) returns (i: nat)
    requires id in answers
    ensures i < |answers| && answers[i] == id && id !in answers[i + 1..]
  {
    if id in answers[1..] {
      i := LastAnswer(answers[1..], id);
      assert answers[1..][i + 1..] == answers[i + 2..];
      i := i + 1;
    } else {
      i := 0;
    }
  }

  /** Some id will map to `url`: an old one nobody answers, or one that `url`'s endpoint is the last to answer. */
  ghost predicate Covered(bridge: BridgeMap, endpoints: seq<string>, answers: seq<string>, url: string)
    requires |endpoints| == |answers|
  {
    || (exists id :: id in bridge.at && id !in answers && bridge.at[id] == url)
    || (exists j :: 0 <= j < |endpoints| && endpoints[j] == url && answers[j] !in answers[j + 1..])
  }

  lemma {:induction false} MappedIffCovered(bridge: BridgeMap, endpoints: seq<string>, answers: seq<string>,
                                            url: string)
    requires |endpoints| == |answers|
    ensures url in Refreshed(bridge, endpoints, answers).at.Values <==> Covered(bridge, endpoints, answers, url)
  {
    var after := Refreshed(bridge, endpoints, answers);
    hide Refreshed;
    if url in after.at.Values {
      var id :| id in after.at && after.at[id] == url;
      if id in answers {
        var j := LastAnswer(answers, id);
        RefreshedAt(bridge, endpoints, answers, j);
      } else {
        RefreshedFrame(bridge, endpoints, answers, id);
      }
    }
    if id :| id in bridge.at && id !in answers && bridge.at[id] == url {
      RefreshedFrame(bridge, endpoints, answers, id);
    }
    if j :| 0 <= j < |endpoints| && endpoints[j] == url && answers[j] !in answers[j + 1..] {
      RefreshedAt(bridge, endpoints, answers, j);
    }
  }

  /** A holder nobody knew and nobody answered, or an endpoint no id will map to. */
  ghost predicate StaysStale(bridge: BridgeMap, endpoints: seq<string>, answers: seq<string>, layout: Layout)
    requires |endpoints| == |answers|
  {
    || (exists i :: 0 <= i < |layout.keys| && layout.keys[i] !in bridge.at && layout.keys[i] !in answers)
    || (exists i :: 0 <= i < |endpoints| && !Covered(bridge, endpoints, answers, endpoints[i]))
  }

  /** After a refresh with any answers, the bridge is stale exactly when a holder or an endpoint is left out. */
  lemma {:induction false} StaleAfterRefreshIff(bridge: BridgeMap, endpoints: seq<string>, answers: seq<string>,
                                                layout: Layout)
    requires |endpoints| == |answers|
    ensures IsStale(Refreshed(bridge, endpoints, answers), endpoints, layout) <==>
            StaysStale(bridge, endpoints, answers, layout)
  {
    hide Refreshed, Covered;
    forall i | 0 <= i < |endpoints|
      ensures endpoints[i] in Refreshed(bridge, endpoints, answers).at.Values <==>
              Covered(bridge, endpoints, answers, endpoints[i])
    {
      MappedIffCovered(bridge, endpoints, answers, endpoints[i]);
    }
  }

  /** An endpoint whose id a later endpoint answers too is left unmapped, whatever the lookup named. */
  lemma {:induction false} SharedIdStaysStale(endpoints: seq<string>, answers: seq<string>, layout: Layout, i: nat,
                                              j: nat)
    requires |endpoints| == |answers| && NoDuplicates(endpoints)
    requires i < j < |endpoints| && answers[i] == answers[j]
    ensures IsStale(Refreshed(Empty(), endpoints, answers), endpoints, layout)
  {
    hide Refreshed, IsStale;
    assert answers[i + 1..][j - i - 1] == answers[i];
    assert !Covered(Empty(), endpoints, answers, endpoints[i]);
    StaleAfterRefreshIff(Empty(), endpoints, answers, layout);
  }

  /** Two endpoints behind one address: every holder is known after the refresh, and the bridge is still stale. */
  lemma {:induction false} SharedAddressStaysStale()
    ensures IsStale(Refreshed(Empty(), ["u1", "u2"], ["x", "x"]), ["u1", "u2"], Dict(["x"], map["x" := ("cpu", 4)]))
    ensures Refreshed(Empty(), ["u1", "u2"], ["x", "x"]).at.Keys == {"x"}
  {
    assert "u1" != "u2" by { assert "u1"[1] != "u2"[1]; }
    hide Refreshed, IsStale;
    SharedIdStaysStale(["u1", "u2"], ["x", "x"], Dict(["x"], map["x" := ("cpu", 4)]), 0, 1);
  }

  lemma {:induction false} KnownAnswersKeepKeys(bridge: BridgeMap, endpoints: seq<string>, answers: seq<string>)
    requires |endpoints| == |answers| && forall id :: id in answers ==> id in bridge.at
    ensures Refreshed(bridge, endpoints, answers).keys == bridge.keys
    decreases |endpoints|
  {
    if endpoints != [] {
      var n := |endpoints| - 1;
      assert answers == answers[..n] + [answers[n]];
      KnownAnswersKeepKeys(bridge, endpoints[..n], answers[..n]);
    }
  }

  /** Hearing the same answers again changes nothing. */
  lemma {:induction false} RefreshTwice(bridge: BridgeMap, endpoints: seq<string>, answers: seq<string>)
    requires |endpoints| == |answers|
    ensures Refreshed(Refreshed(bridge, endpoints, answers), endpoints, answers) ==
            Refreshed(bridge, endpoints, answers)
  {
    var once := Refreshed(bridge, endpoints, answers);
    var twice := Refreshed(once, endpoints, answers);
    KnownAnswersKeepKeys(once, endpoints, answers);
    hide Refreshed;
    forall id | id in twice.at ensures twice.at[id] == once.at[id] {
      if id in answers {
        var j := LastAnswer(answers, id);
        RefreshedAt(bridge, endpoints, answers, j);
        RefreshedAt(once, endpoints, answers, j);
      } else {
        RefreshedFrame(once, endpoints, answers, id);
      }
    }
    SameDict(twice, once);
  }

  /** The bridge after requests with these lookup answers, each endpoint answering the same id throughout. */
  function Served(bridge: BridgeMap, endpoints: seq<string>, answers: seq<string>, layouts: seq<Layout>): BridgeMap
    requires |endpoints| == |answers|
    decreases |layouts|
  {
    if layouts == [] then bridge
    else
      var n := |layouts| - 1;
      var before := Served(bridge, endpoints, answers, layouts[..n]);
      if IsStale(before, endpoints, layouts[n]) then Refreshed(before, endpoints, answers) else before
  }

  /** Whether any of those requests queried the endpoints. */
  function Queried(bridge: BridgeMap, endpoints: seq<string>, answers: seq<string>, layouts: seq<Layout>): bool
    requires |endpoints| == |answers|
    decreases |layouts|
  {
    layouts != [] &&
    var n := |layouts| - 1;
    || Queried(bridge, endpoints, answers, layouts[..n])
    || IsStale(Served(bridge, endpoints, answers, layouts[..n]), endpoints, layouts[n])
  }

  lemma {:induction false} ServedIsRefreshedOnce(bridge: BridgeMap, endpoints: seq<string>, answers: seq<string>,
                                                 layouts: seq<Layout>)
    requires |endpoints| == |answers|
    ensures Served(bridge, endpoints, answers, layouts) ==
            if Queried(bridge, endpoints, answers, layouts) then Refreshed(bridge, endpoints, answers) else bridge
    decreases |layouts|
  {
    hide Refreshed, IsStale;
    if layouts != [] {
      ServedIsRefreshedOnce(bridge, endpoints, answers, layouts[..|layouts| - 1]);
      RefreshTwice(bridge, endpoints, answers);
    }
  }

  /**
   * Once per fleet change: on an unchanged fleet, a request after one that queried queries again if and only if a
   * holder stays unknown or an endpoint unmapped.
   */
  lemma {:induction false} QueriesAgainIff(bridge: BridgeMap, endpoints: seq<string>, answers: seq<string>,
                                           layouts: seq<Layout>, layout: Layout)
    requires |endpoints| == |answers| && Queried(bridge, endpoints, answers, layouts)
    ensures IsStale(Served(bridge, endpoints, answers, layouts), endpoints, layout) <==>
            StaysStale(bridge, endpoints, answers, layout)
  {
    hide *;
    ServedIsRefreshedOnce(bridge, endpoints, answers, layouts);
    StaleAfterRefreshIff(bridge, endpoints, answers, layout);
  }

  /** What was last reported for each URL. */
  function Reported(urls: seq<string>, ids: seq<string>): map<string, string>
    requires |urls| == |ids|
    decreases |urls|
  {
    if urls == [] then map[]
    else
      var n := |urls| - 1;
      Reported(urls[..n], ids[..n])[urls[n] := ids[n]]
  }

  /** Inverting the bridge gives every URL the id last reported for it. */
  ghost predicate NamesReported(bridge: BridgeMap, reported: map<string, string>) {
    forall u :: Live(bridge, u) == if u in reported then Some(reported[u]) else None
  }

  /** The id is neither listed before another id of this URL nor another URL's live id. */
  ghost predicate Takes(bridge: BridgeMap, id: string, url: string)
    requires bridge.Valid()
  {
    !Behind(bridge, id, url) && (id in bridge.at && bridge.at[id] != url ==> Live(bridge, bridge.at[id]) != Some(id))
  }

  lemma {:induction false} WriteNamesIff(bridge: BridgeMap, reported: map<string, string>, id: string, url: string)
    requires bridge.Valid() && NamesReported(bridge, reported)
    ensures NamesReported(bridge.Put(id, url), reported[url := id]) <==> Takes(bridge, id, url)
  {
    var after := bridge.Put(id, url);
    WrittenIdIsLiveIff(bridge, id, url);
    forall other | other != url ensures Live(after, other) == Live(bridge, other) <==> Live(bridge, other) != Some(id) {
      WriteLeavesOthers(bridge, id, url, other);
    }
    hide Behind;
    if NamesReported(after, reported[url := id]) {
      assert Live(after, url) == Some(id);
      if id in bridge.at && bridge.at[id] != url {
        assert Live(after, bridge.at[id]) == Live(bridge, bridge.at[id]);
      }
    } else {
      var u :| Live(after, u) != if u in reported[url := id] then Some(reported[url := id][u]) else None;
      if u != url { assert Live(bridge, u) == Some(id); }
    }
  }

  /** After every one of the writes, the bridge names the last reported ids. */
  ghost predicate AlwaysNames(urls: seq<string>, ids: seq<string>)
    requires |urls| == |ids|
  {
    forall n :: 0 <= n <= |ids| ==>
      NamesReported(Refreshed(Empty(), urls[..n], ids[..n]), Reported(urls[..n], ids[..n]))
  }

  ghost predicate EveryWriteTakes(urls: seq<string>, ids: seq<string>)
    requires |urls| == |ids|
  {
    forall n :: 0 <= n < |ids| ==> Takes(Refreshed(Empty(), urls[..n], ids[..n]), ids[n], urls[n])
  }

  lemma {:induction false} StateAfterOneMore(urls: seq<string>, ids: seq<string>, n: nat)
    requires |urls| == |ids| && n < |ids|
    ensures Refreshed(Empty(), urls[..n], ids[..n]).Valid()
    ensures Refreshed(Empty(), urls[..n + 1], ids[..n + 1]) ==
            Refreshed(Empty(), urls[..n], ids[..n]).Put(ids[n], urls[n])
    ensures Reported(urls[..n + 1], ids[..n + 1]) == Reported(urls[..n], ids[..n])[urls[n] := ids[n]]
  {
    hide Refreshed, NoDuplicates, Elements;
    RefreshedOneMore(Empty(), urls, ids, n);
    assert urls[..n + 1][..n] == urls[..n] && ids[..n + 1][..n] == ids[..n];
  }

  lemma {:induction false} OneMoreWrite(urls: seq<string>, ids: seq<string>, n: nat)
    requires |urls| == |ids| && n < |ids|
    requires NamesReported(Refreshed(Empty(), urls[..n], ids[..n]), Reported(urls[..n], ids[..n]))
    ensures Refreshed(Empty(), urls[..n], ids[..n]).Valid()
    ensures NamesReported(Refreshed(Empty(), urls[..n + 1], ids[..n + 1]), Reported(urls[..n + 1], ids[..n + 1])) <==>
            Takes(Refreshed(Empty(), urls[..n], ids[..n]), ids[n], urls[n])
  {
    hide *;
    StateAfterOneMore(urls, ids, n);
    WriteNamesIff(Refreshed(Empty(), urls[..n], ids[..n]), Reported(urls[..n], ids[..n]), ids[n], urls[n]);
  }

  lemma {:induction false} TakenPrefix(urls: seq<string>, ids: seq<string>, n: nat)
    requires |urls| == |ids| && n <= |ids| && EveryWriteTakes(urls, ids)
    ensures NamesReported(Refreshed(Empty(), urls[..n], ids[..n]), Reported(urls[..n], ids[..n]))
  {
    if n == 0 {
      assert urls[..0] == [] && ids[..0] == [];
    } else {
      TakenPrefix(urls, ids, n - 1);
      assert Takes(Refreshed(Empty(), urls[..n - 1], ids[..n - 1]), ids[n - 1], urls[n - 1]);
      hide *;
      OneMoreWrite(urls, ids, n - 1);
    }
  }

  /**
   * Whatever is answered, for whatever URL: the bridge names the last reported ids throughout if and only if no
   * answer is listed before another id of its URL and none is another URL's live id.
   */
  lemma {:induction false} AlwaysNamesIff(urls: seq<string>, ids: seq<string>)
    requires |urls| == |ids|
    ensures AlwaysNames(urls, ids) <==> EveryWriteTakes(urls, ids)
  {
    hide NamesReported, Takes, Reported, Refreshed;
    if AlwaysNames(urls, ids) {
      forall n | 0 <= n < |ids| ensures Takes(Refreshed(Empty(), urls[..n], ids[..n]), ids[n], urls[n]) {
        assert 0 <= n + 1 <= |ids|;
        OneMoreWrite(urls, ids, n);
      }
    }
    if EveryWriteTakes(urls, ids) {
      forall n | 0 <= n <= |ids|
        ensures NamesReported(Refreshed(Empty(), urls[..n], ids[..n]), Reported(urls[..n], ids[..n]))
      {
        TakenPrefix(urls, ids, n);
      }
    }
  }

  /** Two endpoints behind one address: the second report takes the id away from the first URL. */
  lemma {:induction false} SharedAddressTakesId()
    ensures !AlwaysNames(["u1", "u2"], ["x", "x"])
  {
    var urls, ids := ["u1", "u2"], ["x", "x"];
    var first := Refreshed(Empty(), urls[..1], ids[..1]);
    StateAfterOneMore(urls, ids, 0);
    assert urls[..0] == [] && ids[..0] == [];
    assert first == Empty().Put("x", "u1");
    FreshIdIsLive(Empty(), "x", "u1", "u1");
    assert "u1" != "u2" by { assert "u1"[1] != "u2"[1]; }
    assert !Takes(first, ids[1], urls[1]);
    AlwaysNamesIff(urls, ids);
  }
}
