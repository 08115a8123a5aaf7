/** The router object: one mutable bridge, and the two routing decisions that use it. */
module LoadAwareRouter {
  import opened PyDict
  import opened Sorting
  import opened PrefixMatch
  import opened LoadAware
  import opened Bridge
  import opened BridgeRefresh
  import U = UpstreamLookup

  class Router {
    var instanceIdToIp: BridgeMap
    const beta: real
    const threshold: int

    ghost predicate Valid()
      reads this
    {
      instanceIdToIp.Valid()
    }

    constructor (beta: real, threshold: int)
      ensures Valid() && instanceIdToIp == Empty()
      ensures this.beta == beta && this.threshold == threshold
    {
      instanceIdToIp := Empty();
      this.beta := beta;
      this.threshold := threshold;
    }

    /** `{url: iid for iid, url in self.instance_id_to_ip.items()}`. */
    method UrlToInstance() returns (inverse: Dict<string, string>)
      requires Valid()
      ensures Inverts(instanceIdToIp, instanceIdToIp.keys, inverse)
    {
      var bridge := instanceIdToIp;
      inverse := Empty();
      for i := 0 to |bridge.keys|
        invariant Inverts(bridge, bridge.keys[..i], inverse)
      {
        var id := bridge.keys[i];
        InvertStep(bridge, i, inverse);
        inverse := inverse.Put(bridge.at[id], id);
      }
      assert bridge.keys[..|bridge.keys|] == bridge.keys;
    }

    /** Credit by URL, through the live id of each URL only. */
    method MatchedTokensByUrl(layout: Layout) returns (matched: map<string, nat>)
      requires Valid()
      ensures CreditsLive(instanceIdToIp, layout, matched)
    {
      var urlToInstance := UrlToInstance();
      matched := map[];
      var urls := urlToInstance.keys;
      for i := 0 to |urls|
        invariant forall url :: url in matched <==> url in urls[..i] && urlToInstance.at[url] in layout.at
        invariant forall url :: url in matched ==> matched[url] == layout.at[urlToInstance.at[url]].1
      {
        var url := urls[i];
        assert urls[..i + 1] == urls[..i] + [url];
        if urlToInstance.at[url] in layout.at {
          matched := matched[url := layout.at[urlToInstance.at[url]].1];
        }
      }
      assert urls[..|urls|] == urls;
    }

    /** The placement decision. */
    method SelectUrl(endpoints: seq<string>, stats: Stats, layout: Layout, promptTokens: nat)
      returns (url: Option<string>, ghost matched: map<string, nat>)
      requires Valid()
      ensures CreditsLive(instanceIdToIp, layout, matched)
      ensures url.None? <==> endpoints == []
      ensures url.Some? ==> IsChoice(Request(endpoints, stats, matched, promptTokens, beta), url.value)
    {
      var matchedByUrl := MatchedTokensByUrl(layout);
      matched := matchedByUrl;
      var q := Request(endpoints, stats, matchedByUrl, promptTokens, beta);
      var order := SortedStrings(endpoints);
      url := BestInOrder(q, order);
    }

    /** The loop of `select_url` over the sorted endpoints; `None` stands for the score minus infinity. */
    method BestInOrder(q: Request, order: seq<string>) returns (url: Option<string>)
      requires forall u :: u in order <==> u in q.endpoints
      requires forall i, j :: 0 <= i < j < |order| ==> StrLe(order[i], order[j])
      ensures url.None? <==> q.endpoints == []
      ensures url.Some? ==> IsChoice(q, url.value)
    {
      assert order == [] <==> q.endpoints == [] by {
        if q.endpoints != [] { assert q.endpoints[0] in order; }
        if order != [] { assert order[0] in q.endpoints; }
      }
      url := None;
      var bestScore := 0.0;
      for i := 0 to |order|
        invariant url.None? <==> i == 0
        invariant url.Some? ==> exists k :: 0 <= k < i && order[k] == url.value
        invariant url.Some? ==> q.endpoints != [] && bestScore == q.Score(url.value)
        invariant url.Some? ==> forall k :: 0 <= k < i ==>
          q.Score(order[k]) <= bestScore && (q.Score(order[k]) == bestScore ==> StrLe(url.value, order[k]))
      {
        assert order[i] in order;
        var score := q.Score(order[i]);
        StrLeTotal(order[i], order[i]);
        if url.None? || score > bestScore {
          bestScore := score;
          url := Some(order[i]);
        }
      }
      if url.Some? {
        forall v | v in q.endpoints
          ensures q.Score(v) <= q.Score(url.value) && (q.Score(v) == q.Score(url.value) ==> StrLe(url.value, v))
        {
          assert v in order;
          var k :| 0 <= k < |order| && order[k] == v;
        }
      }
    }

    /** One Controller query per endpoint, each followed by its write, and only when the bridge is stale. */
    method RefreshInstanceMap(endpoints: seq<string>, layout: Layout, answers: seq<string>) returns (queries: nat)
      requires Valid() && |answers| == |endpoints|
      modifies this
      ensures Valid()
      ensures IsStale(old(instanceIdToIp), endpoints, layout) ==>
        instanceIdToIp == Refreshed(old(instanceIdToIp), endpoints, answers) && queries == |endpoints|
      ensures !IsStale(old(instanceIdToIp), endpoints, layout) ==>
        instanceIdToIp == old(instanceIdToIp) && queries == 0
    {
      queries := 0;
      if !IsStale(instanceIdToIp, endpoints, layout) { return; }
      queries := QueryEvery(endpoints, answers);
    }

    method QueryEvery(endpoints: seq<string>, answers: seq<string>) returns (queries: nat)
      requires Valid() && |answers| == |endpoints|
      modifies this
      ensures Valid() && queries == |endpoints|
      ensures instanceIdToIp == Refreshed(old(instanceIdToIp), endpoints, answers)
    {
      queries := 0;
      for i := 0 to |endpoints|
        invariant queries == i && Valid()
        invariant instanceIdToIp == Refreshed(old(instanceIdToIp), endpoints[..i], answers[..i])
      {
        assert endpoints[..i + 1][..i] == endpoints[..i] && answers[..i + 1][..i] == answers[..i];
        instanceIdToIp := instanceIdToIp.Put(answers[i], endpoints[i]);
        queries := queries + 1;
      }
      assert endpoints[..|endpoints|] == endpoints && answers[..|answers|] == answers;
    }

    /** `LoadAwareRouter.route_request`, from the lookup's answer on. `fallback` is the session-hash or QPS route. */
    method RouteRequest(endpoints: seq<string>, stats: Stats, reply: Option<Layout>, promptTokens: nat,
                        answers: seq<string>, fallback: string)
      returns (url: string, queries: nat, ghost matched: map<string, nat>)
      requires Valid() && |answers| == |endpoints|
      modifies this
      ensures Valid()
      ensures reply.None? || reply.value.keys == [] ==>
        url == fallback && queries == 0 && instanceIdToIp == old(instanceIdToIp)
      ensures reply.Some? && reply.value.keys != [] ==>
        && CreditsLive(instanceIdToIp, reply.value, matched)
        && (if endpoints == [] then url == fallback
            else IsChoice(Request(endpoints, stats, matched, promptTokens, beta), url))
        && (if IsStale(old(instanceIdToIp), endpoints, reply.value)
            then instanceIdToIp == Refreshed(old(instanceIdToIp), endpoints, answers) && queries == |endpoints|
            else instanceIdToIp == old(instanceIdToIp) && queries == 0)
    {
      matched := map[];
      var layout := if reply.Some? then reply.value else Empty();
      if layout.keys == [] { return fallback, 0, matched; }
      queries := RefreshInstanceMap(endpoints, layout, answers);
      var best;
      best, matched := SelectUrl(endpoints, stats, layout, promptTokens);
      url := if best.Some? then best.value else fallback;
    }

    /**
     * `KvawareRouter.route_request`: the cache route exactly when at most `threshold` tokens of the prompt lie beyond
     * the first holder's credit. `None` is the `KeyError` for a holder no endpoint answers to.
     */
    method KvawareRouteRequest(endpoints: seq<string>, layout: Layout, promptTokens: nat, answers: seq<string>,
                               fallback: string)
      returns (url: Option<string>)
      requires Valid() && layout.Valid() && |answers| == |endpoints|
      modifies this
      ensures Valid()
      ensures layout.keys == [] || promptTokens - layout.at[layout.keys[0]].1 > threshold ==>
        url == Some(fallback) && instanceIdToIp == old(instanceIdToIp)
      ensures layout.keys != [] && promptTokens - layout.at[layout.keys[0]].1 <= threshold ==>
        var first := layout.keys[0];
        && (url.None? <==> first !in old(instanceIdToIp).at && first !in answers)
        && (url.Some? ==> first in instanceIdToIp.at && url == Some(instanceIdToIp.at[first]))
        && (first in old(instanceIdToIp).at ==> instanceIdToIp == old(instanceIdToIp))
        && (first !in old(instanceIdToIp).at ==>
              instanceIdToIp == Refreshed(old(instanceIdToIp), endpoints, answers))
    {
      if layout.keys == [] { return Some(fallback); }
      var first := layout.keys[0];
      if layout.at[first].1 < U.Max(promptTokens - threshold, 0) { return Some(fallback); }
      if first !in instanceIdToIp.at {
        var _ := QueryEvery(endpoints, answers);
      }
      url := if first in instanceIdToIp.at then Some(instanceIdToIp.at[first]) else None;
    }
  }

  function AfterRounds(bridge: BridgeMap, endpoints: seq<string>, rounds: seq<seq<string>>): BridgeMap
    requires forall r :: 0 <= r < |rounds| ==> |rounds[r]| == |endpoints|
    decreases |rounds|
  {
    if rounds == [] then bridge
    else
      var n := |rounds| - 1;
      assert forall r :: 0 <= r < n ==> rounds[..n][r] == rounds[r];
      Refreshed(AfterRounds(bridge, endpoints, rounds[..n]), endpoints, rounds[n])
  }

  lemma UnansweredStaysOut(bridge: BridgeMap, endpoints: seq<string>, answers: seq<string>, dead: string)
    requires |endpoints| == |answers| && dead !in bridge.at && dead !in answers
    ensures dead !in Refreshed(bridge, endpoints, answers).at
  {
  }

  lemma {:induction false} NeverAnsweredNeverMapped(bridge: BridgeMap, endpoints: seq<string>, rounds: seq<seq<string>>,
                                                    dead: string)
    requires dead !in bridge.at
    requires forall r :: 0 <= r < |rounds| ==> |rounds[r]| == |endpoints| && dead !in rounds[r]
    ensures dead !in AfterRounds(bridge, endpoints, rounds).at
    decreases |rounds|
  {
    hide Refreshed, NoDuplicates;
    if rounds != [] {
      var n := |rounds| - 1;
      assert forall r :: 0 <= r < n ==> rounds[..n][r] == rounds[r];
      NeverAnsweredNeverMapped(bridge, endpoints, rounds[..n], dead);
      UnansweredStaysOut(AfterRounds(bridge, endpoints, rounds[..n]), endpoints, rounds[n], dead);
    }
  }

  lemma UnknownHolderIsStale(bridge: BridgeMap, endpoints: seq<string>, layout: Layout, dead: string)
    requires layout.Valid() && dead in layout.at && dead !in bridge.at
    ensures IsStale(bridge, endpoints, layout)
  {
    assert dead in layout.keys;
    var i :| 0 <= i < |layout.keys| && layout.keys[i] == dead;
  }

  /** A holder no endpoint answers to keeps the bridge stale, so every later request queries every endpoint again. */
  lemma UnknownHolderStaysStale(bridge: BridgeMap, endpoints: seq<string>, rounds: seq<seq<string>>, layout: Layout,
                                dead: string)
    requires layout.Valid() && dead in layout.at && dead !in bridge.at
    requires forall r :: 0 <= r < |rounds| ==> |rounds[r]| == |endpoints| && dead !in rounds[r]
    ensures IsStale(AfterRounds(bridge, endpoints, rounds), endpoints, layout)
  {
    NeverAnsweredNeverMapped(bridge, endpoints, rounds, dead);
    UnknownHolderIsStale(AfterRounds(bridge, endpoints, rounds), endpoints, layout, dead);
  }
}
