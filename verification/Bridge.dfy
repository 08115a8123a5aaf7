/** The router's instance-id -> URL bridge: an insertion-ordered dict that only grows, read backwards. */
module Bridge {
  import opened PyDict
  import opened PrefixMatch

  type BridgeMap = Dict<string, string>

  /** `{url: iid for iid, url in bridge.items()}[url]`: the last id inserted for `url` wins. */
  function LiveId(bridge: BridgeMap, keys: seq<string>, url: string): (r: Option<string>)
    ensures r.Some? ==> r.value in keys && r.value in bridge.at && bridge.at[r.value] == url
    ensures r.None? ==> forall k :: k in keys && k in bridge.at ==> bridge.at[k] != url
    decreases |keys|
  {
    if keys == [] then None
    else
      var last := keys[|keys| - 1];
      assert keys == keys[..|keys| - 1] + [last];
      if last in bridge.at && bridge.at[last] == url then Some(last)
      else LiveId(bridge, keys[..|keys| - 1], url)
  }

  function Live(bridge: BridgeMap, url: string): Option<string> {
    LiveId(bridge, bridge.keys, url)
  }

  /** `inverse` maps each URL to the last of `keys` written for it, and maps nothing else. */
  ghost predicate Inverts(bridge: BridgeMap, keys: seq<string>, inverse: Dict<string, string>) {
    && inverse.Valid()
    && forall url :: LiveId(bridge, keys, url) == if url in inverse.at then Some(inverse.at[url]) else None
  }

  lemma {:induction false} InvertStep(bridge: BridgeMap, i: nat, inverse: Dict<string, string>)
    requires bridge.Valid() && i < |bridge.keys| && Inverts(bridge, bridge.keys[..i], inverse)
    ensures bridge.keys[i] in bridge.at
    ensures Inverts(bridge, bridge.keys[..i + 1], inverse.Put(bridge.at[bridge.keys[i]], bridge.keys[i]))
  {
    var longer := bridge.keys[..i + 1];
    assert longer[..i] == bridge.keys[..i] && longer[i] == bridge.keys[i];
  }

  lemma {:induction false} LiveIdFrame(a: BridgeMap, b: BridgeMap, keys: seq<string>, url: string)
    requires forall k :: k in keys ==> (k in a.at <==> k in b.at)
    requires forall k :: k in keys && k in a.at ==> (a.at[k] == url <==> b.at[k] == url)
    ensures LiveId(a, keys, url) == LiveId(b, keys, url)
    decreases |keys|
  {
    if keys != [] {
      var n := |keys| - 1;
      assert keys == keys[..n] + [keys[n]];
      LiveIdFrame(a, b, keys[..n], url);
    }
  }

  /** A new id goes to the end, so it becomes its URL's live id and no other URL's changes. */
  lemma FreshIdIsLive(bridge: BridgeMap, id: string, url: string, other: string)
    requires bridge.Valid() && id !in bridge.at
    ensures Live(bridge.Put(id, url), other) == if other == url then Some(id) else Live(bridge, other)
  {
    var after := bridge.Put(id, url);
    assert after.keys[..|after.keys| - 1] == bridge.keys;
    LiveIdFrame(bridge, after, bridge.keys, other);
  }

  /** The live id is the last of the keys that belongs to the URL. */
  lemma {:induction false} LiveIdIsLast(bridge: BridgeMap, keys: seq<string>, url: string) returns (i: nat)
    requires LiveId(bridge, keys, url).Some?
    ensures i < |keys| && LiveId(bridge, keys, url) == Some(keys[i])
    ensures forall j :: i < j < |keys| && keys[j] in bridge.at ==> bridge.at[keys[j]] != url
    decreases |keys|
  {
    var n := |keys| - 1;
    if keys[n] in bridge.at && bridge.at[keys[n]] == url {
      i := n;
    } else {
      i := LiveIdIsLast(bridge, keys[..n], url);
      assert forall j :: 0 <= j < n ==> keys[..n][j] == keys[j];
    }
  }

  lemma {:induction false} LastIsLiveId(bridge: BridgeMap, keys: seq<string>, url: string, i: nat)
    requires i < |keys| && keys[i] in bridge.at && bridge.at[keys[i]] == url
    requires forall j :: i < j < |keys| && keys[j] in bridge.at ==> bridge.at[keys[j]] != url
    ensures LiveId(bridge, keys, url) == Some(keys[i])
    decreases |keys|
  {
    var n := |keys| - 1;
    if i < n {
      assert forall j :: 0 <= j < n ==> keys[..n][j] == keys[j];
      LastIsLiveId(bridge, keys[..n], url, i);
    }
  }

  /** The bridge lists an id of `url` after `id`. */
  ghost predicate Behind(bridge: BridgeMap, id: string, url: string)
    requires bridge.Valid()
  {
    exists i, j :: 0 <= i < j < |bridge.keys| && bridge.keys[i] == id && BelongsTo(bridge, j, url)
  }

  ghost predicate BelongsTo(bridge: BridgeMap, j: nat, url: string)
    requires bridge.Valid() && j < |bridge.keys|
  {
    bridge.at[bridge.keys[j]] == url
  }

  /** An answered id becomes its URL's live id exactly when no id of that URL is listed after it. */
  lemma {:induction false} WrittenIdIsLiveIff(bridge: BridgeMap, id: string, url: string)
    requires bridge.Valid()
    ensures Live(bridge.Put(id, url), url) == Some(id) <==> !Behind(bridge, id, url)
  {
    var after, keys := bridge.Put(id, url), bridge.keys;
    if id !in bridge.at {
      FreshIdIsLive(bridge, id, url, url);
      assert id !in keys;
    } else {
      var i :| 0 <= i < |keys| && keys[i] == id;
      assert after.keys == keys && forall j :: i < j < |keys| ==> after.at[keys[j]] == bridge.at[keys[j]];
      if Behind(bridge, id, url) {
        var i', j :| 0 <= i' < j < |keys| && keys[i'] == id && BelongsTo(bridge, j, url);
        assert i' == i;
        if Live(after, url).Some? {
          var l := LiveIdIsLast(after, keys, url);
          assert l >= j;
        }
      } else {
        forall j | i < j < |keys| ensures after.at[keys[j]] != url { assert !BelongsTo(bridge, j, url); }
        LastIsLiveId(after, keys, url, i);
      }
    }
  }

  /** Every other URL keeps its live id, unless the write takes that very id away from it. */
  lemma {:induction false} WriteLeavesOthers(bridge: BridgeMap, id: string, url: string, other: string)
    requires bridge.Valid() && other != url
    ensures Live(bridge.Put(id, url), other) == Live(bridge, other) <==> Live(bridge, other) != Some(id)
  {
    var after, keys := bridge.Put(id, url), bridge.keys;
    if id !in bridge.at {
      FreshIdIsLive(bridge, id, url, other);
    } else if Live(bridge, other).Some? && Live(bridge, other) != Some(id) {
      var i := LiveIdIsLast(bridge, keys, other);
      LastIsLiveId(after, keys, other, i);
    }
  }

  /** A known id keeps its place: written again for its own URL, it is live afterwards only if it was before. */
  lemma {:induction false} StaleAnswerStaysBehind(bridge: BridgeMap, id: string, url: string)
    requires bridge.Valid() && (id in bridge.at ==> bridge.at[id] == url)
    ensures Live(bridge.Put(id, url), url) == Some(id) <==> id !in bridge.at || Live(bridge, url) == Some(id)
  {
    if id in bridge.at {
      assert bridge.at[id := url] == bridge.at;
    } else {
      FreshIdIsLive(bridge, id, url, url);
    }
  }

  /** Which URLs are credited and how much: the live id's match alone. */
  ghost predicate CreditsLive(bridge: BridgeMap, layout: Layout, matched: map<string, nat>) {
    && (forall url :: url in matched <==> Live(bridge, url).Some? && Live(bridge, url).value in layout.at)
    && (forall url :: url in matched ==> matched[url] == layout.at[Live(bridge, url).value].1)
  }
}
