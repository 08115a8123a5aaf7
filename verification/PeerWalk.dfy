/** The specification of `batched_p2p_lookup`'s walk over a list of chunk hashes. */
module PeerWalk {
  import opened PyDict
  import opened KvPool
  import opened Chunking
  import opened PrefixMatch

  /** A chunk's first holder other than the asker. */
  function Peer(ms: seq<Meta>, asker: string): Option<Meta> {
    if ms == [] then None
    else if ms[0].instanceId != asker then Some(ms[0])
    else Peer(ms[1..], asker)
  }

  lemma {:induction false} PeerIsFirstOther(ms: seq<Meta>, asker: string) returns (i: nat)
    ensures i <= |ms| && forall j :: 0 <= j < i ==> ms[j].instanceId == asker
    ensures Peer(ms, asker) == if i < |ms| then Some(ms[i]) else None
    ensures i < |ms| ==> ms[i].instanceId != asker
  {
    if ms == [] || ms[0].instanceId != asker {
      i := 0;
    } else {
      var k := PeerIsFirstOther(ms[1..], asker);
      i := k + 1;
      forall j | 0 <= j < i ensures ms[j].instanceId == asker {
        if j > 0 { assert ms[1..][j - 1] == ms[j]; }
      }
    }
  }

  function PeerAt(pool: Pool, key: Key, asker: string): Option<Meta> {
    Peer(Holders(pool, key), asker)
  }

  /** The walk's variables: `instance_id`, `location`, `num_hit_chunks`. */
  datatype Walk = Walk(instanceId: string, location: string, hits: nat)

  /** One chunk: `None` is the `break`. The empty instance id means "none yet". */
  function WalkStep(pool: Pool, key: Key, asker: string, w: Walk): Option<Walk> {
    match PeerAt(pool, key, asker)
    case None => None
    case Some(m) =>
      if w.instanceId != "" && (w.instanceId != m.instanceId || w.location != m.location) then None
      else if w.instanceId == "" then Some(Walk(m.instanceId, m.location, w.hits + 1))
      else Some(w.(hits := w.hits + 1))
  }

  function WalkFrom(pool: Pool, hashes: seq<Key>, asker: string, w: Walk): Walk {
    if hashes == [] then w
    else
      match WalkStep(pool, hashes[0], asker, w)
      case None => w
      case Some(w') => WalkFrom(pool, hashes[1..], asker, w')
  }

  lemma WalkUnroll(pool: Pool, hashes: seq<Key>, i: nat, asker: string, w: Walk)
    requires i < |hashes|
    ensures WalkFrom(pool, hashes[i..], asker, w) ==
            match WalkStep(pool, hashes[i], asker, w)
            case None => w
            case Some(w') => WalkFrom(pool, hashes[i + 1..], asker, w')
  {
    assert hashes[i..][1..] == hashes[i + 1..];
  }

  predicate SamePair(p: Option<Meta>, inst: string, loc: string) {
    p.Some? && p.value.instanceId == inst && p.value.location == loc
  }

  /** Length of the longest prefix of the hashes whose peers are all the pair `(inst, loc)`. */
  function FixedRun(pool: Pool, hashes: seq<Key>, asker: string, inst: string, loc: string): (n: nat)
    ensures n <= |hashes|
    ensures forall i :: 0 <= i < n ==> SamePair(PeerAt(pool, hashes[i], asker), inst, loc)
    ensures n < |hashes| ==> !SamePair(PeerAt(pool, hashes[n], asker), inst, loc)
  {
    if hashes == [] || !SamePair(PeerAt(pool, hashes[0], asker), inst, loc) then 0
    else 1 + FixedRun(pool, hashes[1..], asker, inst, loc)
  }

  /** The answer promised: the first hash's peer and how far that one pair goes. */
  function LongestPeerRun(pool: Pool, hashes: seq<Key>, asker: string): Walk {
    if hashes == [] then Walk("", "", 0)
    else
      match PeerAt(pool, hashes[0], asker)
      case None => Walk("", "", 0)
      case Some(m) => Walk(m.instanceId, m.location, FixedRun(pool, hashes, asker, m.instanceId, m.location))
  }

  /** Once a named pair is fixed, the walk counts on exactly to the end of that pair's run. */
  lemma {:induction false} WalkFixed(pool: Pool, hashes: seq<Key>, asker: string, w: Walk)
    requires w.instanceId != ""
    ensures WalkFrom(pool, hashes, asker, w) ==
            w.(hits := w.hits + FixedRun(pool, hashes, asker, w.instanceId, w.location))
  {
    if hashes != [] && WalkStep(pool, hashes[0], asker, w).Some? {
      WalkFixed(pool, hashes[1..], asker, w.(hits := w.hits + 1));
    }
  }

  /** While the id is the empty sentinel the walk never stops at a chunk that has any peer. */
  lemma {:induction false} WalkUnfixed(pool: Pool, hashes: seq<Key>, asker: string, w: Walk, n: nat)
    requires w.instanceId == "" && n <= |hashes|
    requires forall i :: 0 <= i < n ==> SamePair(PeerAt(pool, hashes[i], asker), "", w.location)
    ensures WalkFrom(pool, hashes, asker, w) == WalkFrom(pool, hashes[n..], asker, w.(hits := w.hits + n))
  {
    if n > 0 {
      assert forall i :: 0 <= i < n - 1 ==> hashes[1..][i] == hashes[i + 1];
      WalkUnfixed(pool, hashes[1..], asker, w.(hits := w.hits + 1), n - 1);
      assert hashes[1..][n - 1..] == hashes[n..];
    } else {
      assert hashes[0..] == hashes;
    }
  }

  lemma {:induction false} WalkHitsGrow(pool: Pool, hashes: seq<Key>, asker: string, w: Walk)
    ensures WalkFrom(pool, hashes, asker, w).hits >= w.hits
    decreases hashes
  {
    if hashes != [] && WalkStep(pool, hashes[0], asker, w).Some? {
      WalkHitsGrow(pool, hashes[1..], asker, WalkStep(pool, hashes[0], asker, w).value);
    }
  }

  /** The instance id the sentinel cannot tell from "none yet", with a peer still to come after its run. */
  ghost predicate SentinelOverruns(pool: Pool, hashes: seq<Key>, asker: string) {
    var run := LongestPeerRun(pool, hashes, asker);
    && run.hits > 0
    && run.instanceId == ""
    && run.hits < |hashes|
    && PeerAt(pool, hashes[run.hits], asker).Some?
  }

  /** The walk answers the longest run of one fixed pair, except exactly when an empty instance id overruns. */
  lemma PeerLookupExact(pool: Pool, hashes: seq<Key>, asker: string)
    ensures WalkFrom(pool, hashes, asker, Walk("", "", 0)) == LongestPeerRun(pool, hashes, asker)
       <==> !SentinelOverruns(pool, hashes, asker)
  {
    if hashes != [] && PeerAt(pool, hashes[0], asker).Some? {
      var m := PeerAt(pool, hashes[0], asker).value;
      if m.instanceId != "" {
        WalkFixed(pool, hashes[1..], asker, Walk(m.instanceId, m.location, 1));
      } else {
        SentinelWalk(pool, hashes, asker, m);
      }
    }
  }

  /** An instance registered as `""`, then `b`: the walk answers two chunks of `b`, which holds one. */
  lemma {:induction false} EmptyIdOverruns()
    ensures
      var pool: Pool := Dict([1, 2], map[1 := [Meta("", 0, "cpu")], 2 := [Meta("b", 0, "cpu")]]);
      && SentinelOverruns(pool, [1, 2], "q")
      && WalkFrom(pool, [1, 2], "q", Walk("", "", 0)) == Walk("b", "cpu", 2)
      && LongestPeerRun(pool, [1, 2], "q") == Walk("", "cpu", 1)
  {
    var pool: Pool := Dict([1, 2], map[1 := [Meta("", 0, "cpu")], 2 := [Meta("b", 0, "cpu")]]);
    assert "" != "q" by { assert |""| != |"q"|; }
    assert "b" != "q" by { assert "b"[0] != "q"[0]; }
    assert PeerAt(pool, 1, "q") == Some(Meta("", 0, "cpu"));
    assert PeerAt(pool, 2, "q") == Some(Meta("b", 0, "cpu"));
    assert [1, 2][1..] == [2] && [2][1..] == [];
    assert WalkFrom(pool, [2], "q", Walk("", "cpu", 1)) == Walk("b", "cpu", 2);
    assert FixedRun(pool, [2], "q", "", "cpu") == 0;
  }

  /** With an empty instance id in front, the walk goes past the run exactly when the next chunk has a peer. */
  lemma SentinelWalk(pool: Pool, hashes: seq<Key>, asker: string, m: Meta)
    requires hashes != [] && PeerAt(pool, hashes[0], asker) == Some(m) && m.instanceId == ""
    ensures var n := FixedRun(pool, hashes, asker, "", m.location);
      (WalkFrom(pool, hashes, asker, Walk("", "", 0)) == Walk("", m.location, n))
      <==> !(n < |hashes| && PeerAt(pool, hashes[n], asker).Some?)
  {
    var n := FixedRun(pool, hashes, asker, "", m.location);
    var rest := hashes[1..];
    assert n == 1 + FixedRun(pool, rest, asker, "", m.location);
    assert WalkFrom(pool, hashes, asker, Walk("", "", 0)) == WalkFrom(pool, rest, asker, Walk("", m.location, 1));
    WalkUnfixed(pool, rest, asker, Walk("", m.location, 1), n - 1);
    var tail := hashes[n..];
    assert rest[n - 1..] == tail;
    if tail != [] && PeerAt(pool, hashes[n], asker).Some? {
      assert tail[0] == hashes[n];
      WalkHitsGrow(pool, tail[1..], asker, WalkStep(pool, hashes[n], asker, Walk("", m.location, n)).value);
    }
  }

  /** The named peer is never the asker, and it holds every chunk of the run. */
  lemma PeerRunSound(pool: Pool, hashes: seq<Key>, asker: string, i: nat)
    requires i < LongestPeerRun(pool, hashes, asker).hits
    ensures LongestPeerRun(pool, hashes, asker).instanceId != asker
    ensures i < |hashes| && Holds(pool, hashes[i], LongestPeerRun(pool, hashes, asker).instanceId)
  {
    var run := LongestPeerRun(pool, hashes, asker);
    assert SamePair(PeerAt(pool, hashes[i], asker), run.instanceId, run.location);
    var ms := Holders(pool, hashes[i]);
    var j := PeerIsFirstOther(ms, asker);
    NamesIff(ms, run.instanceId);
  }

  function KeysOf(cs: seq<Chunk>): (ks: seq<Key>)
    ensures |ks| == |cs| && forall i :: 0 <= i < |cs| ==> ks[i] == cs[i].key
  {
    seq(|cs|, i requires 0 <= i < |cs| => cs[i].key)
  }

  /** On a prompt's own chunk keys, the peer run never exceeds what `lookup` credits that instance. */
  lemma PeerRunWithinCredit(pool: Pool, cs: seq<Chunk>, asker: string)
    requires EndsIncrease(cs)
    ensures var run := LongestPeerRun(pool, KeysOf(cs), asker);
      run.hits > 0 ==>
        && run.hits <= |cs|
        && run.instanceId in ExactLayout(pool, cs).at
        && cs[run.hits - 1].end <= ExactLayout(pool, cs).at[run.instanceId].1
  {
    var run := LongestPeerRun(pool, KeysOf(cs), asker);
    if run.hits > 0 {
      forall i: nat | i < run.hits ensures i < |cs| && Holds(pool, cs[i].key, run.instanceId) {
        PeerRunSound(pool, KeysOf(cs), asker, i);
      }
      assert run.hits <= |cs| by { assert 0 <= run.hits - 1 < run.hits; }
      CreditCovers(pool, cs, run.instanceId, run.hits);
    }
  }
}
