/** What a lookup must answer: every instance's longest contiguous prefix match. */
module PrefixMatch {
  import opened PyDict
  import opened KvPool
  import opened Chunking

  /** `layout_info`: instance id -> (location, matched tokens). */
  type Layout = Dict<string, (string, nat)>

  predicate Names(ms: seq<Meta>, inst: string) {
    ms != [] && (ms[0].instanceId == inst || Names(ms[1..], inst))
  }

  lemma {:induction false} NamesIff(ms: seq<Meta>, inst: string)
    ensures Names(ms, inst) <==> exists i :: 0 <= i < |ms| && ms[i].instanceId == inst
  {
    if ms != [] {
      NamesIff(ms[1..], inst);
      if exists i :: 0 <= i < |ms| && ms[i].instanceId == inst {
        var i :| 0 <= i < |ms| && ms[i].instanceId == inst;
        if i > 0 { assert ms[1..][i - 1].instanceId == inst; }
      }
    }
  }

  predicate Holds(pool: Pool, key: Key, inst: string) {
    Names(Holders(pool, key), inst)
  }

  /** Length, in chunks, of the longest gap-free run from chunk 0 that `inst` holds. */
  function RunLength(pool: Pool, cs: seq<Chunk>, inst: string): (n: nat)
    ensures n <= |cs|
    ensures forall i :: 0 <= i < n ==> Holds(pool, cs[i].key, inst)
    ensures n < |cs| ==> !Holds(pool, cs[n].key, inst)
  {
    if cs == [] || !Holds(pool, cs[0].key, inst) then 0
    else 1 + RunLength(pool, cs[1..], inst)
  }

  /** `RunLength` is the only such length. */
  lemma RunLengthUnique(pool: Pool, cs: seq<Chunk>, inst: string, n: nat)
    requires n <= |cs|
    requires forall i :: 0 <= i < n ==> Holds(pool, cs[i].key, inst)
    requires n < |cs| ==> !Holds(pool, cs[n].key, inst)
    ensures RunLength(pool, cs, inst) == n
  {
  }

  lemma RunLengthAtLeast(pool: Pool, cs: seq<Chunk>, inst: string, n: nat)
    requires n <= |cs| && forall i :: 0 <= i < n ==> Holds(pool, cs[i].key, inst)
    ensures RunLength(pool, cs, inst) >= n
  {
  }

  lemma RunLengthExtend(pool: Pool, cs: seq<Chunk>, i: nat, inst: string)
    requires i < |cs|
    ensures RunLength(pool, cs[..i + 1], inst) ==
            if RunLength(pool, cs[..i], inst) == i && Holds(pool, cs[i].key, inst) then i + 1
            else RunLength(pool, cs[..i], inst)
  {
    var r := RunLength(pool, cs[..i], inst);
    var longer := cs[..i + 1];
    forall j | 0 <= j < r ensures Holds(pool, longer[j].key, inst) {
      assert longer[j] == cs[..i][j];
    }
    if r == i && Holds(pool, cs[i].key, inst) {
      RunLengthUnique(pool, longer, inst, i + 1);
    } else {
      if r < i { assert cs[..i][r] == longer[r]; }
      RunLengthUnique(pool, longer, inst, r);
    }
  }

  /** Location of `inst`'s first entry in a holder list. */
  function FirstLocation(ms: seq<Meta>, inst: string): string
    requires Names(ms, inst)
  {
    if ms[0].instanceId == inst then ms[0].location else FirstLocation(ms[1..], inst)
  }

  lemma {:induction false} FirstLocationIsFirst(ms: seq<Meta>, inst: string) returns (i: nat)
    requires Names(ms, inst)
    ensures i < |ms| && ms[i].instanceId == inst && ms[i].location == FirstLocation(ms, inst)
    ensures forall j :: 0 <= j < i ==> ms[j].instanceId != inst
  {
    if ms[0].instanceId == inst {
      i := 0;
    } else {
      var k := FirstLocationIsFirst(ms[1..], inst);
      i := k + 1;
      forall j | 0 <= j < i ensures ms[j].instanceId != inst {
        if j > 0 { assert ms[1..][j - 1] == ms[j]; }
      }
    }
  }

  /** The instances of a holder list, each once, in order of first appearance. */
  function Instances(ms: seq<Meta>): (r: seq<string>)
    ensures forall inst :: inst in r <==> Names(ms, inst)
    ensures NoDuplicates(r)
  {
    if ms == [] then []
    else
      var m := ms[|ms| - 1];
      var before := Instances(ms[..|ms| - 1]);
      NamesSnoc(ms[..|ms| - 1], m);
      assert ms == ms[..|ms| - 1] + [m];
      if m.instanceId in before then before else before + [m.instanceId]
  }

  lemma NamesSnoc(ms: seq<Meta>, m: Meta)
    ensures forall inst :: Names(ms + [m], inst) <==> Names(ms, inst) || m.instanceId == inst
  {
    forall inst { NamesSnocOne(ms, m, inst); }
  }

  lemma {:induction false} NamesSnocOne(ms: seq<Meta>, m: Meta, inst: string)
    ensures Names(ms + [m], inst) <==> Names(ms, inst) || m.instanceId == inst
    ensures Names(ms + [m], inst) ==>
      (FirstLocation(ms + [m], inst) == if Names(ms, inst) then FirstLocation(ms, inst) else m.location)
  {
    if ms == [] {
      assert (ms + [m])[1..] == [];
    } else {
      NamesSnocOne(ms[1..], m, inst);
      assert (ms + [m])[1..] == ms[1..] + [m];
    }
  }

  lemma InstancesFirst(ms: seq<Meta>)
    requires ms != []
    ensures Instances(ms) != [] && Instances(ms)[0] == ms[0].instanceId
  {
    if |ms| > 1 {
      InstancesFirst(ms[..|ms| - 1]);
    } else {
      assert ms[..0] == [];
    }
  }

  /** What `inst` is credited with: its run's last chunk gives the location and the end offset. */
  function Credit(pool: Pool, cs: seq<Chunk>, inst: string): (string, nat)
    requires RunLength(pool, cs, inst) > 0
  {
    var last := cs[RunLength(pool, cs, inst) - 1];
    (FirstLocation(Holders(pool, last.key), inst), last.end)
  }

  /** The answer: exactly the holders of chunk 0, in that chunk's order, each with its own credit. */
  function ExactLayout(pool: Pool, cs: seq<Chunk>): (r: Layout)
    ensures r.Valid()
    ensures forall inst :: inst in r.at <==> RunLength(pool, cs, inst) > 0
    ensures forall inst :: inst in r.at ==> r.at[inst] == Credit(pool, cs, inst)
  {
    if cs == [] then Empty()
    else
      var keys := Instances(Holders(pool, cs[0].key));
      Dict(keys, map inst | inst in keys :: Credit(pool, cs, inst))
  }

  /** An instance holding chunks `0..n` is credited with at least their tokens. */
  lemma CreditCovers(pool: Pool, cs: seq<Chunk>, inst: string, n: nat)
    requires EndsIncrease(cs) && 0 < n <= |cs|
    requires forall i :: 0 <= i < n ==> Holds(pool, cs[i].key, inst)
    ensures inst in ExactLayout(pool, cs).at && cs[n - 1].end <= ExactLayout(pool, cs).at[inst].1
  {
    hide Holds, FirstLocation, Instances;
    RunLengthAtLeast(pool, cs, inst, n);
    var last := RunLength(pool, cs, inst) - 1;
    assert ExactLayout(pool, cs).at[inst].1 == cs[last].end;
  }

  /** The holders of one chunk that are still contiguous, with their first location there. */
  ghost predicate Matching(ms: seq<Meta>, contiguous: Option<set<string>>, r: Dict<string, string>) {
    && r.Valid()
    && (forall inst :: inst in r.at <==> Names(ms, inst) && (contiguous.Some? ==> inst in contiguous.value))
    && (forall inst :: inst in r.at ==> r.at[inst] == FirstLocation(ms, inst))
    && (contiguous.None? ==> r.keys == Instances(ms))
  }

  /** `holders.setdefault(meta.instance_id, meta.location)`, unless the instance has already diverged. */
  function SetDefault(r: Dict<string, string>, contiguous: Option<set<string>>, m: Meta): Dict<string, string> {
    if (contiguous.Some? && m.instanceId !in contiguous.value) || m.instanceId in r.at then r
    else r.Put(m.instanceId, m.location)
  }

  lemma MatchingStep(ms: seq<Meta>, contiguous: Option<set<string>>, r: Dict<string, string>, m: Meta)
    requires Matching(ms, contiguous, r)
    ensures Matching(ms + [m], contiguous, SetDefault(r, contiguous, m))
  {
    forall inst { NamesSnocOne(ms, m, inst); }
    assert (ms + [m])[..|ms|] == ms;
  }
}
