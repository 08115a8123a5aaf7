/** The stock first-holder lookup, how the patched one relates to it, and what `kvaware` makes of either. */
module UpstreamLookup {
  import opened PyDict
  import opened KvPool
  import opened Chunking
  import opened PrefixMatch

  predicate AllMapped(pool: Pool, cs: seq<Chunk>) {
    forall i :: 0 <= i < |cs| ==> Holders(pool, cs[i].key) != []
  }

  /** How many leading chunks the stock walk visits before its `break`. */
  function WalkedLength(pool: Pool, cs: seq<Chunk>): (n: nat)
    ensures n <= |cs| && AllMapped(pool, cs[..n])
    ensures n < |cs| ==> Holders(pool, cs[n].key) == []
  {
    if cs == [] || Holders(pool, cs[0].key) == [] then 0
    else
      var n := WalkedLength(pool, cs[1..]);
      assert forall i :: 0 < i < n + 1 ==> cs[i] == cs[1..][..n][i - 1];
      n + 1
  }

  function Leader(pool: Pool, c: Chunk): Meta
    requires Holders(pool, c.key) != []
  {
    Holders(pool, c.key)[0]
  }

  /** Each chunk credits its first holder; the last write per instance stands. */
  function Led(pool: Pool, cs: seq<Chunk>): (r: Layout)
    requires AllMapped(pool, cs)
    ensures r.Valid()
  {
    if cs == [] then Empty()
    else
      var before, c := cs[..|cs| - 1], cs[|cs| - 1];
      assert AllMapped(pool, before) by {
        forall i | 0 <= i < |before| ensures Holders(pool, before[i].key) != [] { assert before[i] == cs[i]; }
      }
      var m := Leader(pool, c);
      Led(pool, before).Put(m.instanceId, (m.location, c.end))
  }

  /** The stock lookup. */
  function Upstream(pool: Pool, cs: seq<Chunk>): (r: Layout)
    ensures r.Valid()
  {
    Led(pool, cs[..WalkedLength(pool, cs)])
  }

  /** An instance's stock credit comes from the last chunk it is listed first on. */
  lemma {:induction false} LedLast(pool: Pool, cs: seq<Chunk>, inst: string) returns (last: nat)
    requires AllMapped(pool, cs) && inst in Led(pool, cs).at
    ensures last < |cs| && Leader(pool, cs[last]).instanceId == inst
    ensures forall j :: last < j < |cs| ==> Leader(pool, cs[j]).instanceId != inst
    ensures Led(pool, cs).at[inst] == (Leader(pool, cs[last]).location, cs[last].end)
    decreases |cs|
  {
    var n := |cs| - 1;
    if Leader(pool, cs[n]).instanceId == inst {
      last := n;
    } else {
      last := LedLast(pool, cs[..n], inst);
      forall j | last < j < |cs| ensures Leader(pool, cs[j]).instanceId != inst {
        if j < n { assert cs[..n][j] == cs[j]; }
      }
    }
  }

  lemma {:induction false} LedFirst(pool: Pool, cs: seq<Chunk>)
    requires AllMapped(pool, cs)
    ensures cs == [] <==> Led(pool, cs).keys == []
    ensures cs != [] ==> Led(pool, cs).keys[0] == Leader(pool, cs[0]).instanceId
    decreases |cs|
  {
    if |cs| > 1 {
      assert cs[..|cs| - 1][0] == cs[0];
      LedFirst(pool, cs[..|cs| - 1]);
    } else if |cs| == 1 {
      assert cs[..0] == [];
    }
  }

  /** Both lookups are empty on the same inputs, and `kvaware`'s pick - the first key - is the same. */
  lemma SameFirstKey(pool: Pool, cs: seq<Chunk>)
    ensures Upstream(pool, cs).keys == [] <==> ExactLayout(pool, cs).keys == []
    ensures Upstream(pool, cs).keys != [] ==> Upstream(pool, cs).keys[0] == ExactLayout(pool, cs).keys[0]
  {
    var n := WalkedLength(pool, cs);
    LedFirst(pool, cs[..n]);
    if n > 0 {
      assert cs[..n][0] == cs[0];
      InstancesFirst(Holders(pool, cs[0].key));
    } else if cs != [] {
      assert Instances(Holders(pool, cs[0].key)) == [];
    }
  }

  lemma LeaderHolds(pool: Pool, c: Chunk)
    requires Holders(pool, c.key) != []
    ensures Holds(pool, c.key, Leader(pool, c).instanceId)
    ensures FirstLocation(Holders(pool, c.key), Leader(pool, c).instanceId) == Leader(pool, c).location
  {
  }

  ghost predicate HoldsThrough(pool: Pool, cs: seq<Chunk>, inst: string, last: nat)
    requires last < |cs|
  {
    forall i :: 0 <= i <= last ==> Holds(pool, cs[i].key, inst)
  }

  /** The patch keeps an instance's stock credit exactly when it holds every chunk up to the last it leads. */
  lemma CreditsOrderedIff(pool: Pool, cs: seq<Chunk>, inst: string) returns (last: nat)
    requires EndsIncrease(cs) && inst in Upstream(pool, cs).at
    ensures last < |cs| && Upstream(pool, cs).at[inst].1 == cs[last].end
    ensures Holds(pool, cs[last].key, inst)
    ensures (inst in ExactLayout(pool, cs).at && Upstream(pool, cs).at[inst].1 <= ExactLayout(pool, cs).at[inst].1)
       <==> HoldsThrough(pool, cs, inst, last)
  {
    var n := WalkedLength(pool, cs);
    last := LedLast(pool, cs[..n], inst);
    assert cs[..n][last] == cs[last];
    LeaderHolds(pool, cs[last]);
    if HoldsThrough(pool, cs, inst, last) {
      CreditCovers(pool, cs, inst, last + 1);
    } else if inst in ExactLayout(pool, cs).at {
      var r := RunLength(pool, cs, inst);
      assert r <= last;
      assert ExactLayout(pool, cs).at[inst].1 == cs[r - 1].end;
    }
  }

  /** Every holder of a chunk also holds all earlier chunks. */
  ghost predicate PrefixClosed(pool: Pool, cs: seq<Chunk>) {
    forall i, j, inst :: 0 <= i <= j < |cs| && Holds(pool, cs[j].key, inst) ==> Holds(pool, cs[i].key, inst)
  }

  /** On prefix-closed caches the stock answer names a subset of the instances and never credits more. */
  lemma UpstreamBelowPatched(pool: Pool, cs: seq<Chunk>, inst: string)
    requires EndsIncrease(cs) && PrefixClosed(pool, cs) && inst in Upstream(pool, cs).at
    ensures inst in ExactLayout(pool, cs).at
    ensures Upstream(pool, cs).at[inst].1 <= ExactLayout(pool, cs).at[inst].1
  {
    var last := CreditsOrderedIff(pool, cs, inst);
  }

  datatype Decision = Fallback | Holder(instanceId: string)

  function Max(a: int, b: int): int {
    if a < b then b else a
  }

  /** `KvawareRouter.route_request`'s choice between the first holder and the session/QPS route. */
  function Kvaware(layout: Layout, promptTokens: nat, threshold: int): (d: Decision)
    requires layout.Valid()
  {
    if layout.keys == [] then Fallback
    else
      var first := layout.keys[0];
      if layout.at[first].1 < Max(promptTokens - threshold, 0) then Fallback else Holder(first)
  }

  /** The cache route is taken exactly when at most `threshold` tokens lie beyond the first holder's credit. */
  lemma KvawareIff(layout: Layout, promptTokens: nat, threshold: int)
    requires layout.Valid()
    ensures Kvaware(layout, promptTokens, threshold) ==
            if layout.keys == [] || promptTokens - layout.at[layout.keys[0]].1 > threshold then Fallback
            else Holder(layout.keys[0])
  {
  }

  /** A higher threshold never gives up the cache route; a full-prompt credit takes it at every threshold from 0 on. */
  lemma {:induction false} ThresholdMonotone(layout: Layout, promptTokens: nat, low: int, high: int)
    requires layout.Valid() && low <= high
    ensures Kvaware(layout, promptTokens, low).Holder? ==>
            Kvaware(layout, promptTokens, high) == Kvaware(layout, promptTokens, low)
    ensures layout.keys != [] && layout.at[layout.keys[0]].1 >= promptTokens && high >= 0 ==>
            Kvaware(layout, promptTokens, high) == Holder(layout.keys[0])
  {
    KvawareIff(layout, promptTokens, low);
    KvawareIff(layout, promptTokens, high);
  }

  ghost predicate NeverNewlyFallsBack(pool: Pool, cs: seq<Chunk>) {
    forall promptTokens: nat, threshold: int ::
      Kvaware(Upstream(pool, cs), promptTokens, threshold).Holder? ==>
        Kvaware(ExactLayout(pool, cs), promptTokens, threshold) == Kvaware(Upstream(pool, cs), promptTokens, threshold)
  }

  /** The patch costs `kvaware` no cache route exactly when the first holder has no gap below its last lead. */
  lemma {:induction false} KvawareKeepsCacheRouteIff(pool: Pool, cs: seq<Chunk>) returns (last: nat)
    requires EndsIncrease(cs) && Upstream(pool, cs).keys != []
    ensures var first := Upstream(pool, cs).keys[0];
      last < |cs| && first in Upstream(pool, cs).at && Upstream(pool, cs).at[first].1 == cs[last].end
    ensures NeverNewlyFallsBack(pool, cs) <==> HoldsThrough(pool, cs, Upstream(pool, cs).keys[0], last)
  {
    SameFirstKey(pool, cs);
    var up, exact := Upstream(pool, cs), ExactLayout(pool, cs);
    var first := up.keys[0];
    assert first in up.keys && first in exact.keys;
    last := CreditsOrderedIff(pool, cs, first);
    if !HoldsThrough(pool, cs, first, last) {
      assert Kvaware(up, up.at[first].1, 0).Holder?;
      assert Kvaware(exact, up.at[first].1, 0) == Fallback;
    }
  }

  lemma {:induction false} KvawareOnPrefixClosed(pool: Pool, cs: seq<Chunk>)
    requires EndsIncrease(cs) && PrefixClosed(pool, cs)
    ensures NeverNewlyFallsBack(pool, cs)
  {
    if Upstream(pool, cs).keys != [] {
      var last := KvawareKeepsCacheRouteIff(pool, cs);
      var first := Upstream(pool, cs).keys[0];
      assert first in Upstream(pool, cs).at;
      var l := CreditsOrderedIff(pool, cs, first);
      assert l == last by { if l < last { } else if last < l { } }
    }
  }

  /** A hole under the first holder: stock `kvaware` takes the cache route, patched `kvaware` falls back. */
  lemma HoleMovesKvaware()
    ensures
      var a, b := Meta("a", 0, "cpu"), Meta("b", 0, "cpu");
      var pool := Dict([1, 2, 3], map[1 := [a], 2 := [b], 3 := [a]]);
      var cs := [Chunk(0, 4, 1), Chunk(4, 8, 2), Chunk(8, 12, 3)];
      Kvaware(Upstream(pool, cs), 12, 0) == Holder("a") && Kvaware(ExactLayout(pool, cs), 12, 0) == Fallback
  {
    var a, b := Meta("a", 0, "cpu"), Meta("b", 0, "cpu");
    var pool: Pool := Dict([1, 2, 3], map[1 := [a], 2 := [b], 3 := [a]]);
    var cs := [Chunk(0, 4, 1), Chunk(4, 8, 2), Chunk(8, 12, 3)];
    assert WalkedLength(pool, cs) == 3 by {
      var n := WalkedLength(pool, cs);
      assert n < 3 ==> Holders(pool, cs[n].key) == [];
    }
    assert cs[..3] == cs;
    SameFirstKey(pool, cs);
    LedFirst(pool, cs);
    assert Led(pool, cs).at["a"] == ("cpu", 12);
    assert !Names([b], "a") by { assert [b][1..] == []; }
    RunLengthUnique(pool, cs, "a", 1);
    assert ExactLayout(pool, cs).at["a"].1 == 4;
  }

  ghost predicate OnlyHolder(pool: Pool, x: string) {
    forall key, m :: m in Holders(pool, key) ==> m.instanceId == x
  }

  lemma SingleInstanceRun(pool: Pool, cs: seq<Chunk>, x: string)
    requires OnlyHolder(pool, x)
    ensures RunLength(pool, cs, x) == WalkedLength(pool, cs)
  {
    var n := WalkedLength(pool, cs);
    forall i | 0 <= i < |cs| ensures Holds(pool, cs[i].key, x) <==> Holders(pool, cs[i].key) != [] {
      if Holders(pool, cs[i].key) != [] { assert Holders(pool, cs[i].key)[0] in Holders(pool, cs[i].key); }
    }
    forall i | 0 <= i < n ensures Holds(pool, cs[i].key, x) { assert cs[..n][i] == cs[i]; }
    RunLengthUnique(pool, cs, x, n);
  }

  /** With a single instance in the pool the patch changes nothing. */
  lemma SingleInstanceSameAnswer(pool: Pool, cs: seq<Chunk>, x: string)
    requires OnlyHolder(pool, x)
    ensures Upstream(pool, cs) == ExactLayout(pool, cs)
  {
    SingleInstanceRun(pool, cs, x);
    SameFirstKey(pool, cs);
    if WalkedLength(pool, cs) > 0 {
      SingleInstanceEntry(pool, cs, x);
    } else {
      LedFirst(pool, cs[..0]);
      assert Upstream(pool, cs).keys == [];
    }
    hide Upstream, ExactLayout;
    SameDict(Upstream(pool, cs), ExactLayout(pool, cs));
  }

  lemma {:induction false} ExactEntry(pool: Pool, cs: seq<Chunk>, x: string)
    requires OnlyHolder(pool, x) && 0 < RunLength(pool, cs, x)
    ensures ExactLayout(pool, cs).keys == [x] && ExactLayout(pool, cs).at.Keys == {x}
    ensures ExactLayout(pool, cs).at[x] == Credit(pool, cs, x)
  {
    hide RunLength, Credit, NoDuplicates;
    assert Holds(pool, cs[0].key, x);
    OnlyInstance(Holders(pool, cs[0].key), x);
    OneKey(ExactLayout(pool, cs), x);
  }

  lemma {:induction false} LastWalked(pool: Pool, cs: seq<Chunk>)
    requires WalkedLength(pool, cs) > 0
    ensures Holders(pool, cs[WalkedLength(pool, cs) - 1].key) != []
  {
    var n := WalkedLength(pool, cs);
    assert AllMapped(pool, cs[..n]) && cs[..n][n - 1] == cs[n - 1];
  }

  lemma {:induction false} UpstreamEntry(pool: Pool, cs: seq<Chunk>, x: string)
    requires OnlyHolder(pool, x) && WalkedLength(pool, cs) > 0
    ensures Upstream(pool, cs).keys == [x] && Upstream(pool, cs).at.Keys == {x}
    ensures var last := cs[WalkedLength(pool, cs) - 1];
      Holders(pool, last.key) != [] && Upstream(pool, cs).at[x] == (Leader(pool, last).location, last.end)
  {
    LastWalked(pool, cs);
    hide Holders, OnlyHolder, WalkedLength, Led, Leader, NoDuplicates;
    LedOnly(pool, cs[..WalkedLength(pool, cs)], x);
  }

  lemma {:induction false} OnlyCredit(pool: Pool, cs: seq<Chunk>, x: string)
    requires OnlyHolder(pool, x) && 0 < RunLength(pool, cs, x)
    requires Holders(pool, cs[RunLength(pool, cs, x) - 1].key) != []
    ensures var last := cs[RunLength(pool, cs, x) - 1];
      Credit(pool, cs, x) == (Leader(pool, last).location, last.end)
  {
    hide OnlyHolder, RunLength, NoDuplicates;
    var last := cs[RunLength(pool, cs, x) - 1];
    LeaderHolds(pool, last);
    LeaderIsOnly(pool, last, x);
  }

  lemma {:induction false} SingleInstanceEntry(pool: Pool, cs: seq<Chunk>, x: string)
    requires OnlyHolder(pool, x) && WalkedLength(pool, cs) > 0
    requires RunLength(pool, cs, x) == WalkedLength(pool, cs)
    ensures Upstream(pool, cs).keys == ExactLayout(pool, cs).keys == [x]
    ensures Upstream(pool, cs).at.Keys == ExactLayout(pool, cs).at.Keys == {x}
    ensures Upstream(pool, cs).at[x] == ExactLayout(pool, cs).at[x]
  {
    hide *;
    UpstreamEntry(pool, cs, x);
    ExactEntry(pool, cs, x);
    OnlyCredit(pool, cs, x);
  }

  lemma OneKey(layout: Layout, x: string)
    requires layout.Valid() && layout.keys == [x]
    ensures layout.at.Keys == {x}
  {
    assert forall k :: k in layout.at <==> k in layout.keys;
  }

  lemma {:induction false} OnlyInstance(ms: seq<Meta>, x: string)
    requires ms != [] && forall m :: m in ms ==> m.instanceId == x
    ensures Instances(ms) == [x]
    decreases |ms|
  {
    var n := |ms| - 1;
    assert ms[n] in ms;
    if n > 0 {
      OnlyInstance(ms[..n], x);
    } else {
      assert Instances(ms[..0]) == [];
    }
  }

  lemma LeaderIsOnly(pool: Pool, c: Chunk, x: string)
    requires OnlyHolder(pool, x) && Holders(pool, c.key) != []
    ensures Leader(pool, c).instanceId == x
  {
    assert Leader(pool, c) in Holders(pool, c.key);
  }

  lemma {:induction false} LedOnly(pool: Pool, cs: seq<Chunk>, x: string)
    requires AllMapped(pool, cs) && cs != []
    requires OnlyHolder(pool, x)
    ensures Led(pool, cs).keys == [x]
    ensures Led(pool, cs).at.Keys == {x}
    ensures Led(pool, cs).at[x] == (Leader(pool, cs[|cs| - 1]).location, cs[|cs| - 1].end)
    decreases |cs|
  {
    var n := |cs| - 1;
    hide OnlyHolder, Holders, NoDuplicates;
    LeaderIsOnly(pool, cs[n], x);
    if n > 0 {
      assert AllMapped(pool, cs[..n]);
      LedOnly(pool, cs[..n], x);
    } else {
      assert cs[..0] == [];
    }
  }
}
