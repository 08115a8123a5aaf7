/** What a credit is worth: a true fraction of the prompt, and the longest chunk-aligned common prefix. */
module CreditFacts {
  import opened PyDict
  import opened KvPool
  import opened Chunking
  import opened PrefixMatch

  ghost predicate HoldsEvery(pool: Pool, cs: seq<Chunk>, inst: string) {
    forall i :: 0 <= i < |cs| ==> Holds(pool, cs[i].key, inst)
  }

  /** Every credit lies in `(0, |tokens|]`, and is the whole prompt exactly when the instance holds every chunk. */
  lemma CreditIsFraction(db: TokenDb, pool: Pool, tokens: seq<Token>, inst: string)
    requires db.chunkSize > 0
    requires inst in ExactLayout(pool, Chunks(db, tokens)).at
    ensures 0 < ExactLayout(pool, Chunks(db, tokens)).at[inst].1 <= |tokens|
    ensures ExactLayout(pool, Chunks(db, tokens)).at[inst].1 == |tokens| <==> HoldsEvery(pool, Chunks(db, tokens), inst)
  {
    var cs := Chunks(db, tokens);
    ChunksTile(db, tokens);
    var r := RunLength(pool, cs, inst);
    assert ExactLayout(pool, cs).at[inst].1 == cs[r - 1].end;
    if r < |cs| {
      assert cs[r - 1].end < cs[|cs| - 1].end;
    }
  }

  /** Up to `b`'s chunk `i`, prompts `a` and `b` have the same chunks. */
  ghost predicate SharesChunk(db: TokenDb, a: seq<Token>, b: seq<Token>, i: nat)
    requires db.chunkSize > 0
  {
    && i < |Chunks(db, a)| && i < |Chunks(db, b)|
    && Chunks(db, a)[i].end == Chunks(db, b)[i].end <= |a|
    && Chunks(db, b)[i].end <= |b|
    && a[..Chunks(db, b)[i].end] == b[..Chunks(db, b)[i].end]
  }

  /** An engine holding just prompt `a`'s chunks is credited, for prompt `b`, with exactly the chunks they share. */
  lemma CreditIsCommonPrefix(db: TokenDb, pool: Pool, a: seq<Token>, b: seq<Token>, inst: string, i: nat)
    requires db.chunkSize > 0 && CollisionFree(db) && i < |Chunks(db, b)|
    requires forall key :: Holds(pool, key, inst) <==>
      exists j :: 0 <= j < |Chunks(db, a)| && Chunks(db, a)[j].key == key
    ensures i < RunLength(pool, Chunks(db, b), inst) <==> SharesChunk(db, a, b, i)
  {
    var ca, cb := Chunks(db, a), Chunks(db, b);
    forall k: nat | k < |cb| ensures Holds(pool, cb[k].key, inst) <==> SharesChunk(db, a, b, k) {
      HeldIffShared(db, pool, a, b, inst, k);
    }
    var r := RunLength(pool, cb, inst);
    if SharesChunk(db, a, b, i) && r <= i {
      SharedBelow(db, a, b, r, i);
      assert false;
    }
  }

  lemma HeldIffShared(db: TokenDb, pool: Pool, a: seq<Token>, b: seq<Token>, inst: string, k: nat)
    requires db.chunkSize > 0 && CollisionFree(db) && k < |Chunks(db, b)|
    requires forall key :: Holds(pool, key, inst) <==>
      exists j :: 0 <= j < |Chunks(db, a)| && Chunks(db, a)[j].key == key
    ensures Holds(pool, Chunks(db, b)[k].key, inst) <==> SharesChunk(db, a, b, k)
  {
    var ca, cb := Chunks(db, a), Chunks(db, b);
    if Holds(pool, cb[k].key, inst) {
      var j :| 0 <= j < |ca| && ca[j].key == cb[k].key;
      KeyNamesPrefix(db, a, j, b, k);
      assert |a[..ca[j].end]| == |b[..cb[k].end]|;
    }
    if SharesChunk(db, a, b, k) {
      KeyNamesPrefix(db, a, k, b, k);
    }
  }

  lemma SharedBelow(db: TokenDb, a: seq<Token>, b: seq<Token>, r: nat, i: nat)
    requires db.chunkSize > 0 && r <= i && SharesChunk(db, a, b, i)
    ensures SharesChunk(db, a, b, r)
  {
    var ca, cb := Chunks(db, a), Chunks(db, b);
    ChunksTile(db, a);
    ChunksTile(db, b);
    if r < i {
      KeyStep(db, a, 0, db.noneHash, r);
      KeyStep(db, b, 0, db.noneHash, r);
      KeyStep(db, a, 0, db.noneHash, r + 1);
      KeyStep(db, b, 0, db.noneHash, r + 1);
      assert ca[r].end == cb[r].end;
      var e := cb[r].end;
      assert e < cb[i].end;
      assert a[..e] == a[..cb[i].end][..e] && b[..e] == b[..cb[i].end][..e];
    }
  }
}
