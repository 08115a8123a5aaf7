/** `process_tokens(tokens, make_key=False)`: chunk boundaries and rolling prefix keys. */
module Chunking {
  import opened KvPool

  type Token = int

  datatype Chunk = Chunk(start: nat, end: nat, key: Key)

  /** `hash((prefix_hash, chunk))` is a parameter; so is the key of the empty prefix. */
  datatype TokenDb = TokenDb(chunkSize: nat, noneHash: Key, hash: (Key, seq<Token>) -> Key)

  /** Distinct inputs hash apart, and nothing hashes to the empty prefix's key. */
  ghost predicate CollisionFree(db: TokenDb) {
    && (forall k, t, k', t' :: db.hash(k, t) == db.hash(k', t') ==> k == k' && t == t')
    && (forall k, t :: db.hash(k, t) != db.noneHash)
  }

  lemma HashSplits(db: TokenDb, k: Key, t: seq<Token>, k': Key, t': seq<Token>)
    requires CollisionFree(db)
    ensures db.hash(k, t) == db.hash(k', t') <==> k == k' && t == t'
    ensures db.hash(k, t) != db.noneHash
  {
  }

  function Min(a: nat, b: nat): nat {
    if a < b then a else b
  }

  function ChunksFrom(db: TokenDb, tokens: seq<Token>, start: nat, prefixHash: Key): seq<Chunk>
    requires db.chunkSize > 0
    decreases |tokens| - start
  {
    if start >= |tokens| then []
    else
      var end := Min(start + db.chunkSize, |tokens|);
      var key := db.hash(prefixHash, tokens[start..end]);
      [Chunk(start, end, key)] + ChunksFrom(db, tokens, start + db.chunkSize, key)
  }

  function Chunks(db: TokenDb, tokens: seq<Token>): seq<Chunk>
    requires db.chunkSize > 0
  {
    ChunksFrom(db, tokens, 0, db.noneHash)
  }

  ghost predicate EndsIncrease(chunks: seq<Chunk>) {
    forall i, j :: 0 <= i < j < |chunks| ==> chunks[i].end < chunks[j].end
  }

  /** The chunks cover `[start, total)` without gap or overlap, in order, none of them empty. */
  ghost predicate Tiles(cs: seq<Chunk>, start: nat, total: nat) {
    && (cs == [] <==> start >= total)
    && (cs != [] ==> cs[0].start == start && cs[|cs| - 1].end == total)
    && (forall i :: 0 <= i < |cs| ==> start <= cs[i].start < cs[i].end <= total)
    && (forall i, j :: 0 <= i && j == i + 1 < |cs| ==> cs[i].end == cs[j].start)
    && EndsIncrease(cs)
  }

  lemma TilesCons(c: Chunk, cs: seq<Chunk>, total: nat)
    requires c.start < c.end <= total
    requires cs == [] ==> c.end == total
    requires cs != [] ==> Tiles(cs, c.end, total)
    ensures Tiles([c] + cs, c.start, total)
  {
    var all := [c] + cs;
    assert all[0] == c && forall i :: 1 <= i < |all| ==> all[i] == cs[i - 1];
    if cs != [] {
      assert all[|all| - 1] == cs[|cs| - 1];
    }
  }

  lemma {:induction false} ChunksFromTile(db: TokenDb, tokens: seq<Token>, start: nat, h: Key)
    requires db.chunkSize > 0
    ensures Tiles(ChunksFrom(db, tokens, start, h), start, |tokens|)
    decreases |tokens| - start
  {
    if start < |tokens| {
      var cs := ChunksFrom(db, tokens, start, h);
      var next := start + db.chunkSize;
      ChunksFromTile(db, tokens, next, cs[0].key);
      TilesCons(cs[0], ChunksFrom(db, tokens, next, cs[0].key), |tokens|);
    }
  }

  /** The chunks tile the whole prompt: the last end is the prompt's length. */
  lemma ChunksTile(db: TokenDb, tokens: seq<Token>)
    requires db.chunkSize > 0
    ensures Tiles(Chunks(db, tokens), 0, |tokens|)
  {
    ChunksFromTile(db, tokens, 0, db.noneHash);
  }

  function KeyBefore(cs: seq<Chunk>, i: nat, h: Key): Key
    requires i <= |cs|
  {
    if i == 0 then h else cs[i - 1].key
  }

  /** Every key chains the key before it with the chunk's own tokens. */
  lemma {:induction false} KeyStep(db: TokenDb, tokens: seq<Token>, start: nat, h: Key, i: nat)
    requires db.chunkSize > 0
    requires i < |ChunksFrom(db, tokens, start, h)|
    ensures var cs := ChunksFrom(db, tokens, start, h);
      && cs[i].start == start + i * db.chunkSize
      && cs[i].end == Min(cs[i].start + db.chunkSize, |tokens|)
      && cs[i].start < |tokens|
      && cs[i].key == db.hash(KeyBefore(cs, i, h), tokens[cs[i].start..cs[i].end])
    decreases i
  {
    var cs := ChunksFrom(db, tokens, start, h);
    if i > 0 {
      KeyStep(db, tokens, start + db.chunkSize, cs[0].key, i - 1);
      assert cs[1..] == ChunksFrom(db, tokens, start + db.chunkSize, cs[0].key);
      assert cs[i] == cs[1..][i - 1];
      assert start + db.chunkSize + (i - 1) * db.chunkSize == start + i * db.chunkSize;
    }
  }

  /** A prompt's `i`-th key is hashed from the key before it; the key before the first is the empty prefix's. */
  lemma KeyStepOfPrompt(db: TokenDb, a: seq<Token>, i: nat)
    requires db.chunkSize > 0 && i < |Chunks(db, a)|
    ensures Chunks(db, a)[i].start < Chunks(db, a)[i].end <= |a|
    ensures Chunks(db, a)[i].key ==
            db.hash(KeyBefore(Chunks(db, a), i, db.noneHash), a[Chunks(db, a)[i].start..Chunks(db, a)[i].end])
  {
    KeyStep(db, a, 0, db.noneHash, i);
    ChunksTile(db, a);
  }

  /** Keys at different chunk positions never collide. */
  lemma {:induction false} KeysAtDifferentDepths(db: TokenDb, a: seq<Token>, i: nat, b: seq<Token>, j: nat)
    requires db.chunkSize > 0 && CollisionFree(db)
    requires i < |Chunks(db, a)| && j < |Chunks(db, b)| && i != j
    ensures Chunks(db, a)[i].key != Chunks(db, b)[j].key
    decreases i
  {
    var ca, cb := Chunks(db, a), Chunks(db, b);
    KeyStepOfPrompt(db, a, i);
    KeyStepOfPrompt(db, b, j);
    var ka, kb := KeyBefore(ca, i, db.noneHash), KeyBefore(cb, j, db.noneHash);
    assert ka != kb by {
      if i > 0 && j > 0 {
        KeysAtDifferentDepths(db, a, i - 1, b, j - 1);
      } else if i > 0 {
        KeyStepOfPrompt(db, a, i - 1);
      } else {
        KeyStepOfPrompt(db, b, j - 1);
      }
    }
    HashSplits(db, ka, a[ca[i].start..ca[i].end], kb, b[cb[j].start..cb[j].end]);
  }

  lemma PrefixBySteps(db: TokenDb, a: seq<Token>, i: nat)
    requires db.chunkSize > 0 && i < |Chunks(db, a)|
    ensures var cs := Chunks(db, a);
      && cs[i].start == i * db.chunkSize
      && cs[i].start < cs[i].end <= |a|
      && a[..cs[i].end] == a[..cs[i].start] + a[cs[i].start..cs[i].end]
      && (i > 0 ==> cs[i - 1].end == cs[i].start)
  {
    KeyStep(db, a, 0, db.noneHash, i);
    ChunksTile(db, a);
  }

  /** At one depth, keys are equal exactly when the prefixes up to that chunk are. */
  lemma {:induction false} KeysAtOneDepth(db: TokenDb, a: seq<Token>, b: seq<Token>, i: nat)
    requires db.chunkSize > 0 && CollisionFree(db)
    requires i < |Chunks(db, a)| && i < |Chunks(db, b)|
    ensures Chunks(db, a)[i].end <= |a| && Chunks(db, b)[i].end <= |b|
    ensures Chunks(db, a)[i].key == Chunks(db, b)[i].key
       <==> a[..Chunks(db, a)[i].end] == b[..Chunks(db, b)[i].end]
    decreases i
  {
    var ca, cb := Chunks(db, a)[i], Chunks(db, b)[i];
    KeyStep(db, a, 0, db.noneHash, i);
    KeyStep(db, b, 0, db.noneHash, i);
    PrefixBySteps(db, a, i);
    PrefixBySteps(db, b, i);
    PrefixSplit(a[..ca.start], a[ca.start..ca.end], b[..cb.start], b[cb.start..cb.end]);
    if i > 0 {
      KeysAtOneDepth(db, a, b, i - 1);
    }
  }

  /** A chunk's key names its whole prefix. */
  lemma KeyNamesPrefix(db: TokenDb, a: seq<Token>, i: nat, b: seq<Token>, j: nat)
    requires db.chunkSize > 0 && CollisionFree(db)
    requires i < |Chunks(db, a)| && j < |Chunks(db, b)|
    ensures Chunks(db, a)[i].end <= |a| && Chunks(db, b)[j].end <= |b|
    ensures Chunks(db, a)[i].key == Chunks(db, b)[j].key
       <==> i == j && a[..Chunks(db, a)[i].end] == b[..Chunks(db, b)[j].end]
  {
    PrefixBySteps(db, a, i);
    PrefixBySteps(db, b, j);
    if i == j {
      KeysAtOneDepth(db, a, b, i);
    } else {
      KeysAtDifferentDepths(db, a, i, b, j);
    }
  }

  lemma PrefixSplit<T>(pa: seq<T>, ta: seq<T>, pb: seq<T>, tb: seq<T>)
    requires |pa| == |pb|
    ensures pa + ta == pb + tb <==> pa == pb && ta == tb
  {
    assert (pa + ta)[..|pa|] == pa && (pa + ta)[|pa|..] == ta;
    assert (pb + tb)[..|pb|] == pb && (pb + tb)[|pb|..] == tb;
  }
}
