/**
 The file cache of embeddings: one file per text, named by the text's digest, holding the vector as
 little-endian 32-bit floats. Digests are taken to be free of collisions on the texts in use.
 */
module EmbeddingCache {
  import opened Wrappers

  type Byte = n: nat | n < 0x100
  /** A 32-bit float by its bits. */
  type Float32 = n: nat | n < 0x1_0000_0000
  type Vector = seq<Float32>

  // ── The file format ───────────────────────────────────────────────────────

  function ToLittleEndian(f: Float32): (b: seq<Byte>)
    ensures |b| == 4
  {
    var q1 := f / 0x100;
    var q2 := q1 / 0x100;
    [f % 0x100, q1 % 0x100, q2 % 0x100, q2 / 0x100]
  }

  function FromLittleEndian(b0: Byte, b1: Byte, b2: Byte, b3: Byte): Float32
  {
    b0 + 0x100 * (b1 + 0x100 * (b2 + 0x100 * b3))
  }

  function Encode(v: Vector): (bytes: seq<Byte>)
    ensures |bytes| == 4 * |v|
  {
    if v == [] then [] else Encode(v[..|v| - 1]) + ToLittleEndian(v[|v| - 1])
  }

  method EncodeEmbedding(v: Vector) returns (buf: seq<Byte>)
    ensures buf == Encode(v)
  {
    buf := [];
    for i := 0 to |v|
      invariant buf == Encode(v[..i])
    {
      assert v[..i + 1][..i] == v[..i];
      buf := buf + ToLittleEndian(v[i]);
    }
    assert v[..|v|] == v;
  }

  function Floats(bytes: seq<Byte>): (v: Vector)
    requires |bytes| % 4 == 0
    ensures 4 * |v| == |bytes|
  {
    if bytes == [] then []
    else
      var n := |bytes| - 4;
      Floats(bytes[..n]) + [FromLittleEndian(bytes[n], bytes[n + 1], bytes[n + 2], bytes[n + 3])]
  }

  function Decode(bytes: seq<Byte>): Option<Vector>
  {
    if bytes == [] || |bytes| % 4 != 0 then None else Some(Floats(bytes))
  }

  lemma FloatRoundTrip(f: Float32)
    ensures var b := ToLittleEndian(f); FromLittleEndian(b[0], b[1], b[2], b[3]) == f
  {}

  lemma BytesRoundTrip(b0: Byte, b1: Byte, b2: Byte, b3: Byte)
    ensures ToLittleEndian(FromLittleEndian(b0, b1, b2, b3)) == [b0, b1, b2, b3]
  {
    var f := FromLittleEndian(b0, b1, b2, b3);
    assert f / 0x100 == b1 + 0x100 * (b2 + 0x100 * b3);
    assert f / 0x100 / 0x100 == b2 + 0x100 * b3;
  }

  lemma {:induction false} FloatsOfEncode(v: Vector)
    ensures Floats(Encode(v)) == v
  {
    if v != [] {
      var n := |v| - 1;
      FloatsOfEncode(v[..n]);
      FloatRoundTrip(v[n]);
      assert Encode(v)[..4 * n] == Encode(v[..n]);
    }
  }

  lemma EncodeNext(v: Vector, f: Float32)
    ensures Encode(v + [f]) == Encode(v) + ToLittleEndian(f)
  {
    assert (v + [f])[..|v|] == v;
  }

  lemma {:induction false} EncodeOfFloats(bytes: seq<Byte>)
    requires |bytes| % 4 == 0
    ensures Encode(Floats(bytes)) == bytes
  {
    if bytes != [] {
      var n := |bytes| - 4;
      var front, b0, b1, b2, b3 := bytes[..n], bytes[n], bytes[n + 1], bytes[n + 2], bytes[n + 3];
      EncodeOfFloats(front);
      BytesRoundTrip(b0, b1, b2, b3);
      EncodeNext(Floats(front), FromLittleEndian(b0, b1, b2, b3));
      assert bytes == front + [b0, b1, b2, b3];
    }
  }

  /** Decoding and encoding are inverse: a non-empty vector comes back bit for bit, and no two files
      hold the same vector. */
  lemma DecodeInvertsEncode(v: Vector, bytes: seq<Byte>)
    requires v != []
    ensures Decode(bytes) == Some(v) <==> bytes == Encode(v)
  {
    FloatsOfEncode(v);
    if Decode(bytes).Some? { EncodeOfFloats(bytes); }
  }

  // ── Where an entry lives ──────────────────────────────────────────────────

  datatype Path = Path(shard: string, name: string)

  function EntryPath(digest: string): Path
    requires |digest| >= 2
  {
    Path(digest[..2], digest + ".bin")
  }

  lemma EntryPathInjective(a: string, b: string)
    requires |a| >= 2 && |b| >= 2 && EntryPath(a) == EntryPath(b)
    ensures a == b
  {
    var x, y := a + ".bin", b + ".bin";
    assert a == x[..|x| - 4] && b == y[..|y| - 4];
  }

  // ── The cache as a map ────────────────────────────────────────────────────

  type Digests = map<string, string>
  type Disk = map<Path, seq<Byte>>

  ghost predicate NoCollision(digests: Digests)
  {
    && (forall t | t in digests :: |digests[t]| >= 2)
    && (forall s, t | s in digests && t in digests && digests[s] == digests[t] :: s == t)
  }

  function PathOf(digests: Digests, text: string): Path
    requires text in digests && |digests[text]| >= 2
  {
    EntryPath(digests[text])
  }

  function Lookup(digests: Digests, disk: Disk, text: string): Option<Vector>
    requires text in digests && |digests[text]| >= 2
  {
    var path := PathOf(digests, text);
    if path in disk then Decode(disk[path]) else None
  }

  /** Every text with a readable entry, and its vector. */
  function View(digests: Digests, disk: Disk): map<string, Vector>
    requires forall t | t in digests :: |digests[t]| >= 2
  {
    map t | t in digests && Lookup(digests, disk, t).Some? :: Lookup(digests, disk, t).value
  }

  lemma WriteSetsLookup(digests: Digests, disk: Disk, text: string, v: Vector, t: string)
    requires NoCollision(digests) && text in digests && t in digests && v != []
    ensures var after := disk[PathOf(digests, text) := Encode(v)];
            Lookup(digests, after, t) == if t == text then Some(v) else Lookup(digests, disk, t)
  {
    DecodeInvertsEncode(v, Encode(v));
    if PathOf(digests, t) == PathOf(digests, text) { EntryPathInjective(digests[t], digests[text]); }
  }

  /** Maps of readable entries are equal when all lookups are. */
  lemma ViewOf(digests: Digests, disk: Disk, view: map<string, Vector>)
    requires forall t | t in digests :: |digests[t]| >= 2
    requires view.Keys <= digests.Keys
    requires forall t | t in digests :: Lookup(digests, disk, t) == if t in view then Some(view[t]) else None
    ensures View(digests, disk) == view
  {
    assert forall t :: t in View(digests, disk) <==> t in view;
  }

  lemma WriteSetsView(digests: Digests, disk: Disk, text: string, v: Vector)
    requires NoCollision(digests) && text in digests && v != []
    ensures View(digests, disk[PathOf(digests, text) := Encode(v)]) == View(digests, disk)[text := v]
  {
    var view := View(digests, disk)[text := v];
    forall t | t in digests
      ensures Lookup(digests, disk[PathOf(digests, text) := Encode(v)], t) == if t in view then Some(view[t]) else None
    {
      WriteSetsLookup(digests, disk, text, v, t);
    }
    ViewOf(digests, disk[PathOf(digests, text) := Encode(v)], view);
  }

  lemma RemovingCorruptKeepsView(digests: Digests, disk: Disk, path: Path)
    requires NoCollision(digests) && path in disk && Decode(disk[path]).None?
    ensures View(digests, disk - {path}) == View(digests, disk)
  {
    var view := View(digests, disk);
    forall t | t in digests ensures Lookup(digests, disk - {path}, t) == if t in view then Some(view[t]) else None {
      assert Lookup(digests, disk - {path}, t) == Lookup(digests, disk, t);
    }
    ViewOf(digests, disk - {path}, view);
  }

  /** The first `n` pairs written into a map in order; empty vectors and failed writes change nothing. */
  function PutAll(view: map<string, Vector>, texts: seq<string>, vectors: seq<Vector>, failing: set<nat>, n: nat)
    : map<string, Vector>
    requires n <= |texts| && n <= |vectors|
  {
    if n == 0 then view
    else
      var before := PutAll(view, texts, vectors, failing, n - 1);
      if vectors[n - 1] == [] || n - 1 in failing then before else before[texts[n - 1] := vectors[n - 1]]
  }

  predicate Written(vectors: seq<Vector>, failing: set<nat>, i: nat)
    requires i < |vectors|
  {
    vectors[i] != [] && i !in failing
  }

  /** A text that is not written keeps what it had. */
  lemma {:induction false} UnwrittenKept(view: map<string, Vector>, texts: seq<string>, vectors: seq<Vector>,
                                         failing: set<nat>, n: nat, text: string)
    requires n <= |texts| && n <= |vectors|
    requires forall j | 0 <= j < n && texts[j] == text :: !Written(vectors, failing, j)
    ensures var after := PutAll(view, texts, vectors, failing, n);
            (text in after <==> text in view) && (text in view ==> after[text] == view[text])
  {
    if n > 0 { UnwrittenKept(view, texts, vectors, failing, n - 1, text); }
  }

  /** The last write of a text wins. */
  lemma {:induction false} LastWriteWins(view: map<string, Vector>, texts: seq<string>, vectors: seq<Vector>,
                                         failing: set<nat>, n: nat, i: nat)
    requires i < n <= |texts| && n <= |vectors| && Written(vectors, failing, i)
    requires forall j | i < j < n && texts[j] == texts[i] :: !Written(vectors, failing, j)
    ensures var after := PutAll(view, texts, vectors, failing, n);
            texts[i] in after && after[texts[i]] == vectors[i]
  {
    if i < n - 1 { LastWriteWins(view, texts, vectors, failing, n - 1, i); }
  }

  /** No empty vector is ever found in the cache, whatever the files hold. */
  lemma NeverEmpty(digests: Digests, disk: Disk, text: string)
    requires forall t | t in digests :: |digests[t]| >= 2
    requires text in View(digests, disk)
    ensures View(digests, disk)[text] != []
  {
    assert Decode(disk[PathOf(digests, text)]).Some?;
  }

  function Shorter(a: nat, b: nat): (r: nat)
    ensures r <= a && r <= b && (r == a || r == b)
  {
    if a <= b then a else b
  }

  datatype Hit = Hit(index: nat, vector: Vector)

  /** Whether text `i` can be answered. */
  predicate IsHit(view: map<string, Vector>, texts: seq<string>, failing: set<nat>, i: nat)
    requires i < |texts|
  {
    i !in failing && texts[i] in view
  }

  ghost predicate Ascending(s: seq<nat>)
  {
    forall k, l | 0 <= k < l < |s| :: s[k] < s[l]
  }

  function IndicesOf(hits: seq<Hit>): seq<nat>
  {
    seq(|hits|, k requires 0 <= k < |hits| => hits[k].index)
  }

  /** The first `n` texts split into hits with their vectors and misses, each in order. */
  ghost predicate Splits(view: map<string, Vector>, texts: seq<string>, failing: set<nat>, n: nat,
                         hits: seq<Hit>, misses: seq<nat>)
    requires n <= |texts|
  {
    && Ascending(IndicesOf(hits)) && Ascending(misses)
    && (forall i: nat :: i in IndicesOf(hits) <==> i < n && IsHit(view, texts, failing, i))
    && (forall i: nat :: i in misses <==> i < n && !IsHit(view, texts, failing, i))
    && forall k | 0 <= k < |hits| :: hits[k].index < n && IsHit(view, texts, failing, hits[k].index)
                                     && hits[k].vector == view[texts[hits[k].index]]
  }

  /** While every read works, the misses are exactly the texts the cache does not hold, and a text whose
      read fails is a miss. Every text is one of the two, and none is both. */
  lemma MissIff(view: map<string, Vector>, texts: seq<string>, failing: set<nat>, hits: seq<Hit>, misses: seq<nat>, i: nat)
    requires Splits(view, texts, failing, |texts|, hits, misses) && i < |texts|
    ensures i !in failing ==> (i in misses <==> texts[i] !in view)
    ensures i in failing ==> i in misses
    ensures i in IndicesOf(hits) <==> i !in misses
    ensures forall k, l | 0 <= k < l < |hits| :: hits[k].index < hits[l].index
    ensures forall k, l | 0 <= k < l < |misses| :: misses[k] < misses[l]
    ensures forall k | 0 <= k < |hits| && hits[k].index == i :: texts[i] in view && hits[k].vector == view[texts[i]]
  {
    forall k, l | 0 <= k < l < |hits| ensures hits[k].index < hits[l].index {
      assert IndicesOf(hits)[k] < IndicesOf(hits)[l];
    }
  }

  lemma SplitsMiss(view: map<string, Vector>, texts: seq<string>, failing: set<nat>, n: nat, hits: seq<Hit>, misses: seq<nat>)
    requires n < |texts| && Splits(view, texts, failing, n, hits, misses) && !IsHit(view, texts, failing, n)
    ensures Splits(view, texts, failing, n + 1, hits, misses + [n])
  {
    assert forall k | 0 <= k < |misses| :: misses[k] in misses;
  }

  lemma SplitsHit(view: map<string, Vector>, texts: seq<string>, failing: set<nat>, n: nat, hits: seq<Hit>, misses: seq<nat>)
    requires n < |texts| && Splits(view, texts, failing, n, hits, misses) && IsHit(view, texts, failing, n)
    ensures Splits(view, texts, failing, n + 1, hits + [Hit(n, view[texts[n]])], misses)
  {
    var more := hits + [Hit(n, view[texts[n]])];
    assert IndicesOf(more) == IndicesOf(hits) + [n];
    assert forall k | 0 <= k < |hits| :: IndicesOf(hits)[k] in IndicesOf(hits);
  }

  class Cache {
    const digests: Digests
    var disk: Disk

    ghost predicate Valid()
    {
      NoCollision(digests)
    }

    constructor (digests: Digests, disk: Disk)
      requires NoCollision(digests)
      ensures Valid() && this.digests == digests && this.disk == disk
    {
      this.digests, this.disk := digests, disk;
    }

    /** `failing` are the positions at which a file operation fails. */
    method PutMany(texts: seq<string>, vectors: seq<Vector>, failing: set<nat>)
      requires Valid() && forall t | t in texts :: t in digests
      modifies this
      ensures View(digests, disk)
           == PutAll(old(View(digests, disk)), texts, vectors, failing, Shorter(|texts|, |vectors|))
    {
      ghost var view := View(digests, disk);
      for i := 0 to Shorter(|texts|, |vectors|)
        invariant View(digests, disk) == PutAll(view, texts, vectors, failing, i)
      {
        if vectors[i] == [] {
          continue;
        }
        var path := PathOf(digests, texts[i]);
        var bytes := EncodeEmbedding(vectors[i]);
        if i in failing {
          continue;
        }
        WriteSetsView(digests, disk, texts[i], vectors[i]);
        disk := disk[path := bytes];
      }
    }

    /** `stuck` are the positions at which a corrupt file cannot be removed. */
    method GetMany(texts: seq<string>, failing: set<nat>, stuck: set<nat>) returns (hits: seq<Hit>, misses: seq<nat>)
      requires Valid() && forall t | t in texts :: t in digests
      modifies this
      ensures Splits(old(View(digests, disk)), texts, failing, |texts|, hits, misses)
      ensures View(digests, disk) == old(View(digests, disk))
      ensures forall p | p in disk :: p in old(disk) && disk[p] == old(disk)[p]
      ensures forall p | p in old(disk) && p !in disk :: Decode(old(disk)[p]).None?
      ensures forall i | 0 <= i < |texts| && i !in failing + stuck ::
                PathOf(digests, texts[i]) in disk ==> Decode(disk[PathOf(digests, texts[i])]).Some?
    {
      ghost var view := View(digests, disk);
      hits, misses := [], [];
      for i := 0 to |texts|
        invariant View(digests, disk) == view && Splits(view, texts, failing, i, hits, misses)
        invariant forall p | p in disk :: p in old(disk) && disk[p] == old(disk)[p]
        invariant forall p | p in old(disk) && p !in disk :: Decode(old(disk)[p]).None?
        invariant forall j | 0 <= j < i && j !in failing + stuck ::
                    PathOf(digests, texts[j]) in disk ==> Decode(disk[PathOf(digests, texts[j])]).Some?
      {
        var path := PathOf(digests, texts[i]);
        assert (texts[i] in view) == Lookup(digests, disk, texts[i]).Some?;
        if i in failing || path !in disk {
          SplitsMiss(view, texts, failing, i, hits, misses);
          misses := misses + [i];
          continue;
        }
        match Decode(disk[path])
        case Some(v) =>
          SplitsHit(view, texts, failing, i, hits, misses);
          hits := hits + [Hit(i, v)];
        case None =>
          if i !in stuck {
            RemovingCorruptKeepsView(digests, disk, path);
            disk := disk - {path};
          }
          SplitsMiss(view, texts, failing, i, hits, misses);
          misses := misses + [i];
      }
    }
  }
}
