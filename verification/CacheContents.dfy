/** What a block cache holds, and the disk that a client sees through it. */
module CacheContents {
  import opened Bits
  import opened Addresses
  import opened BlockAddresses

  type Byte = b: int | 0 <= b < 256

  datatype Chunk = Chunk(tag: nat, occupied: bool, dirty: bool)

  /** Metadata and buffer of the cache, and the bytes of the store below it. */
  datatype Contents = Contents(g: Geometry, metadata: seq<Chunk>, buffer: seq<Byte>, disk: seq<Byte>)

  // ---- Chunks of a byte sequence ----

  function Slice(s: seq<Byte>, i: nat): (r: seq<Byte>)
    requires (i + 1) * PAGE_SIZE <= |s|
    ensures |r| == PAGE_SIZE
  {
    s[i * PAGE_SIZE..(i + 1) * PAGE_SIZE]
  }

  function Splice(s: seq<Byte>, at: nat, bytes: seq<Byte>): (r: seq<Byte>)
    requires at + |bytes| <= |s|
    ensures |r| == |s|
  {
    s[..at] + bytes + s[at + |bytes|..]
  }

  /** Writing inside chunk `i` changes that chunk and no other. */
  lemma SliceOfSplice(s: seq<Byte>, i: nat, at: nat, bytes: seq<Byte>, j: nat)
    requires (i + 1) * PAGE_SIZE <= |s| && at + |bytes| <= PAGE_SIZE && (j + 1) * PAGE_SIZE <= |s|
    ensures Slice(Splice(s, i * PAGE_SIZE + at, bytes), j) == if i == j then Splice(Slice(s, i), at, bytes) else Slice(s, j)
  {
    var s' := Splice(s, i * PAGE_SIZE + at, bytes);
    if i == j {
      var x, y := Slice(s', i), Splice(Slice(s, i), at, bytes);
      forall k | 0 <= k < PAGE_SIZE ensures x[k] == y[k] {
        assert x[k] == s'[i * PAGE_SIZE + k] && Slice(s, i)[k] == s[i * PAGE_SIZE + k];
      }
    } else {
      var x, y := Slice(s', j), Slice(s, j);
      forall k | 0 <= k < PAGE_SIZE ensures x[k] == y[k] {
        assert x[k] == s'[j * PAGE_SIZE + k] && y[k] == s[j * PAGE_SIZE + k];
        assert j * PAGE_SIZE + k < i * PAGE_SIZE || j * PAGE_SIZE + k >= (i + 1) * PAGE_SIZE;
      }
    }
  }

  lemma SpliceAll(s: seq<Byte>, bytes: seq<Byte>)
    requires |s| == |bytes|
    ensures Splice(s, 0, bytes) == bytes
  {
  }

  // ---- Where a chunk is cached ----

  function Slots(g: Geometry): nat { Pow2(g.idBits) }

  function SlotOf(g: Geometry, n: nat): nat { n % Pow2(g.idBits) }

  function TagOf(g: Geometry, n: nat): nat {
    ModSplit(n, Pow2(g.idBits));
    n / Pow2(g.idBits)
  }

  lemma SlotTag(g: Geometry, n: nat)
    ensures SlotOf(g, n) < Slots(g) && ChunkNumber(g, TagOf(g, n), SlotOf(g, n)) == n && TagOf(g, n) <= n
  {
    hide Pow2;
    ModSplit(n, Pow2(g.idBits));
    assert n / Pow2(g.idBits) * Pow2(g.idBits) >= n / Pow2(g.idBits) by { MulAtLeastSelf(n / Pow2(g.idBits), Pow2(g.idBits)); }
  }

  lemma MulAtLeastSelf(q: nat, d: nat)
    requires d >= 1
    ensures q * d >= q
  {
    assert q * (d - 1) >= 0;
    assert q * (d - 1) == q * d - q;
  }

  lemma NumberParts(g: Geometry, tag: nat, id: nat)
    requires id < Slots(g)
    ensures SlotOf(g, ChunkNumber(g, tag, id)) == id && TagOf(g, ChunkNumber(g, tag, id)) == tag
  {
    DivModUnique(ChunkNumber(g, tag, id), Pow2(g.idBits), tag, id);
  }

  ghost function Chunks(c: Contents): nat { |c.disk| / PAGE_SIZE }

  /** The chunk that slot `id` caches. */
  ghost function NumberAt(c: Contents, id: nat): nat
    requires id < |c.metadata|
  {
    ChunkNumber(c.g, c.metadata[id].tag, id)
  }

  /** The sizes agree, only loaded chunks are dirty, and what is cached is on the disk. */
  ghost predicate Shaped(c: Contents) {
    && c.g.Ok() && |c.metadata| == c.g.numChunks && |c.buffer| == c.g.numChunks * PAGE_SIZE
    && |c.disk| % PAGE_SIZE == 0 && |c.disk| <= ADDRESSES
    && forall id :: 0 <= id < Slots(c.g) ==> SlotOk(c, id)
  }

  ghost predicate SlotOk(c: Contents, id: nat)
    requires id < |c.metadata|
  {
    && (c.metadata[id].dirty ==> c.metadata[id].occupied)
    && (c.metadata[id].occupied ==> NumberAt(c, id) < Chunks(c))
  }

  /** A clean chunk is as it is on the disk. */
  ghost predicate Coherent(c: Contents, id: nat)
    requires Shaped(c) && id < Slots(c.g)
  {
    SlotOk(c, id) &&
    (c.metadata[id].occupied && !c.metadata[id].dirty ==> Slice(c.buffer, id) == Slice(c.disk, NumberAt(c, id)))
  }

  ghost predicate Valid(c: Contents) {
    Shaped(c) && forall id :: 0 <= id < Slots(c.g) ==> Coherent(c, id)
  }

  ghost predicate Caches(c: Contents, n: nat)
    requires Shaped(c)
  {
    SlotTag(c.g, n);
    c.metadata[SlotOf(c.g, n)].occupied && c.metadata[SlotOf(c.g, n)].tag == TagOf(c.g, n)
  }

  /** Chunk `n` as seen through the cache. */
  ghost function ViewChunk(c: Contents, n: nat): (r: seq<Byte>)
    requires Shaped(c) && n < Chunks(c)
    ensures |r| == PAGE_SIZE
  {
    SlotTag(c.g, n);
    if Caches(c, n) then Slice(c.buffer, SlotOf(c.g, n)) else Slice(c.disk, n)
  }

  ghost function View(c: Contents): (r: seq<seq<Byte>>)
    requires Shaped(c)
    ensures |r| == Chunks(c)
    ensures forall n :: 0 <= n < |r| ==> r[n] == ViewChunk(c, n)
  {
    seq(Chunks(c), n requires 0 <= n < Chunks(c) => ViewChunk(c, n))
  }

  // ---- What loading a chunk does ----

  /** Slot `id` written back to the disk. */
  ghost function WrittenBack(c: Contents, id: nat): (r: Contents)
    requires Shaped(c) && id < Slots(c.g) && c.metadata[id].occupied
    ensures |r.disk| == |c.disk|
  {
    assert SlotOk(c, id);
    c.(disk := Splice(c.disk, NumberAt(c, id) * PAGE_SIZE, Slice(c.buffer, id)))
  }

  lemma WrittenBackDisk(c: Contents, id: nat, n: nat)
    requires Shaped(c) && id < Slots(c.g) && c.metadata[id].occupied && n < Chunks(c)
    ensures Shaped(WrittenBack(c, id))
    ensures Slice(WrittenBack(c, id).disk, n) == if n == NumberAt(c, id) then Slice(c.buffer, id) else Slice(c.disk, n)
  {
    var r := WrittenBack(c, id);
    assert SlotOk(c, id);
    SliceOfSplice(c.disk, NumberAt(c, id), 0, Slice(c.buffer, id), n);
    SpliceAll(Slice(c.disk, NumberAt(c, id)), Slice(c.buffer, id));
    forall j | 0 <= j < Slots(c.g) ensures SlotOk(r, j) {
      assert SlotOk(c, j);
    }
  }

  /** Writing a slot back does not change what is seen. */
  lemma WrittenBackView(c: Contents, id: nat)
    requires Shaped(c) && id < Slots(c.g) && c.metadata[id].occupied
    ensures Shaped(WrittenBack(c, id)) && View(WrittenBack(c, id)) == View(c)
  {
    var r := WrittenBack(c, id);
    assert SlotOk(c, id);
    WrittenBackDisk(c, id, NumberAt(c, id));
    forall n | 0 <= n < Chunks(c) ensures ViewChunk(r, n) == ViewChunk(c, n) {
      WrittenBackDisk(c, id, n);
      NumberParts(c.g, c.metadata[id].tag, id);
    }
  }

  lemma WrittenBackValid(c: Contents, id: nat)
    requires Valid(c) && id < Slots(c.g) && c.metadata[id].occupied
    ensures Valid(WrittenBack(c, id))
  {
    var r := WrittenBack(c, id);
    assert SlotOk(c, id);
    WrittenBackDisk(c, id, NumberAt(c, id));
    forall j | 0 <= j < Slots(c.g) ensures Coherent(r, j) {
      assert Coherent(c, j) && SlotOk(c, j);
      if c.metadata[j].occupied {
        WrittenBackDisk(c, id, NumberAt(c, j));
        NumberParts(c.g, c.metadata[j].tag, j);
        NumberParts(c.g, c.metadata[id].tag, id);
      }
    }
  }

  /** Chunk `n` read from the disk into its slot. */
  ghost function Filled(c: Contents, n: nat, dirty: bool): (r: Contents)
    requires Shaped(c) && n < Chunks(c)
  {
    SlotTag(c.g, n);
    var id := SlotOf(c.g, n);
    c.(buffer := Splice(c.buffer, id * PAGE_SIZE, Slice(c.disk, n)),
       metadata := c.metadata[id := Chunk(TagOf(c.g, n), true, dirty)])
  }

  lemma FilledBuffer(c: Contents, n: nat, dirty: bool, j: nat)
    requires Shaped(c) && n < Chunks(c) && j < Slots(c.g)
    ensures Slice(Filled(c, n, dirty).buffer, j) == if j == SlotOf(c.g, n) then Slice(c.disk, n) else Slice(c.buffer, j)
  {
    SlotTag(c.g, n);
    var id := SlotOf(c.g, n);
    SliceOfSplice(c.buffer, id, 0, Slice(c.disk, n), j);
    SpliceAll(Slice(c.buffer, id), Slice(c.disk, n));
  }

  lemma FilledShaped(c: Contents, n: nat, dirty: bool)
    requires Shaped(c) && n < Chunks(c)
    ensures Shaped(Filled(c, n, dirty)) && Caches(Filled(c, n, dirty), n)
  {
    var r := Filled(c, n, dirty);
    SlotTag(c.g, n);
    forall j | 0 <= j < Slots(c.g) ensures SlotOk(r, j) {
      assert SlotOk(c, j);
    }
  }

  /** What is seen of the chunk that a load pushes out of its slot: the disk. */
  lemma FilledView(c: Contents, n: nat, dirty: bool, m: nat)
    requires Shaped(c) && n < Chunks(c) && !Caches(c, n) && m < Chunks(c)
    ensures Shaped(Filled(c, n, dirty))
    ensures ViewChunk(Filled(c, n, dirty), m)
         == if Caches(c, m) && SlotOf(c.g, m) == SlotOf(c.g, n) then Slice(c.disk, m) else ViewChunk(c, m)
  {
    FilledShaped(c, n, dirty);
    SlotTag(c.g, m);
    SlotTag(c.g, n);
    FilledBuffer(c, n, dirty, SlotOf(c.g, m));
    assert SlotOf(c.g, m) == SlotOf(c.g, n) && TagOf(c.g, m) == TagOf(c.g, n) ==> m == n;
  }

  lemma FilledCoherent(c: Contents, n: nat, dirty: bool, j: nat)
    requires Shaped(c) && n < Chunks(c) && j < Slots(c.g)
    ensures Shaped(Filled(c, n, dirty))
    ensures j == SlotOf(c.g, n) || Coherent(c, j) ==> Coherent(Filled(c, n, dirty), j)
  {
    FilledShaped(c, n, dirty);
    SlotTag(c.g, n);
    FilledBuffer(c, n, dirty, j);
    assert SlotOk(c, j) && SlotOk(Filled(c, n, dirty), j);
  }

  // ---- What writing into a cached chunk does ----

  ghost function Written(c: Contents, n: nat, at: nat, bytes: seq<Byte>): (r: Contents)
    requires Shaped(c) && n < Chunks(c) && at + |bytes| <= PAGE_SIZE
  {
    SlotTag(c.g, n);
    c.(buffer := Splice(c.buffer, SlotOf(c.g, n) * PAGE_SIZE + at, bytes))
  }

  lemma WrittenShaped(c: Contents, n: nat, at: nat, bytes: seq<Byte>)
    requires Shaped(c) && n < Chunks(c) && at + |bytes| <= PAGE_SIZE
    ensures Shaped(Written(c, n, at, bytes))
  {
    SlotTag(c.g, n);
    var r := Written(c, n, at, bytes);
    forall j | 0 <= j < Slots(c.g) ensures SlotOk(r, j) {
      assert SlotOk(c, j);
    }
  }

  /** The write is seen, and nothing else changes. */
  lemma WrittenView(c: Contents, n: nat, at: nat, bytes: seq<Byte>)
    requires Shaped(c) && n < Chunks(c) && at + |bytes| <= PAGE_SIZE && Caches(c, n)
    ensures Shaped(Written(c, n, at, bytes))
    ensures View(Written(c, n, at, bytes)) == View(c)[n := Splice(View(c)[n], at, bytes)]
  {
    WrittenShaped(c, n, at, bytes);
    SlotTag(c.g, n);
    var r, view := Written(c, n, at, bytes), View(c)[n := Splice(View(c)[n], at, bytes)];
    forall m | 0 <= m < Chunks(c) ensures ViewChunk(r, m) == view[m] {
      SlotTag(c.g, m);
      SliceOfSplice(c.buffer, SlotOf(c.g, n), at, bytes, SlotOf(c.g, m));
    }
  }

  /** The cache stays coherent exactly when the chunk is marked dirty or its bytes do not change. */
  lemma WrittenValid(c: Contents, n: nat, at: nat, bytes: seq<Byte>)
    requires Valid(c) && n < Chunks(c) && at + |bytes| <= PAGE_SIZE && Caches(c, n)
    ensures Valid(Written(c, n, at, bytes)) <==>
      SlotOf(c.g, n) < |c.metadata| && (c.metadata[SlotOf(c.g, n)].dirty || bytes == ViewChunk(c, n)[at..at + |bytes|])
  {
    WrittenShaped(c, n, at, bytes);
    SlotTag(c.g, n);
    var r, id := Written(c, n, at, bytes), SlotOf(c.g, n);
    assert NumberAt(c, id) == n;
    forall j | 0 <= j < Slots(c.g) && j != id ensures Coherent(r, j) {
      assert Coherent(c, j) && SlotOk(r, j);
      SliceOfSplice(c.buffer, id, at, bytes, j);
    }
    assert Coherent(c, id) && SlotOk(r, id);
    SliceOfSplice(c.buffer, id, at, bytes, id);
    SpliceSame(Slice(c.buffer, id), at, bytes);
    assert Coherent(r, id) <==> c.metadata[id].dirty || bytes == ViewChunk(c, n)[at..at + |bytes|];
  }

  lemma SpliceSame(s: seq<Byte>, at: nat, bytes: seq<Byte>)
    requires at + |bytes| <= |s|
    ensures Splice(s, at, bytes) == s <==> bytes == s[at..at + |bytes|]
    ensures Splice(s, at, bytes)[at..at + |bytes|] == bytes
  {
    var r := Splice(s, at, bytes);
    assert r[at..at + |bytes|] == bytes;
    if bytes == s[at..at + |bytes|] {
      assert r == s;
    }
  }
}
