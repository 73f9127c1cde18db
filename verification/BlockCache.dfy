/** The write-back block cache, for accesses that stay inside one chunk. Errors of the store are
    decided by the environment; an access beyond its end is an error too. */
module BlockCache {
  import opened Wrappers
  import opened Bits
  import opened Addresses
  import opened BlockAddresses
  import opened CacheContents

  /** Whether the store will serve the next write and the next read. */
  datatype Health = Health(writeOk: bool, readOk: bool)

  datatype Outcome<+T> = Done(value: T) | StoreError | AssertionFailed

  /** The tag field of the metadata has 62 bits. */
  const TAGS: nat := 0x4000_0000_0000_0000

  /** `usize::ilog2` */
  function Log2(n: nat): (k: nat)
    requires n > 0
    ensures Pow2(k) <= n < 2 * Pow2(k)
  {
    if n == 1 then 0 else 1 + Log2(n / 2)
  }

  /** The geometry of a cache of so many pages over blocks of this size. */
  function GeometryOf(blockSize: nat, pages: nat): Geometry
    requires 0 < blockSize <= PAGE_SIZE && pages > 0
  {
    BlocksInPage(blockSize);
    Geometry(blockSize, Log2(PAGE_SIZE / blockSize), Log2(pages), pages)
  }

  lemma BlocksInPage(blockSize: nat)
    requires 0 < blockSize <= PAGE_SIZE
    ensures PAGE_SIZE / blockSize > 0
  {
  }

  /** The byte of the disk that an access starts at. */
  function StartByte(g: Geometry, address: nat, byteOffset: nat): nat { address * g.blockSize + byteOffset }

  lemma SameStart(g: Geometry, address: nat, byteOffset: nat)
    requires g.blockSize > 0
    ensures StartByte(g, address + byteOffset / g.blockSize, byteOffset % g.blockSize) == StartByte(g, address, byteOffset)
  {
    var q, r, size := byteOffset / g.blockSize, byteOffset % g.blockSize, g.blockSize;
    ModSplit(byteOffset, size);
    Distribute(address + q, q, size);
  }

  /** The block address of a chunk designates the bytes of the chunk. */
  lemma ChunkStart(g: Geometry, tag: nat, id: nat)
    requires g.Ok() && id < Slots(g)
    ensures ComposeAddress(g, tag, id) * g.blockSize == ChunkNumber(g, tag, id) * PAGE_SIZE
  {
    ComposeIsMul(g, tag, id);
    MulSwap(ChunkNumber(g, tag, id), Pow2(g.offsetBits), g.blockSize);
    hide ComposeAddress, Pow2, ChunkNumber;
  }

  lemma MulSwap(n: nat, b: nat, size: nat)
    ensures n * b * size == n * (size * b)
  {
  }

  /** What decomposing the address of an access says about the bytes it designates. */
  lemma PlaceOfByte(g: Geometry, address: nat, byteOffset: nat)
    requires g.Ok() && byteOffset < g.blockSize && address < ADDRESSES && Decompose(g, address).Some?
    ensures var p, a := Decompose(g, address).value, StartByte(g, address, byteOffset);
            && p.id < Slots(g) && ChunkNumber(g, p.tag, p.id) == a / PAGE_SIZE
            && SlotOf(g, a / PAGE_SIZE) == p.id && TagOf(g, a / PAGE_SIZE) == p.tag
            && p.offset * g.blockSize + byteOffset == a % PAGE_SIZE
  {
    ComposeOfDecompose(g, address);
    ByteInChunk(g, address, byteOffset);
    FieldsAreDivMod(g, address);
    hide Field, Pow2;
    var p := Decompose(g, address).value;
    NumberParts(g, p.tag, p.id);
  }

  class BlockCache {
    const g: Geometry
    var metadata: seq<Chunk>
    var buffer: seq<Byte>
    var disk: seq<Byte>

    ghost function Now(): Contents
      reads this
    {
      Contents(g, metadata, buffer, disk)
    }

    /** `new`, over a store whose blocks are smaller than a page. */
    constructor (blockSize: nat, maxSizeInPages: nat, disk: seq<Byte>, contents: seq<Byte>)
      requires exists k: nat :: k < 12 && blockSize == Pow2(k)
      requires 0 < maxSizeInPages < 0x8_0000_0000_0000 && |contents| == maxSizeInPages * PAGE_SIZE
      requires |disk| % PAGE_SIZE == 0 && |disk| <= ADDRESSES
      ensures Valid(Now()) && this.disk == disk && buffer == contents
      ensures 0 < blockSize <= PAGE_SIZE && g == GeometryOf(blockSize, maxSizeInPages)
      ensures forall id :: 0 <= id < |metadata| ==> metadata[id] == Chunk(0, false, false)
      ensures forall n :: 0 <= n < Chunks(Now()) ==> View(Now())[n] == Slice(disk, n)
    {
      hide Valid, View, Shaped, Log2, Pow2;
      GeometryOk(blockSize, maxSizeInPages);
      var blocksPerChunk := PAGE_SIZE / blockSize;
      g := Geometry(blockSize, Log2(blocksPerChunk), Log2(maxSizeInPages), maxSizeInPages);
      metadata := seq(maxSizeInPages, _ => Chunk(0, false, false));
      buffer := contents;
      this.disk := disk;
      new;
      NothingCached(Now());
    }

    /** Writes a dirty slot back to the store. */
    method WriteBack(id: nat, health: Health) returns (ok: bool)
      requires Shaped(Now()) && id < Slots(g) && metadata[id].occupied
      modifies this`disk
      ensures ok == health.writeOk && (!ok ==> disk == old(disk))
      ensures ok ==> Now() == WrittenBack(old(Now()), id)
    {
      assert SlotOk(Now(), id);
      ok := health.writeOk;
      if ok {
        ChunkStart(g, metadata[id].tag, id);
        disk := Splice(disk, ComposeAddress(g, metadata[id].tag, id) * g.blockSize, Slice(buffer, id));
      }
    }

    /** Reads a chunk from the store into its slot. */
    method Fill(tag: nat, id: nat, markDirty: bool, health: Health) returns (ok: bool)
      requires Shaped(Now()) && id < Slots(g)
      modifies this`metadata, this`buffer
      ensures ok == (health.readOk && ChunkNumber(g, tag, id) < Chunks(Now()))
      ensures !ok ==> metadata == old(metadata) && buffer == old(buffer)
      ensures ok ==> Now() == Filled(old(Now()), ChunkNumber(g, tag, id), markDirty)
    {
      ChunkStart(g, tag, id);
      ghost var n := ChunkNumber(g, tag, id);
      NumberParts(g, tag, id);
      hide ComposeAddress, ChunkNumber, SlotOf, TagOf;
      var start := ComposeAddress(g, tag, id) * g.blockSize;
      ok := health.readOk && start + PAGE_SIZE <= |disk|;
      if ok {
        assert disk[start..start + PAGE_SIZE] == Slice(disk, n);
        buffer := Splice(buffer, id * PAGE_SIZE, disk[start..start + PAGE_SIZE]);
        SmallTag(g, n);
        metadata := metadata[id := Chunk(tag % TAGS, true, markDirty)];
      }
    }

    /** `load_chunk`: unless the chunk is cached, its slot is written back when it is dirty, and filled. */
    method LoadChunk(tag: nat, id: nat, markDirty: bool, health: Health) returns (ok: bool)
      requires Shaped(Now()) && id < Slots(g)
      modifies this`metadata, this`buffer, this`disk
      ensures Shaped(Now()) && LoadEffect(old(Now()), Now(), tag, id, markDirty, ok)
      ensures old(Valid(Now())) ==> Valid(Now())
      ensures health.writeOk && health.readOk && ChunkNumber(g, tag, id) < Chunks(old(Now())) ==> ok
    {
      hide Valid, View, Shaped, NumberAt, ChunkNumber, LoadEffect, WrittenBack, Filled;
      ghost var before := Now();
      LoadFacts(before, tag, id);
      var md := metadata[id];
      if md.occupied && md.tag == tag {
        LoadDone(before, tag, id, markDirty);
        return true;
      }
      if md.dirty {
        var written := WriteBack(id, health);
        if !written {
          LoadFails(before, before, tag, id, markDirty);
          return false;
        }
      }
      ghost var middle := Now();
      Evicted(before, tag, id);
      ok := Fill(tag, id, markDirty, health);
      if ok {
        EvictedFilled(before, tag, id, markDirty);
      } else {
        LoadFails(before, middle, tag, id, markDirty);
      }
    }

    /** The chunk and block of an access, and its offset inside that block. */
    method Locate(address: nat, byteOffset: nat) returns (place: Option<Place>, within: nat)
      requires g.Ok() && g.blockSize > 0 && address + byteOffset / g.blockSize < ADDRESSES
      ensures place.None? <==> Misjudged(g, address, byteOffset)
      ensures place.Some? ==>
        var p, a := place.value, StartByte(g, address, byteOffset);
        && p.id < Slots(g) && ChunkNumber(g, p.tag, p.id) == a / PAGE_SIZE
        && SlotOf(g, a / PAGE_SIZE) == p.id && TagOf(g, a / PAGE_SIZE) == p.tag
        && p.offset * g.blockSize + within == a % PAGE_SIZE
    {
      SameStart(g, address, byteOffset);
      AddressOk(g, address, byteOffset);
      var address' := address;
      within := byteOffset;
      if within >= g.blockSize {
        address' := address' + within / g.blockSize;
        within := within % g.blockSize;
      }
      place := Decompose(g, address');
      if place.Some? {
        PlaceOfByte(g, address', within);
      }
    }

    /** `copy_bytes`, for an access inside one chunk: it loads the chunk and returns the bytes that a
        client sees there. */
    method CopyBytes(address: nat, byteOffset: nat, len: nat, health: Health) returns (r: Outcome<seq<Byte>>)
      requires Shaped(Now()) && InOneChunk(g, address, byteOffset, len)
      modifies this`metadata, this`buffer, this`disk
      ensures Shaped(Now()) && |disk| == |old(disk)|
      ensures old(Valid(Now())) ==> Valid(Now()) && View(Now()) == old(View(Now()))
      ensures r.AssertionFailed? <==> Misjudged(g, address, byteOffset)
      ensures r.Done? ==> |r.value| == len && (len > 0 ==> r.value == Seen(g, View(Now()), address, byteOffset, len))
      ensures if len == 0 || r.AssertionFailed? then Now() == old(Now())
              else Loads(old(Now()), Now(), StartByte(g, address, byteOffset) / PAGE_SIZE, false, r.Done?)
      ensures health == Health(true, true) && OnDisk(old(Now()), address, byteOffset) ==> !r.StoreError?
    {
      var place, within := Locate(address, byteOffset);
      if place.None? {
        return AssertionFailed;
      }
      hide SlotOf, TagOf, ChunkNumber, Valid, View, Shaped, StartByte, Misjudged, LoadEffect, Pow2, Caches, Seen, Loads;
      var tag, id := place.value.tag, place.value.id;
      ghost var n, at := StartByte(g, address, byteOffset) / PAGE_SIZE, StartByte(g, address, byteOffset) % PAGE_SIZE;
      ghost var before := Now();
      if len > 0 {
        var ok := LoadChunk(tag, id, false, health);
        LoadsIs(before, Now(), n, false, ok);
        if !ok {
          return StoreError;
        }
        LoadedChunk(before, Now(), n, false);
      }
      BufferSize(Now(), id);
      var offset := id * PAGE_SIZE + place.value.offset * g.blockSize + within;
      assert offset == id * PAGE_SIZE + at;
      r := Done(buffer[offset..offset + len]);
      if len > 0 {
        SeenInBuffer(Now(), address, byteOffset, len);
      }
    }

    /** `write_bytes`, for an access inside one chunk: the write is seen and nothing else changes,
        but the cache stays coherent exactly when the chunk was absent or already dirty, or the
        bytes were there already. */
    method WriteBytes(address: nat, byteOffset: nat, src: seq<Byte>, health: Health)
      returns (r: Outcome<()>, ghost loaded: Contents)
      requires Shaped(Now()) && InOneChunk(g, address, byteOffset, |src|)
      modifies this`metadata, this`buffer, this`disk
      ensures Shaped(Now()) && |disk| == |old(disk)|
      ensures old(Valid(Now())) && (!r.Done? || src == []) ==> Valid(Now()) && View(Now()) == old(View(Now()))
      ensures r.Done? && src != [] ==> OnDisk(old(Now()), address, byteOffset)
      ensures Shaped(loaded) && loaded.g == g && |loaded.disk| == |old(disk)|
      ensures if src == [] || r.AssertionFailed? then loaded == old(Now()) == Now()
              else Loads(old(Now()), loaded, StartByte(g, address, byteOffset) / PAGE_SIZE, true, r.Done?)
      ensures r.Done? && src != [] ==>
        Now() == Written(loaded, StartByte(g, address, byteOffset) / PAGE_SIZE, StartByte(g, address, byteOffset) % PAGE_SIZE, src)
      ensures r.StoreError? ==> Now() == loaded
      ensures old(Valid(Now())) && r.Done? && src != [] ==>
        && View(Now()) == Overwritten(g, old(View(Now())), address, byteOffset, src)
        && (Valid(Now()) <==> SafeWrite(old(Now()), address, byteOffset, src))
      ensures r.AssertionFailed? <==> Misjudged(g, address, byteOffset)
      ensures health == Health(true, true) && OnDisk(old(Now()), address, byteOffset) ==> !r.StoreError?
    {
      loaded := Now();
      var place, within := Locate(address, byteOffset);
      if place.None? {
        return AssertionFailed, loaded;
      }
      hide SlotOf, TagOf, ChunkNumber, Valid, View, Shaped, StartByte, Misjudged, LoadEffect, Pow2, Caches, Overwritten, SafeWrite,
        Loads;
      var tag, id := place.value.tag, place.value.id;
      ghost var n, at := StartByte(g, address, byteOffset) / PAGE_SIZE, StartByte(g, address, byteOffset) % PAGE_SIZE;
      ghost var before := Now();
      if |src| > 0 {
        var ok := LoadChunk(tag, id, true, health);
        LoadsIs(before, Now(), n, true, ok);
        loaded := Now();
        if !ok {
          return StoreError, loaded;
        }
        LoadedChunk(before, Now(), n, true);
      }
      BufferSize(Now(), id);
      var offset := id * PAGE_SIZE + place.value.offset * g.blockSize + within;
      buffer := Splice(buffer, offset, src);
      r := Done(());
      if |src| > 0 {
        assert Now() == Written(loaded, n, at, src);
        AfterWrite(before, loaded, address, byteOffset, src);
      } else {
        assert Now() == before;
      }
    }
  }

  /** The access is inside one chunk, and its block address is a 64-bit number. */
  ghost predicate InOneChunk(g: Geometry, address: nat, byteOffset: nat, len: nat) {
    && StartByte(g, address, byteOffset) % PAGE_SIZE + len <= PAGE_SIZE
    && (g.Ok() ==> g.blockSize > 0 && address + byteOffset / g.blockSize < ADDRESSES)
  }

  /** The assertion on the block offset fails: it compares a number of blocks with the size of a block. */
  ghost predicate Misjudged(g: Geometry, address: nat, byteOffset: nat) {
    g.blockSize > 0 && StartByte(g, address, byteOffset) % PAGE_SIZE / g.blockSize >= g.blockSize
  }

  ghost predicate OnDisk(c: Contents, address: nat, byteOffset: nat) {
    StartByte(c.g, address, byteOffset) / PAGE_SIZE < Chunks(c)
  }

  /** The bytes of a plain disk at the place of an access. */
  ghost function Seen(g: Geometry, view: seq<seq<Byte>>, address: nat, byteOffset: nat, len: nat): seq<Byte> {
    var n, at := StartByte(g, address, byteOffset) / PAGE_SIZE, StartByte(g, address, byteOffset) % PAGE_SIZE;
    if n < |view| && at + len <= |view[n]| then view[n][at..at + len] else []
  }

  /** A plain disk with bytes written at the place of an access. */
  ghost function Overwritten(g: Geometry, view: seq<seq<Byte>>, address: nat, byteOffset: nat,
                             src: seq<Byte>): seq<seq<Byte>> {
    var n, at := StartByte(g, address, byteOffset) / PAGE_SIZE, StartByte(g, address, byteOffset) % PAGE_SIZE;
    if n < |view| && at + |src| <= |view[n]| then view[n := Splice(view[n], at, src)] else view
  }

  /** The write is remembered when its chunk is evicted. */
  ghost predicate SafeWrite(c: Contents, address: nat, byteOffset: nat, src: seq<Byte>)
    requires Shaped(c)
  {
    var n := StartByte(c.g, address, byteOffset) / PAGE_SIZE;
    SlotTag(c.g, n);
    !Caches(c, n) || c.metadata[SlotOf(c.g, n)].dirty || src == Seen(c.g, View(c), address, byteOffset, |src|)
  }

  lemma AddressOk(g: Geometry, address: nat, byteOffset: nat)
    requires g.Ok() && g.blockSize > 0 && address + byteOffset / g.blockSize < ADDRESSES
    ensures byteOffset < g.blockSize ==> byteOffset / g.blockSize == 0
    ensures Decompose(g, address + byteOffset / g.blockSize).None? <==> Misjudged(g, address, byteOffset)
  {
    var address', byteOffset' := address + byteOffset / g.blockSize, byteOffset % g.blockSize;
    SameStart(g, address, byteOffset);
    ModSplit(byteOffset, g.blockSize);
    FieldsAreDivMod(g, address');
    ByteInChunk(g, address', byteOffset');
    var b := Pow2(g.offsetBits);
    ModSplit(address' / b, Pow2(g.idBits));
    hide Pow2, Field, StartByte;
    DivModUnique(address' % b * g.blockSize + byteOffset', g.blockSize, address' % b, byteOffset');
    if byteOffset < g.blockSize { DivModUnique(byteOffset, g.blockSize, 0, byteOffset); }
  }

  lemma BufferSize(c: Contents, id: nat)
    requires Shaped(c) && id < Slots(c.g)
    ensures (id + 1) * PAGE_SIZE <= |c.buffer|
  {
  }

  lemma LoadedChunk(c: Contents, c': Contents, n: nat, dirty: bool)
    requires Shaped(c) && Shaped(c') && SlotOf(c.g, n) < Slots(c.g) && (Valid(c) ==> Valid(c'))
    requires ChunkNumber(c.g, TagOf(c.g, n), SlotOf(c.g, n)) == n
    requires LoadEffect(c, c', TagOf(c.g, n), SlotOf(c.g, n), dirty, true)
    ensures c'.g == c.g && |c'.disk| == |c.disk| && n < Chunks(c) && Caches(c', n)
    ensures Valid(c) ==> View(c') == View(c)
    ensures SlotOf(c.g, n) < |c'.metadata| && SlotOf(c.g, n) < |c.metadata|
    ensures c'.metadata[SlotOf(c.g, n)].dirty == if Caches(c, n) then c.metadata[SlotOf(c.g, n)].dirty else dirty
  {
    SlotTag(c.g, n);
    var id := SlotOf(c.g, n);
    assert SlotOk(c, id);
    if Valid(c) {
      assert Coherent(c, id);
      SeenAfterExact(c, id);
    }
  }

  /** Pushing a chunk out of its slot leaves what is seen as it was exactly when the chunk was
      dirty or as on the disk; so an unmarked write is undone by eviction. */
  lemma SeenAfterExact(c: Contents, id: nat)
    requires Shaped(c) && id < Slots(c.g)
    ensures SeenAfter(c, id) == View(c) <==> Coherent(c, id)
  {
    assert SlotOk(c, id);
    if c.metadata[id].occupied && !c.metadata[id].dirty {
      var n := NumberAt(c, id);
      NumberParts(c.g, c.metadata[id].tag, id);
      assert ViewChunk(c, n) == Slice(c.buffer, id);
      assert View(c)[n] == ViewChunk(c, n);
      assert SeenAfter(c, id)[n] == Slice(c.disk, n);
    }
  }

  lemma SeenInBuffer(c: Contents, address: nat, byteOffset: nat, len: nat)
    requires Shaped(c) && OnDisk(c, address, byteOffset) && Caches(c, StartByte(c.g, address, byteOffset) / PAGE_SIZE)
    requires StartByte(c.g, address, byteOffset) % PAGE_SIZE + len <= PAGE_SIZE
    ensures var a := StartByte(c.g, address, byteOffset);
            var start := SlotOf(c.g, a / PAGE_SIZE) * PAGE_SIZE + a % PAGE_SIZE;
            start + len <= |c.buffer| && Seen(c.g, View(c), address, byteOffset, len) == c.buffer[start..start + len]
  {
    var a := StartByte(c.g, address, byteOffset);
    var n, at := a / PAGE_SIZE, a % PAGE_SIZE;
    SlotTag(c.g, n);
    assert View(c)[n] == Slice(c.buffer, SlotOf(c.g, n));
    BufferSize(c, SlotOf(c.g, n));
    PartOfSlice(c.buffer, SlotOf(c.g, n), at, len);
    hide Shaped, View, SlotOf, Slots;
  }

  lemma PartOfSlice(s: seq<Byte>, i: nat, at: nat, len: nat)
    requires (i + 1) * PAGE_SIZE <= |s| && at + len <= PAGE_SIZE
    ensures Slice(s, i)[at..at + len] == s[i * PAGE_SIZE + at..i * PAGE_SIZE + at + len]
  {
    var x, y := Slice(s, i)[at..at + len], s[i * PAGE_SIZE + at..i * PAGE_SIZE + at + len];
    forall k | 0 <= k < len ensures x[k] == y[k] {
    }
  }

  lemma AfterWrite(c: Contents, loaded: Contents, address: nat, byteOffset: nat, src: seq<Byte>)
    requires Shaped(c) && Shaped(loaded) && loaded.g == c.g && |loaded.disk| == |c.disk| && OnDisk(c, address, byteOffset)
    requires StartByte(c.g, address, byteOffset) % PAGE_SIZE + |src| <= PAGE_SIZE
    requires Caches(loaded, StartByte(c.g, address, byteOffset) / PAGE_SIZE)
    requires Valid(c) ==> Valid(loaded) && View(loaded) == View(c)
    requires var n := StartByte(c.g, address, byteOffset) / PAGE_SIZE;
             && SlotOf(c.g, n) < |loaded.metadata| && SlotOf(c.g, n) < |c.metadata|
             && loaded.metadata[SlotOf(c.g, n)].dirty == if Caches(c, n) then c.metadata[SlotOf(c.g, n)].dirty else true
    ensures var a := StartByte(c.g, address, byteOffset);
            var r := Written(loaded, a / PAGE_SIZE, a % PAGE_SIZE, src);
            && Shaped(r) && |r.disk| == |c.disk|
            && (Valid(c) ==> View(r) == Overwritten(c.g, View(c), address, byteOffset, src))
            && (Valid(c) ==> (Valid(r) <==> SafeWrite(c, address, byteOffset, src)))
  {
    var a := StartByte(c.g, address, byteOffset);
    var n, at := a / PAGE_SIZE, a % PAGE_SIZE;
    WrittenView(loaded, n, at, src);
    if Valid(c) {
      WrittenValid(loaded, n, at, src);
      assert View(loaded)[n] == ViewChunk(loaded, n);
    }
    hide Valid, Shaped, Written, Splice, StartByte;
  }

  /** What a client sees when the chunk in slot `id` has been pushed out: a clean chunk is seen as
      it is on the disk. */
  ghost function SeenAfter(c: Contents, id: nat): seq<seq<Byte>>
    requires Shaped(c) && id < Slots(c.g)
  {
    assert SlotOk(c, id);
    if c.metadata[id].occupied && !c.metadata[id].dirty
    then View(c)[NumberAt(c, id) := Slice(c.disk, NumberAt(c, id))]
    else View(c)
  }

  ghost predicate LoadEffect(c: Contents, c': Contents, tag: nat, id: nat, markDirty: bool, ok: bool)
    requires Shaped(c) && Shaped(c') && id < Slots(c.g)
  {
    && c'.g == c.g && |c'.disk| == |c.disk| && (!c.metadata[id].dirty ==> c'.disk == c.disk)
    && if c.metadata[id].occupied && c.metadata[id].tag == tag then ok && c' == c
       else if !ok then c'.metadata == c.metadata && c'.buffer == c.buffer && View(c') == View(c)
       else
         && ChunkNumber(c.g, tag, id) < Chunks(c) && Caches(c', ChunkNumber(c.g, tag, id))
         && c'.metadata == c.metadata[id := Chunk(tag, true, markDirty)]
         && View(c') == SeenAfter(c, id)
  }

  /** An access to chunk `n` has loaded it. */
  ghost predicate Loads(c: Contents, c': Contents, n: nat, markDirty: bool, ok: bool)
    requires Shaped(c) && Shaped(c')
  {
    SlotTag(c.g, n);
    LoadEffect(c, c', TagOf(c.g, n), SlotOf(c.g, n), markDirty, ok)
  }

  lemma LoadsIs(c: Contents, c': Contents, n: nat, markDirty: bool, ok: bool)
    requires Shaped(c) && Shaped(c') && SlotOf(c.g, n) < Slots(c.g)
    requires LoadEffect(c, c', TagOf(c.g, n), SlotOf(c.g, n), markDirty, ok)
    ensures Loads(c, c', n, markDirty, ok)
  {
  }

  lemma LoadFacts(c: Contents, tag: nat, id: nat)
    requires Shaped(c) && id < Slots(c.g)
    ensures id < |c.metadata| && SlotOk(c, id)
    ensures SlotOf(c.g, ChunkNumber(c.g, tag, id)) == id && TagOf(c.g, ChunkNumber(c.g, tag, id)) == tag
    ensures Caches(c, ChunkNumber(c.g, tag, id)) <==> c.metadata[id].occupied && c.metadata[id].tag == tag
  {
    NumberParts(c.g, tag, id);
  }

  lemma LoadDone(c: Contents, tag: nat, id: nat, markDirty: bool)
    requires Shaped(c) && id < Slots(c.g) && c.metadata[id].occupied && c.metadata[id].tag == tag
    ensures LoadEffect(c, c, tag, id, markDirty, true)
  {
  }

  lemma LoadFails(c: Contents, c': Contents, tag: nat, id: nat, markDirty: bool)
    requires Shaped(c) && Shaped(c') && id < Slots(c.g) && !(c.metadata[id].occupied && c.metadata[id].tag == tag)
    requires c'.g == c.g && |c'.disk| == |c.disk| && c'.metadata == c.metadata && c'.buffer == c.buffer && View(c') == View(c)
    requires !c.metadata[id].dirty ==> c'.disk == c.disk
    ensures LoadEffect(c, c', tag, id, markDirty, false)
  {
  }

  /** The cache when the slot has been made ready for another chunk. */
  ghost function Ready(c: Contents, id: nat): Contents
    requires Shaped(c) && id < Slots(c.g)
  {
    assert SlotOk(c, id);
    if c.metadata[id].dirty then WrittenBack(c, id) else c
  }

  lemma Evicted(c: Contents, tag: nat, id: nat)
    requires Shaped(c) && id < Slots(c.g) && !(c.metadata[id].occupied && c.metadata[id].tag == tag)
    ensures SlotOk(c, id) && Shaped(Ready(c, id)) && !Caches(Ready(c, id), ChunkNumber(c.g, tag, id))
    ensures View(Ready(c, id)) == View(c) && (Valid(c) ==> Valid(Ready(c, id)))
    ensures var r := Ready(c, id); r.metadata == c.metadata && r.buffer == c.buffer && |r.disk| == |c.disk|
    ensures c.metadata[id].dirty ==> Slice(Ready(c, id).disk, NumberAt(c, id)) == Slice(c.buffer, id)
  {
    LoadFacts(c, tag, id);
    if c.metadata[id].dirty {
      WrittenBackView(c, id);
      WrittenBackDisk(c, id, NumberAt(c, id));
      if Valid(c) { WrittenBackValid(c, id); }
    }
    LoadFacts(Ready(c, id), tag, id);
  }

  lemma EvictedFilled(c: Contents, tag: nat, id: nat, markDirty: bool)
    requires Shaped(c) && id < Slots(c.g) && !(c.metadata[id].occupied && c.metadata[id].tag == tag)
    requires Shaped(Ready(c, id)) && ChunkNumber(c.g, tag, id) < Chunks(Ready(c, id))
    ensures var c' := Filled(Ready(c, id), ChunkNumber(c.g, tag, id), markDirty);
            Shaped(c') && LoadEffect(c, c', tag, id, markDirty, true) && (Valid(c) ==> Valid(c'))
  {
    var n, r := ChunkNumber(c.g, tag, id), Ready(c, id);
    Evicted(c, tag, id);
    LoadFacts(c, tag, id);
    AfterLoad(r, n, markDirty);
    FilledShaped(r, n, markDirty);
    assert NumberAt(r, id) == NumberAt(c, id);
    hide Valid, View, Shaped, ChunkNumber;
  }

  /** Filling a slot: what was in it is seen as on the disk from then on. */
  lemma AfterLoad(c: Contents, n: nat, dirty: bool)
    requires Shaped(c) && n < Chunks(c) && !Caches(c, n)
    ensures Shaped(Filled(c, n, dirty))
    ensures Valid(c) ==> Valid(Filled(c, n, dirty))
    ensures SlotOf(c.g, n) < Slots(c.g) && SlotOk(c, SlotOf(c.g, n))
    ensures var r, id := Filled(c, n, dirty), SlotOf(c.g, n);
            View(r) == if c.metadata[id].occupied then View(c)[NumberAt(c, id) := Slice(c.disk, NumberAt(c, id))] else View(c)
    ensures var id := SlotOf(c.g, n);
            c.metadata[id].occupied && Slice(c.disk, NumberAt(c, id)) == Slice(c.buffer, id) ==> View(Filled(c, n, dirty)) == View(c)
  {
    SlotTag(c.g, n);
    FilledShaped(c, n, dirty);
    var r, id := Filled(c, n, dirty), SlotOf(c.g, n);
    assert SlotOk(c, id);
    NumberParts(c.g, c.metadata[id].tag, id);
    var view := if c.metadata[id].occupied then View(c)[NumberAt(c, id) := Slice(c.disk, NumberAt(c, id))] else View(c);
    forall m | 0 <= m < Chunks(c) ensures ViewChunk(r, m) == view[m] {
      FilledView(c, n, dirty, m);
      SlotTag(c.g, m);
    }
    assert View(r) == view;
    if Valid(c) {
      forall j | 0 <= j < Slots(c.g) ensures Coherent(r, j) {
        FilledCoherent(c, n, dirty, j);
      }
    }
  }

  lemma SmallTag(g: Geometry, n: nat)
    requires n * PAGE_SIZE < ADDRESSES
    ensures TagOf(g, n) % TAGS == TagOf(g, n)
  {
    SlotTag(g, n);
    hide TagOf;
  }

  lemma PageOfBlocks(blockSize: nat)
    requires exists k: nat :: k < 12 && blockSize == Pow2(k)
    ensures 0 < blockSize <= PAGE_SIZE && PAGE_SIZE / blockSize > 1
    ensures exists j: nat :: 1 <= j <= 12 && PAGE_SIZE / blockSize == Pow2(j) && blockSize * Pow2(j) == PAGE_SIZE
  {
    hide Pow2;
    var k: nat :| k < 12 && blockSize == Pow2(k);
    Constants();
    PowOne();
    Pow2Add(k, 12 - k);
    Pow2Monotone(1, 12 - k);
    DivModUnique(PAGE_SIZE, blockSize, Pow2(12 - k), 0);
  }

  lemma PowOne()
    ensures Pow2(1) == 2 && Pow2(3) == 8
  {
  }

  lemma GeometryOk(blockSize: nat, pages: nat)
    requires exists k: nat :: k < 12 && blockSize == Pow2(k)
    requires 0 < pages < 0x8_0000_0000_0000
    ensures 0 < blockSize <= PAGE_SIZE && GeometryOf(blockSize, pages).Ok() && PAGE_SIZE / blockSize > 0
  {
    hide Pow2, Log2;
    PageOfBlocks(blockSize);
    LogBounds(pages, PAGE_SIZE / blockSize);
  }

  /** A cache without loaded chunks shows the disk. */
  lemma NothingCached(c: Contents)
    requires c.g.Ok() && |c.metadata| == c.g.numChunks && |c.buffer| == c.g.numChunks * PAGE_SIZE
    requires |c.disk| % PAGE_SIZE == 0 && |c.disk| <= ADDRESSES
    requires forall id :: 0 <= id < |c.metadata| ==> c.metadata[id] == Chunk(0, false, false)
    ensures Valid(c) && forall n :: 0 <= n < Chunks(c) ==> View(c)[n] == Slice(c.disk, n)
  {
  }

  lemma LogBounds(n: nat, blocks: nat)
    requires 0 < n < 0x8_0000_0000_0000 && exists j: nat :: 1 <= j <= 12 && blocks == Pow2(j)
    ensures Log2(n) < 51 && 1 <= Log2(blocks) <= 12 && Pow2(Log2(blocks)) == blocks
  {
    hide Log2, Pow2;
    var j: nat :| 1 <= j <= 12 && blocks == Pow2(j);
    LogOfPow2(j);
    assert Pow2(51) == 0x8_0000_0000_0000 by {
      hide Pow2;
      Constants();
      PowOne();
      Pow2Add(16, 16);
      Pow2Add(32, 16);
      Pow2Add(48, 3);
    }
    if Log2(n) >= 51 {
      Pow2Monotone(51, Log2(n));
    }
  }

  lemma {:induction false} LogOfPow2(j: nat)
    ensures Log2(Pow2(j)) == j
  {
    if j != 0 {
      LogOfPow2(j - 1);
      assert Pow2(j) / 2 == Pow2(j - 1) && Pow2(j) != 1;
    }
  }

  // ---- Runs ----

  datatype Access =
    | Read(address: nat, byteOffset: nat, len: nat, health: Health)
    | Write(address: nat, byteOffset: nat, src: seq<Byte>, health: Health)

  ghost predicate Contained(g: Geometry, a: Access) {
    InOneChunk(g, a.address, a.byteOffset, if a.Read? then a.len else |a.src|)
  }

  ghost predicate Safe(c: Contents, a: Access)
    requires Shaped(c)
  {
    a.Write? ==> SafeWrite(c, a.address, a.byteOffset, a.src)
  }

  /** A plain disk after an access that had this result. */
  ghost function FlatAfter(g: Geometry, view: seq<seq<Byte>>, a: Access, r: Outcome<seq<Byte>>): seq<seq<Byte>> {
    if a.Write? && r.Done? && a.src != [] then Overwritten(g, view, a.address, a.byteOffset, a.src) else view
  }

  /** A plain disk after the first `k` accesses. */
  ghost function FlatRun(g: Geometry, view: seq<seq<Byte>>, accesses: seq<Access>,
                         results: seq<Outcome<seq<Byte>>>, k: nat): seq<seq<Byte>>
    requires k <= |accesses| && k <= |results|
  {
    if k == 0 then view else FlatAfter(g, FlatRun(g, view, accesses, results, k - 1), accesses[k - 1], results[k - 1])
  }

  /** The access was answered as a plain disk would answer it. */
  ghost predicate Answers(g: Geometry, view: seq<seq<Byte>>, a: Access, r: Outcome<seq<Byte>>) {
    a.Read? && r.Done? && a.len > 0 ==> r.value == Seen(g, view, a.address, a.byteOffset, a.len)
  }

  lemma {:induction false} FlatRunExtends(g: Geometry, view: seq<seq<Byte>>, accesses: seq<Access>,
                                          results: seq<Outcome<seq<Byte>>>, r: Outcome<seq<Byte>>, k: nat)
    requires k <= |accesses| && k <= |results|
    ensures FlatRun(g, view, accesses, results + [r], k) == FlatRun(g, view, accesses, results, k)
  {
    if k != 0 { FlatRunExtends(g, view, accesses, results, r, k - 1); }
  }

  ghost predicate AllSafe(trace: seq<Contents>, accesses: seq<Access>, k: nat)
    requires k <= |trace| && k <= |accesses|
  {
    forall i :: 0 <= i < k ==> Shaped(trace[i]) && Safe(trace[i], accesses[i])
  }

  ghost predicate AllAnswered(g: Geometry, view: seq<seq<Byte>>, accesses: seq<Access>,
                              results: seq<Outcome<seq<Byte>>>, k: nat)
    requires k <= |accesses| && k <= |results|
  {
    forall i :: 0 <= i < k ==> Answers(g, FlatRun(g, view, accesses, results, i), accesses[i], results[i])
  }

  lemma AnsweredExtends(g: Geometry, view: seq<seq<Byte>>, accesses: seq<Access>,
                        results: seq<Outcome<seq<Byte>>>, r: Outcome<seq<Byte>>)
    requires |results| < |accesses| && AllAnswered(g, view, accesses, results, |results|)
    requires Answers(g, FlatRun(g, view, accesses, results, |results|), accesses[|results|], r)
    ensures AllAnswered(g, view, accesses, results + [r], |results| + 1)
    ensures FlatRun(g, view, accesses, results + [r], |results| + 1)
         == FlatAfter(g, FlatRun(g, view, accesses, results, |results|), accesses[|results|], r)
  {
    forall i | 0 <= i <= |results|
      ensures FlatRun(g, view, accesses, results + [r], i) == FlatRun(g, view, accesses, results, i)
    {
      FlatRunExtends(g, view, accesses, results, r, i);
    }
  }

  lemma NothingServed(g: Geometry, view: seq<seq<Byte>>, accesses: seq<Access>)
    ensures FlatRun(g, view, accesses, [], 0) == view && AllAnswered(g, view, accesses, [], 0)
  {
  }

  lemma SafeExtends(trace: seq<Contents>, c: Contents, accesses: seq<Access>, i: nat)
    requires i < |accesses| && |trace| == i + 1
    ensures AllSafe(trace + [c], accesses, i + 1) <==> AllSafe(trace, accesses, i + 1)
    ensures AllSafe(trace, accesses, i + 1) ==> AllSafe(trace, accesses, i) && Shaped(trace[i]) && Safe(trace[i], accesses[i])
  {
    hide Shaped, Safe;
    var longer := trace + [c];
    assert forall j :: 0 <= j <= i ==> longer[j] == trace[j];
    if AllSafe(longer, accesses, i + 1) {
      forall j | 0 <= j < i + 1 ensures Shaped(trace[j]) && Safe(trace[j], accesses[j]) {
        assert Shaped(longer[j]) && Safe(longer[j], accesses[j]);
      }
    }
  }

  method Serve(cache: BlockCache, a: Access) returns (r: Outcome<seq<Byte>>)
    requires Shaped(cache.Now()) && Contained(cache.g, a)
    modifies cache
    ensures Shaped(cache.Now())
    ensures old(Valid(cache.Now())) && Safe(old(cache.Now()), a) ==>
      && Valid(cache.Now()) && View(cache.Now()) == FlatAfter(cache.g, old(View(cache.Now())), a, r)
      && Answers(cache.g, old(View(cache.Now())), a, r)
  {
    hide Valid, Shaped, View, InOneChunk;
    match a {
      case Read(address, byteOffset, len, health) =>
        r := cache.CopyBytes(address, byteOffset, len, health);
      case Write(address, byteOffset, src, health) =>
        var w;
        ghost var loaded;
        w, loaded := cache.WriteBytes(address, byteOffset, src, health);
        r := match w case Done(_) => Done([]) case StoreError => StoreError case AssertionFailed => AssertionFailed;
    }
  }

  /** Over any sequence of accesses, whatever the store refuses: as long as every write goes to a
      chunk that is absent or dirty, or changes nothing, reads through the cache are reads of a plain disk
      to which the successful writes have been applied. */
  method ServeAll(cache: BlockCache, accesses: seq<Access>)
    returns (results: seq<Outcome<seq<Byte>>>, ghost trace: seq<Contents>)
    requires Valid(cache.Now()) && forall i :: 0 <= i < |accesses| ==> Contained(cache.g, accesses[i])
    modifies cache
    ensures |results| == |accesses| && |trace| == |accesses| + 1
    ensures trace[0] == old(cache.Now()) && trace[|accesses|] == cache.Now()
    ensures AllSafe(trace, accesses, |accesses|) ==>
      && Valid(cache.Now())
      && View(cache.Now()) == FlatRun(cache.g, old(View(cache.Now())), accesses, results, |accesses|)
      && AllAnswered(cache.g, old(View(cache.Now())), accesses, results, |accesses|)
  {
    ghost var view := View(cache.Now());
    assert Shaped(cache.Now());
    hide Valid, Shaped, View, Contained, Safe, Answers, FlatAfter, FlatRun, AllAnswered, AllSafe;
    NothingServed(cache.g, view, accesses);
    results, trace := [], [cache.Now()];
    var i := 0;
    while i < |accesses|
      invariant 0 <= i <= |accesses| && |results| == i && |trace| == i + 1
      invariant trace[0] == old(cache.Now()) && trace[i] == cache.Now() && Shaped(cache.Now())
      invariant AllSafe(trace, accesses, i) ==>
        && Valid(cache.Now()) && View(cache.Now()) == FlatRun(cache.g, view, accesses, results, i)
        && AllAnswered(cache.g, view, accesses, results, i)
    {
      var r := Serve(cache, accesses[i]);
      SafeExtends(trace, cache.Now(), accesses, i);
      if AllSafe(trace, accesses, i + 1) {
        AnsweredExtends(cache.g, view, accesses, results, r);
      }
      trace := trace + [cache.Now()];
      results := results + [r];
      i := i + 1;
    }
  }

  function Zeros(n: nat): (r: seq<Byte>)
    ensures |r| == n && forall i :: 0 <= i < n ==> r[i] == 0
  {
    seq(n, _ => 0 as Byte)
  }

  /** A cache with one slot and 2048-byte blocks, over a disk of two chunks. */
  ghost predicate OneSlot(c: Contents) {
    c.g == Geometry(2048, 1, 0, 1) && Shaped(c) && Chunks(c) == 2
  }

  lemma OneSlotFacts(c: Contents)
    requires OneSlot(c)
    ensures Slots(c.g) == 1 && |c.metadata| == 1 && |View(c)| == 2
    ensures SlotOf(c.g, 0) == 0 && TagOf(c.g, 0) == 0 && SlotOf(c.g, 1) == 0 && TagOf(c.g, 1) == 1
    ensures ChunkNumber(c.g, 0, 0) == 0 && ChunkNumber(c.g, 1, 0) == 1
  {
    assert Pow2(0) == 1;
  }

  /** Reading a chunk that the slot does not hold: what the slot held, if it was clean, is seen as on the
      disk. */
  lemma OneSlotLoad(c: Contents, c': Contents, n: nat)
    requires OneSlot(c) && Shaped(c') && n < 2 && |c.metadata| == 1 && !c.metadata[0].dirty && Loads(c, c', n, false, true)
    ensures OneSlot(c') && |c'.metadata| == 1 && c'.disk == c.disk && |View(c')| == |View(c)| == 2
    ensures c.metadata[0] == Chunk(n, true, false) ==> c' == c
    ensures c.metadata[0] != Chunk(n, true, false) ==> c'.metadata[0] == Chunk(n, true, false)
    ensures c.metadata[0] == Chunk(1 - n, true, false) ==> View(c')[1 - n] == Slice(c.disk, 1 - n) && View(c')[n] == View(c)[n]
  {
    OneSlotFacts(c);
    hide View, Shaped, Pow2, SlotOf, TagOf, ChunkNumber, Caches, Slots;
  }

  /** `Seen` at the first byte of chunk `n`. */
  lemma FirstByte(view: seq<seq<Byte>>, n: nat)
    requires n < 2 && |view| == 2 && |view[n]| == PAGE_SIZE
    ensures var g := Geometry(2048, 1, 0, 1);
            && StartByte(g, 2 * n, 0) == n * PAGE_SIZE && StartByte(g, 2 * n, 0) / PAGE_SIZE == n
            && Seen(g, view, 2 * n, 0, 1) == [view[n][0]] && InOneChunk(g, 2 * n, 0, 1) && !Misjudged(g, 2 * n, 0)
            && Overwritten(g, view, 2 * n, 0, [1]) == view[n := Splice(view[n], 0, [1])]
  {
  }

  lemma OneSlotHit(c: Contents, c': Contents, n: nat, markDirty: bool, ok: bool)
    requires OneSlot(c) && Shaped(c') && n < 2 && |c.metadata| == 1 && c.metadata[0] == Chunk(n, true, false)
    requires Loads(c, c', n, markDirty, ok)
    ensures c' == c
  {
    OneSlotFacts(c);
    hide View, Shaped, Pow2, SlotOf, TagOf, ChunkNumber, Caches, Slots;
  }

  lemma OneSlotGeometry()
    ensures 2048 == Pow2(11) && GeometryOf(2048, 1) == Geometry(2048, 1, 0, 1)
  {
    assert Pow2(4) == 16;
    Pow2Add(4, 4);
    Pow2Add(8, 3);
  }

  lemma ValidMeans(c: Contents)
    requires Valid(c)
    ensures Shaped(c) && |c.metadata| == c.g.numChunks
  {
  }

  lemma FirstOfZeros()
    ensures |Slice(Zeros(2 * PAGE_SIZE), 0)| > 0 && Slice(Zeros(2 * PAGE_SIZE), 0)[0] == 0
  {
  }

  /** Setting byte 0, whose chunk is loaded and clean, and reading it again. */
  method WriteAndRead(cache: BlockCache) returns (r: Outcome<seq<Byte>>)
    requires OneSlot(cache.Now()) && Valid(cache.Now()) && |cache.metadata| == 1 && cache.metadata[0] == Chunk(0, true, false)
    modifies cache
    ensures OneSlot(cache.Now()) && cache.metadata == old(cache.metadata) && cache.disk == old(cache.disk)
    ensures r == Done([1])
  {
    hide Valid, View, Shaped, Pow2, SlotOf, TagOf, Loads, Seen, Overwritten, StartByte, InOneChunk, Misjudged, SafeWrite, Splice;
    ghost var c1 := cache.Now();
    FirstByte(View(c1), 0);
    var written;
    ghost var loaded;
    written, loaded := cache.WriteBytes(0, 0, [1], Health(true, true));
    OneSlotHit(c1, loaded, 0, true, true);
    ghost var c2 := cache.Now();
    FirstByte(View(c2), 0);
    r := cache.CopyBytes(0, 0, 1, Health(true, true));
    OneSlotHit(c2, cache.Now(), 0, false, r.Done?);
    SpliceFirst(View(c1)[0]);
  }

  lemma SpliceFirst(s: seq<Byte>)
    requires |s| == PAGE_SIZE
    ensures |Splice(s, 0, [1])| == |s| && Splice(s, 0, [1])[0] == 1
  {
  }

  /** A write to a chunk that was read before is seen, and is gone when the chunk has left its slot: on a
      disk of zeroes, byte 0 is read, set to 1 and read as 1; after byte 4096 is read, it is read as 0. */
  method LostWrite() returns (before: Outcome<seq<Byte>>, after: Outcome<seq<Byte>>)
    ensures before == Done([1]) && after == Done([0])
  {
    hide Valid, View, Shaped, Pow2, SlotOf, TagOf, Loads, Seen, Overwritten, StartByte, InOneChunk, Misjudged, GeometryOf,
      SafeWrite, Written, Slice, Splice;
    OneSlotGeometry();
    var cache := new BlockCache(2048, 1, Zeros(2 * PAGE_SIZE), Zeros(PAGE_SIZE));
    ghost var c0 := cache.Now();
    ValidMeans(c0);
    FirstByte(View(c0), 0);
    var first := cache.CopyBytes(0, 0, 1, Health(true, true));
    ghost var c1 := cache.Now();
    OneSlotLoad(c0, c1, 0);
    before := WriteAndRead(cache);
    ghost var c3 := cache.Now();
    FirstByte(View(c3), 1);
    var other := cache.CopyBytes(2, 0, 1, Health(true, true));
    ghost var c4 := cache.Now();
    OneSlotLoad(c3, c4, 1);
    FirstByte(View(c4), 0);
    after := cache.CopyBytes(0, 0, 1, Health(true, true));
    ghost var c5 := cache.Now();
    OneSlotLoad(c4, c5, 0);
    FirstByte(View(c5), 0);
    assert Slice(c3.disk, 0)[0] == 0 by { FirstOfZeros(); }
  }
}
