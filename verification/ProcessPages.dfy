/** What `Process::alloc_memory` and `Process::free_memory` do to the tables, the bitmap and the free
    addresses, as relations between values. */
module ProcessPages {
  import opened Wrappers
  import opened Addresses
  import opened PhysicalMemory
  import opened VirtualRanges
  import opened PageTableEntries
  import opened PageTableTree
  import opened PageTable

  const USER_OPTIONS := Options(false, true)

  /** What an allocation starts from: tables, bitmap, first physical frame, first virtual page. */
  datatype Snapshot = Snapshot(before: Tables, bits: seq<bool>, root: nat, base: nat, v0: nat)

  /** The frames taken so far are distinct, were free, and are in use now. */
  ghost predicate FramesTaken(bits0: seq<bool>, bits: seq<bool>, base: nat, frames: seq<nat>) {
    && |bits| == |bits0|
    && (forall i :: 0 <= i < |frames| ==>
          base <= frames[i] < base + |bits0| && !bits0[frames[i] - base] && bits[frames[i] - base])
    && (forall i, j :: 0 <= i < j < |frames| ==> frames[i] != frames[j])
  }

  /** A page is in use now if it was before, is one of the frames, or holds a new table. */
  ghost predicate BitsExplained(bits0: seq<bool>, bits: seq<bool>, base: nat, frames: seq<nat>, newTables: set<nat>) {
    && |bits| == |bits0|
    && forall i :: 0 <= i < |bits| ==>
      (bits[i] <==> bits0[i] || base + i in frames || (base + i) * PAGE_SIZE in newTables)
  }

  /** Page `w` maps to its frame with user options, by a leaf inside the range; other pages are as
      they were. */
  ghost predicate PageAllocated(g: Snapshot, ts: Tables, frames: seq<nat>, w: nat) {
    if g.v0 <= w < g.v0 + |frames| then
      && Translate(ts, g.root, w) == Some(Mapping(frames[w - g.v0], USER_OPTIONS))
      && LeafInside(ts, g.root, g.v0, g.v0 + |frames|, w)
    else LeafAt(ts, g.root, w) == LeafAt(g.before, g.root, w)
  }

  ghost predicate PagesAllocated(g: Snapshot, ts: Tables, frames: seq<nat>) {
    forall w: nat :: w < PAGES ==> PageAllocated(g, ts, frames, w)
  }

  /** Frames hold data, not tables. */
  ghost predicate FramesAreNotTables(ts: Tables, frames: seq<nat>) {
    forall i :: 0 <= i < |frames| ==> frames[i] * PAGE_SIZE !in ts
  }

  /** New tables were put on free pages. */
  ghost predicate TablesWereFree(bits0: seq<bool>, base: nat, newTables: set<nat>) {
    forall i :: 0 <= i < |bits0| && (base + i) * PAGE_SIZE in newTables ==> !bits0[i]
  }

  /** The frames have been taken and tables have been added; nothing else changed in the bitmap. */
  ghost predicate Taking(g: Snapshot, ts: Tables, bits: seq<bool>, frames: seq<nat>) {
    && FramesTaken(g.bits, bits, g.base, frames)
    && BitsExplained(g.bits, bits, g.base, frames, ts.Keys - g.before.Keys)
    && FramesAreNotTables(ts, frames)
    && TablesWereFree(g.bits, g.base, ts.Keys - g.before.Keys)
    && g.before.Keys <= ts.Keys
  }

  /** The frames have been taken and the pages of the range map to them. */
  ghost predicate Allocating(g: Snapshot, ts: Tables, bits: seq<bool>, frames: seq<nat>) {
    Taking(g, ts, bits, frames) && PagesAllocated(g, ts, frames)
  }

  function Run(first: nat, n: nat): (r: seq<nat>)
    ensures |r| == n && forall i :: 0 <= i < n ==> r[i] == first + i
  {
    seq(n, i requires 0 <= i => first + i)
  }

  lemma AllocationStarts(g: Snapshot)
    ensures Allocating(g, g.before, g.bits, [])
  {
  }

  /** Mapping the next run of frames behind the pages mapped so far. */
  lemma ExtendPages(g: Snapshot, ts: Tables, ts': Tables, frames: seq<nat>, first: nat, n: nat, w: nat)
    requires PageAllocated(g, ts, frames, w)
    requires RangeMappedAt(ts, ts', g.root, g.v0 + |frames|, n, first, USER_OPTIONS, w)
    ensures PageAllocated(g, ts', frames + Run(first, n), w)
  {
    hide LeafAt;
    var longer := frames + Run(first, n);
    if g.v0 <= w < g.v0 + |frames| {
      assert longer[w - g.v0] == frames[w - g.v0];
    } else if g.v0 + |frames| <= w < g.v0 + |longer| {
      assert longer[w - g.v0] == first + (w - g.v0 - |frames|);
    }
  }

  /** The frames after a run has been taken and tables have been added. */
  lemma ExtendFrames(bits0: seq<bool>, base: nat, keys: set<nat>, keys': set<nat>, bits: seq<bool>, bits': seq<bool>,
                     frames: seq<nat>, start: nat, n: nat)
    requires FramesTaken(bits0, bits, base, frames) && FreeRun(bits, start, n)
    requires forall i :: 0 <= i < |bits0| ==> bits0[i] ==> bits[i]
    requires OnlyTablesTaken(Filled(bits, start, n, true), bits', keys, keys', base * PAGE_SIZE)
    ensures FramesTaken(bits0, bits', base, frames + Run(base + start, n))
  {
    var frames' := frames + Run(base + start, n);
    var filled := Filled(bits, start, n, true);
    forall i | 0 <= i < |frames'|
      ensures base <= frames'[i] < base + |bits0| && !bits0[frames'[i] - base] && bits'[frames'[i] - base]
      ensures i >= |frames| ==> !bits[frames'[i] - base]
    {
      if i < |frames| {
        assert frames'[i] == frames[i] && filled[frames[i] - base];
      } else {
        var j := start + (i - |frames|);
        assert frames'[i] == base + j && !bits[j] && filled[j];
      }
    }
    forall i, j | 0 <= i < j < |frames'| ensures frames'[i] != frames'[j] {
      if j < |frames| {
        assert frames[i] != frames[j];
      } else if i < |frames| {
        assert bits[frames'[i] - base] && !bits[frames'[j] - base];
      }
    }
  }

  /** The bitmap after a run has been taken and tables have been added. */
  lemma ExtendBits(bits0: seq<bool>, base: nat, keys0: set<nat>, keys: set<nat>, keys': set<nat>,
                   bits: seq<bool>, bits': seq<bool>,
                   frames: seq<nat>, start: nat, n: nat)
    requires BitsExplained(bits0, bits, base, frames, keys - keys0)
    requires FreeRun(bits, start, n) && keys0 <= keys
    requires OnlyTablesTaken(Filled(bits, start, n, true), bits', keys, keys', base * PAGE_SIZE)
    ensures BitsExplained(bits0, bits', base, frames + Run(base + start, n), keys' - keys0)
  {
    var filled := Filled(bits, start, n, true);
    forall i | 0 <= i < |bits'|
      ensures bits'[i] <==> bits0[i] || base + i in frames + Run(base + start, n) || (base + i) * PAGE_SIZE in keys' - keys0
    {
      InRun(frames, base + start, n, base + i);
      assert (base + i) * PAGE_SIZE == base * PAGE_SIZE + i * PAGE_SIZE;
      assert filled[i] == (bits[i] || start <= i < start + n);
    }
  }

  lemma InRun(frames: seq<nat>, first: nat, n: nat, f: nat)
    ensures f in frames + Run(first, n) <==> f in frames || first <= f < first + n
  {
    if first <= f < first + n { assert Run(first, n)[f - first] == f; }
  }

  lemma ExtendNotTables(ts: Tables, ts': Tables, bits: seq<bool>, bits': seq<bool>, base: nat, bits0: seq<bool>,
                        frames: seq<nat>, start: nat, n: nat)
    requires FramesAreNotTables(ts, frames) && FramesTaken(bits0, bits, base, frames)
    requires FreeRun(bits, start, n) && TablesInUse(ts.Keys, bits, base * PAGE_SIZE)
    requires OnlyTablesTaken(Filled(bits, start, n, true), bits', ts.Keys, ts'.Keys, base * PAGE_SIZE)
    ensures FramesAreNotTables(ts', frames + Run(base + start, n))
  {
    var filled := Filled(bits, start, n, true);
    var frames' := frames + Run(base + start, n);
    forall i | 0 <= i < |frames'| ensures frames'[i] * PAGE_SIZE !in ts' {
      var j := if i < |frames| then frames[i] - base else start + (i - |frames|);
      assert frames'[i] == base + j && filled[j];
      assert frames'[i] * PAGE_SIZE == base * PAGE_SIZE + j * PAGE_SIZE;
      assert (frames'[i] * PAGE_SIZE - base * PAGE_SIZE) / PAGE_SIZE == j;
      assert i >= |frames| ==> !bits[j];
      assert frames'[i] * PAGE_SIZE !in ts;
    }
  }

  lemma ExtendTables(bits0: seq<bool>, base: nat, keys0: set<nat>, keys: set<nat>, keys': set<nat>,
                     bits: seq<bool>, bits': seq<bool>, start: nat, n: nat)
    requires TablesWereFree(bits0, base, keys - keys0) && FreeRun(bits, start, n)
    requires |bits| == |bits0| && forall i :: 0 <= i < |bits0| ==> bits0[i] ==> bits[i]
    requires OnlyTablesTaken(Filled(bits, start, n, true), bits', keys, keys', base * PAGE_SIZE)
    ensures TablesWereFree(bits0, base, keys' - keys0)
  {
    forall i | 0 <= i < |bits0| && (base + i) * PAGE_SIZE in keys' - keys0 ensures !bits0[i] {
      assert (base + i) * PAGE_SIZE == base * PAGE_SIZE + i * PAGE_SIZE;
      assert Filled(bits, start, n, true)[i] == (bits[i] || start <= i < start + n);
    }
  }

  /** A run of frames has been taken, and tables have been added for it. */
  lemma ExtendTaking(g: Snapshot, ts: Tables, ts': Tables, bits: seq<bool>, bits': seq<bool>,
                     frames: seq<nat>, start: nat, n: nat)
    requires Taking(g, ts, bits, frames) && FreeRun(bits, start, n)
    requires TablesInUse(ts.Keys, bits, g.base * PAGE_SIZE)
    requires OnlyTablesTaken(Filled(bits, start, n, true), bits', ts.Keys, ts'.Keys, g.base * PAGE_SIZE)
    ensures Taking(g, ts', bits', frames + Run(g.base + start, n))
  {
    hide FramesTaken, BitsExplained, FramesAreNotTables, TablesWereFree, TablesInUse, FreeRun;
    BitsGrow(g, bits, frames, ts.Keys - g.before.Keys);
    ExtendFrames(g.bits, g.base, ts.Keys, ts'.Keys, bits, bits', frames, start, n);
    ExtendBits(g.bits, g.base, g.before.Keys, ts.Keys, ts'.Keys, bits, bits', frames, start, n);
    ExtendNotTables(ts, ts', bits, bits', g.base, g.bits, frames, start, n);
    ExtendTables(g.bits, g.base, g.before.Keys, ts.Keys, ts'.Keys, bits, bits', start, n);
  }

  lemma ExtendPagesAll(g: Snapshot, ts: Tables, ts': Tables, frames: seq<nat>, first: nat, n: nat)
    requires PagesAllocated(g, ts, frames)
    requires RangeMapped(ts, ts', g.root, g.v0 + |frames|, n, first, USER_OPTIONS)
    ensures PagesAllocated(g, ts', frames + Run(first, n))
  {
    hide PageAllocated, RangeMappedAt;
    forall w: nat | w < PAGES ensures PageAllocated(g, ts', frames + Run(first, n), w) {
      ExtendPages(g, ts, ts', frames, first, n, w);
    }
  }

  lemma BitsGrow(g: Snapshot, bits: seq<bool>, frames: seq<nat>, newTables: set<nat>)
    requires BitsExplained(g.bits, bits, g.base, frames, newTables)
    ensures |bits| == |g.bits| && forall i :: 0 <= i < |g.bits| ==> g.bits[i] ==> bits[i]
  {
  }

  /** Pages of the free virtual range are not mapped. */
  ghost predicate FreeIsUnmapped(list: seq<FreeBlock>, ts: Tables, root: nat) {
    forall a :: IsFree(list, a) ==>
      0 <= a < PAGES * PAGE_SIZE && LeafAt(ts, root, a / PAGE_SIZE).None?
  }

  /** Addresses of the lower half: the tag is zero and the page number is the quotient. */
  lemma LowAddress(a: nat)
    requires a < PAGES * PAGE_SIZE && a % PAGE_SIZE == 0
    ensures VirtualPage(a) == a / PAGE_SIZE && TagMatches(false, a) && ToParts(a).offset == 0
  {
    hide ToParts;
    ToPartsIsDivMod(a);
    assert a / 4096 < PAGES;
    assert a / 4096 / 512 < 0x800_0000;
    assert a / 4096 / 512 / 512 < 0x4_0000;
  }

  /** Pages outside the range keep their leaves. */
  ghost predicate OutsideKept(before: Tables, ts: Tables, root: nat, v0: nat, n: nat) {
    forall w: nat :: w < PAGES && !(v0 <= w < v0 + n) ==> LeafAt(ts, root, w) == LeafAt(before, root, w)
  }

  /** A free run of the bitmap as an argument of `map_range`. */
  lemma RunFits(pma: PhysicalMemoryAllocator, g: Snapshot, bits: seq<bool>, start: nat, n: nat, keys: set<nat>)
    requires Addressable(pma) && |bits| == pma.inUse.Length && FreeRun(bits, start, n)
    requires TablesInUse(keys, bits, pma.memoryStart) && g.base == pma.memoryStart / PAGE_SIZE
    ensures pma.AddressOf(start) / PAGE_SIZE == g.base + start && g.base + start + n <= FRAMES
    ensures pma.memoryStart == g.base * PAGE_SIZE
    ensures TablesInUse(keys, Filled(bits, start, n, true), pma.memoryStart)
  {
  }

  lemma VirtualFits(vaddr: nat, pageCount: nat, k: nat, n: nat)
    requires vaddr % PAGE_SIZE == 0 && vaddr + pageCount * PAGE_SIZE <= PAGES * PAGE_SIZE && k + n <= pageCount && n > 0
    ensures var a := vaddr + k * PAGE_SIZE;
            && VirtualPage(a) == vaddr / PAGE_SIZE + k && VirtualPage(a) + n <= PAGES
            && ToParts(a).offset == 0 && TagMatches(false, a)
    ensures vaddr / PAGE_SIZE + pageCount <= PAGES
  {
    hide TagMatches, ToParts;
    LowAddress(vaddr + k * PAGE_SIZE);
  }

  lemma MapKeepsOutside(g: Snapshot, ts: Tables, ts': Tables, frames: seq<nat>, first: nat, done: nat, n: nat)
    requires OutsideKept(g.before, ts, g.root, g.v0, n) && |frames| + done <= n
    requires RangeMapped(ts, ts', g.root, g.v0 + |frames|, done, first, USER_OPTIONS)
    ensures OutsideKept(g.before, ts', g.root, g.v0, n)
  {
    forall w: nat | w < PAGES && !(g.v0 <= w < g.v0 + n) ensures LeafAt(ts', g.root, w) == LeafAt(g.before, g.root, w) {
      assert RangeMappedAt(ts, ts', g.root, g.v0 + |frames|, done, first, USER_OPTIONS, w);
    }
  }

  /** The pages still to be mapped are unmapped, so `map_range` meets no block. */
  lemma NoBlockAhead(g: Snapshot, ts: Tables, bits: seq<bool>, frames: seq<nat>, done: nat, n: nat)
    requires Allocating(g, ts, bits, frames) && |frames| + done < n && g.v0 + n <= PAGES
    requires forall w: nat :: g.v0 <= w < g.v0 + n ==> LeafAt(g.before, g.root, w).None?
    ensures !UnderBlock(ts, g.root, g.v0 + |frames| + done)
  {
    assert PageAllocated(g, ts, frames, g.v0 + |frames| + done);
  }

  // ---- Freeing ----

  /** Frame `f` belongs to one of the regions. */
  ghost predicate FrameIn(regions: seq<MappedRegion>, f: nat) {
    exists q :: 0 <= q < |regions| && regions[q].basePhysAddr / PAGE_SIZE <= f < regions[q].basePhysAddr / PAGE_SIZE + regions[q].pageCount
  }

  /** Some page from `lo` to `hi` maps to frame `f`. */
  ghost predicate MapsTo(ts: Tables, root: nat, lo: nat, hi: nat, f: nat) {
    exists w: nat :: lo <= w < hi && Translate(ts, root, w).Some? && Translate(ts, root, w).value.frame == f
  }

  lemma FrameInLast(regions: seq<MappedRegion>, f: nat)
    requires regions != []
    ensures var last := regions[|regions| - 1];
            var inLast := last.basePhysAddr / PAGE_SIZE <= f < last.basePhysAddr / PAGE_SIZE + last.pageCount;
            FrameIn(regions, f) <==> FrameIn(regions[..|regions| - 1], f) || inLast
  {
    var front := regions[..|regions| - 1];
    if FrameIn(regions, f) {
      var q :| 0 <= q < |regions| && regions[q].basePhysAddr / PAGE_SIZE <= f < regions[q].basePhysAddr / PAGE_SIZE + regions[q].pageCount;
      assert q < |front| ==> front[q] == regions[q];
    }
    if FrameIn(front, f) {
      var q :| 0 <= q < |front| && front[q].basePhysAddr / PAGE_SIZE <= f < front[q].basePhysAddr / PAGE_SIZE + front[q].pageCount;
      assert regions[q] == front[q];
    }
  }

  /** The frames of regions that tile a range are the frames its pages map to. */
  lemma {:induction false} FramesOfTiling(ts: Tables, root: nat, regions: seq<MappedRegion>, lo: nat, hi: nat, f: nat)
    requires Tiling(regions, lo, hi) && forall i :: 0 <= i < |regions| ==> RegionOk(ts, root, regions[i])
    ensures lo <= hi && (FrameIn(regions, f) <==> MapsTo(ts, root, lo, hi, f))
    decreases |regions|
  {
    hide Translate;
    if regions != [] {
      var last := regions[|regions| - 1];
      FramesOfTiling(ts, root, regions[..|regions| - 1], lo, last.page, f);
      FrameInLast(regions, f);
      var first := last.basePhysAddr / PAGE_SIZE;
      if first <= f < first + last.pageCount {
        assert Translate(ts, root, last.page + (f - first)).value.frame == f;
      }
      if MapsTo(ts, root, lo, hi, f) {
        var w: nat :| lo <= w < hi && Translate(ts, root, w).Some? && Translate(ts, root, w).value.frame == f;
      }
    }
  }

  /** The frames that the pages of a range map to are physical pages that hold no tables. */
  ghost predicate DataFrames(ts: Tables, root: nat, lo: nat, hi: nat, base: nat, count: nat) {
    forall w: nat :: lo <= w < hi && Translate(ts, root, w).Some? ==>
      var f := Translate(ts, root, w).value.frame;
      base <= f < base + count && f * PAGE_SIZE !in ts
  }

  /** The bitmap after the frames of the regions have been freed. */
  ghost predicate FramesFreed(bits: seq<bool>, bits': seq<bool>, base: nat, regions: seq<MappedRegion>) {
    |bits'| == |bits| && forall i :: 0 <= i < |bits| ==> (bits'[i] <==> bits[i] && !FrameIn(regions, base + i))
  }

  lemma NothingFreed(bits: seq<bool>, base: nat)
    ensures FramesFreed(bits, bits, base, [])
  {
  }

  lemma FreeOneMore(bits: seq<bool>, bits': seq<bool>, base: nat, regions: seq<MappedRegion>, r: MappedRegion,
                    start: nat)
    requires FramesFreed(bits, bits', base, regions)
    requires start + r.pageCount <= |bits'| && r.basePhysAddr / PAGE_SIZE == base + start
    ensures FramesFreed(bits, Filled(bits', start, r.pageCount, false), base, regions + [r])
  {
    hide FrameIn;
    var filled := Filled(bits', start, r.pageCount, false);
    forall i | 0 <= i < |bits| ensures filled[i] <==> bits[i] && !FrameIn(regions + [r], base + i) {
      FrameInLast(regions + [r], base + i);
      assert (regions + [r])[..|regions|] == regions;
      assert filled[i] == (bits'[i] && !(start <= i < start + r.pageCount));
    }
  }

  /** A region of a tiled range as an argument of `free_pages`. */
  lemma RegionFits(ts: Tables, root: nat, regions: seq<MappedRegion>, lo: nat, hi: nat, q: nat,
                   memoryStart: nat, base: nat, count: nat)
    requires Tiling(regions, lo, hi) && q < |regions|
    requires forall i :: 0 <= i < |regions| ==> RegionOk(ts, root, regions[i])
    requires DataFrames(ts, root, lo, hi, base, count) && memoryStart == base * PAGE_SIZE
    ensures var r := regions[q];
            && r.basePhysAddr >= memoryStart && r.pageCount > 0
            && (r.basePhysAddr - memoryStart + PAGE_SIZE - 1) / PAGE_SIZE + r.pageCount <= count
            && r.basePhysAddr / PAGE_SIZE == base + (r.basePhysAddr - memoryStart + PAGE_SIZE - 1) / PAGE_SIZE
  {
    hide Translate;
    var r := regions[q];
    RegionInside(regions, lo, hi, q);
    assert RegionOk(ts, root, r);
    assert Translate(ts, root, r.page).value.frame == r.basePhysAddr / PAGE_SIZE;
    var last := r.page + r.pageCount - 1;
    assert Translate(ts, root, last).value.frame == r.basePhysAddr / PAGE_SIZE + (last - r.page);
  }

  /** Exactly the frames of the range became free. */
  ghost predicate RangeFreed(before: Tables, root: nat, bits: seq<bool>, bits': seq<bool>, base: nat, lo: nat,
                             hi: nat) {
    |bits'| == |bits| && forall i :: 0 <= i < |bits| ==> (bits'[i] <==> bits[i] && !MapsTo(before, root, lo, hi, base + i))
  }

  lemma AllFreed(before: Tables, root: nat, bits: seq<bool>, bits': seq<bool>, base: nat,
                 regions: seq<MappedRegion>, lo: nat, hi: nat)
    requires FramesFreed(bits, bits', base, regions)
    requires Tiling(regions, lo, hi) && forall i :: 0 <= i < |regions| ==> RegionOk(before, root, regions[i])
    ensures RangeFreed(before, root, bits, bits', base, lo, hi)
  {
    hide FrameIn, MapsTo, Tiling, RegionOk;
    forall i | 0 <= i < |bits| ensures bits'[i] <==> bits[i] && !MapsTo(before, root, lo, hi, base + i) {
      FramesOfTiling(before, root, regions, lo, hi, base + i);
    }
  }

  /** Table pages stay in use when only data frames are freed. */
  lemma TablesSurvive(before: Tables, root: nat, bits: seq<bool>, bits': seq<bool>, base: nat, lo: nat, hi: nat)
    requires TablesInUse(before.Keys, bits, base * PAGE_SIZE) && RangeFreed(before, root, bits, bits', base, lo, hi)
    requires DataFrames(before, root, lo, hi, base, |bits|)
    ensures TablesInUse(before.Keys, bits', base * PAGE_SIZE)
  {
    hide Translate;
    forall t | t in before.Keys ensures bits'[(t - base * PAGE_SIZE) / PAGE_SIZE] {
      var i := (t - base * PAGE_SIZE) / PAGE_SIZE;
      assert t == (base + i) * PAGE_SIZE;
      assert !MapsTo(before, root, lo, hi, base + i);
    }
  }

  /** Returned addresses are unmapped again. */
  lemma FreedUnmapped(list: seq<FreeBlock>, list': seq<FreeBlock>, ts: Tables, ts': Tables, root: nat, v: nat, n: nat)
    requires FreeIsUnmapped(list, ts, root) && Added(list, list', v, n) && v % PAGE_SIZE == 0
    requires v + n * PAGE_SIZE <= PAGES * PAGE_SIZE
    requires RangeCleared(ts, ts', root, v / PAGE_SIZE, v / PAGE_SIZE + n)
    ensures FreeIsUnmapped(list', ts', root)
  {
    hide LeafAt, IsFree;
    forall a | IsFree(list', a) ensures 0 <= a < PAGES * PAGE_SIZE && LeafAt(ts', root, a / PAGE_SIZE).None? {
      assert IsFree(list, a) || InPages(a, v, n);
      var w := a / PAGE_SIZE;
      assert InPages(a, v, n) ==> v / PAGE_SIZE <= w < v / PAGE_SIZE + n;
    }
  }

  lemma LowRange(pma: PhysicalMemoryAllocator, ptr: nat, pageCount: nat)
    requires ptr % PAGE_SIZE == 0 && ptr < PAGES * PAGE_SIZE && ptr + pageCount * PAGE_SIZE <= PAGES * PAGE_SIZE
    requires Addressable(pma)
    ensures VirtualPage(ptr) == ptr / PAGE_SIZE
    ensures VirtualPage(ptr) + pageCount <= PAGES
    ensures pma.memoryStart == pma.memoryStart / PAGE_SIZE * PAGE_SIZE
  {
    hide TagMatches, ToParts;
    LowAddress(ptr);
  }

  lemma NothingLost(ts: Tables, root: nat, v0: nat, n: nat)
    ensures OutsideKept(ts, ts, root, v0, n)
  {
  }

  /** A range taken from the free list lies in the lower half and is unmapped. */
  lemma ReservedFits(list: seq<FreeBlock>, ts: Tables, root: nat, v: nat, n: nat)
    requires FreeIsUnmapped(list, ts, root) && v % PAGE_SIZE == 0
    requires forall a :: InPages(a, v, n) ==> IsFree(list, a)
    ensures n > 0 ==> v + n * PAGE_SIZE <= PAGES * PAGE_SIZE
    ensures forall w: nat :: v / PAGE_SIZE <= w < v / PAGE_SIZE + n ==> LeafAt(ts, root, w).None?
  {
    hide LeafAt, IsFree;
    if n > 0 {
      assert InPages(v + n * PAGE_SIZE - 1, v, n);
      assert IsFree(list, v + n * PAGE_SIZE - 1);
    }
    forall w: nat | v / PAGE_SIZE <= w < v / PAGE_SIZE + n ensures LeafAt(ts, root, w).None? {
      assert InPages(w * PAGE_SIZE, v, n);
      assert IsFree(list, w * PAGE_SIZE);
      assert w * PAGE_SIZE / PAGE_SIZE == w;
    }
  }

  /** What is still free after a range was reserved is still unmapped after only that range was
      mapped. */
  lemma StillUnmapped(list: seq<FreeBlock>, list': seq<FreeBlock>, ts: Tables, ts': Tables, root: nat, v: nat, n: nat)
    requires FreeIsUnmapped(list, ts, root) && Removed(list, list', v, n) && v % PAGE_SIZE == 0
    requires OutsideKept(ts, ts', root, v / PAGE_SIZE, n)
    ensures FreeIsUnmapped(list', ts', root)
  {
    hide LeafAt, IsFree;
    forall a | IsFree(list', a) ensures 0 <= a < PAGES * PAGE_SIZE && LeafAt(ts', root, a / PAGE_SIZE).None? {
      assert IsFree(list, a) && !InPages(a, v, n);
      var w := a / PAGE_SIZE;
      assert !(v / PAGE_SIZE <= w < v / PAGE_SIZE + n);
    }
  }

  // ---- Allocating and freeing again ----

  /** The same addresses are free. */
  ghost predicate SameFree(before: seq<FreeBlock>, list: seq<FreeBlock>) {
    forall a :: IsFree(list, a) <==> IsFree(before, a)
  }

  lemma LeavesRestored(g: Snapshot, ts: Tables, ts': Tables, bits: seq<bool>, frames: seq<nat>)
    requires Allocating(g, ts, bits, frames)
    requires RangeCleared(ts, ts', g.root, g.v0, g.v0 + |frames|)
    requires forall w: nat :: g.v0 <= w < g.v0 + |frames| ==> LeafAt(g.before, g.root, w).None?
    ensures SameLeaves(g.before, ts', g.root)
  {
    hide LeafAt, FramesTaken, BitsExplained;
    forall w: nat | w < PAGES ensures LeafAt(ts', g.root, w) == LeafAt(g.before, g.root, w) {
      assert PageAllocated(g, ts, frames, w);
    }
  }

  lemma FreeSetRestored(list: seq<FreeBlock>, mid: seq<FreeBlock>, list': seq<FreeBlock>, v: nat, n: nat)
    requires Removed(list, mid, v, n) && Added(mid, list', v, n)
    requires forall a :: InPages(a, v, n) ==> IsFree(list, a)
    ensures SameFree(list, list')
  {
    hide IsFree, InPages;
  }

  /** Exactly the frames became free. */
  ghost predicate FramesReturned(bits: seq<bool>, bits': seq<bool>, base: nat, frames: seq<nat>) {
    |bits'| == |bits| && forall i :: 0 <= i < |bits| ==> (bits'[i] <==> bits[i] && base + i !in frames)
  }

  /** A frame that was taken was free, is in use and holds no table. */
  lemma TakenFrame(g: Snapshot, ts: Tables, bits: seq<bool>, frames: seq<nat>, f: nat)
    requires Taking(g, ts, bits, frames) && f in frames
    ensures g.base <= f < g.base + |bits| == g.base + |g.bits| && !g.bits[f - g.base] && bits[f - g.base]
    ensures f * PAGE_SIZE !in ts
  {
    hide BitsExplained, TablesWereFree;
    var k :| 0 <= k < |frames| && frames[k] == f;
  }

  lemma BitsRestored(g: Snapshot, ts: Tables, bits: seq<bool>, bits': seq<bool>, frames: seq<nat>)
    requires Taking(g, ts, bits, frames) && FramesReturned(bits, bits', g.base, frames)
    ensures BitsExplained(g.bits, bits', g.base, [], ts.Keys - g.before.Keys)
  {
    hide FramesTaken, FramesAreNotTables, TablesWereFree;
    forall i | 0 <= i < |bits'|
      ensures bits'[i] <==> g.bits[i] || (g.base + i) * PAGE_SIZE in ts.Keys - g.before.Keys
    {
      if g.base + i in frames { TakenFrame(g, ts, bits, frames, g.base + i); }
    }
  }

  lemma RangeBounds(v: nat, n: nat)
    requires n > 0 && v + n * PAGE_SIZE <= PAGES * PAGE_SIZE
    ensures v < PAGES * PAGE_SIZE && v / PAGE_SIZE + n <= PAGES
  {
  }

  lemma RemovedNotFree(list: seq<FreeBlock>, mid: seq<FreeBlock>, v: nat, n: nat)
    requires Removed(list, mid, v, n)
    ensures forall a :: InPages(a, v, n) ==> !IsFree(mid, a)
  {
    hide IsFree, InPages;
  }
}
