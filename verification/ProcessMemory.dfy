/** `Process::alloc_memory` and `Process::free_memory`: virtual ranges, physical pages and page
    tables composed. The memory is not shared with the kernel. */
module ProcessMemory {
  import opened Addresses
  import opened PhysicalMemory
  import opened VirtualRanges
  import opened PageTableTree
  import opened PageTable
  import opened ProcessPages
  import opened LiveMemory
  import opened TableCounts
  import opened PageCounts

  datatype AllocResult = AllocOk(address: nat) | AllocErr(error: MemoryError)

  /** Why the loop of `alloc_memory` stops with `left` pages to go: no page is free, or the free pages
      end memory and are fewer than those still needed. */
  ghost predicate OutOfPages(bits: seq<bool>, left: nat) { AllUsed(bits) || !CanServe(bits, left) }

  /** No block of virtual addresses is large enough. */
  ghost predicate NoBlock(list: seq<FreeBlock>, pages: nat) {
    forall i :: 0 <= i < |list| ==> list[i].size < pages
  }

  class Process {
    const pageTable: PageTable
    const addressSpace: VirtualAddressAllocator
    const pma: PhysicalMemoryAllocator
    /** Allocations not freed yet: first page to frames. */
    ghost var live: Live

    ghost predicate Valid()
      reads this, pageTable, addressSpace, pma.inUse
    {
      && pageTable.Valid() && addressSpace.Valid() && Addressable(pma)
      && !pageTable.high
      && TablesInUse(pageTable.tables.Keys, pma.inUse[..], pma.memoryStart)
      && FreeIsUnmapped(addressSpace.freeList, pageTable.tables, pageTable.root)
      && LiveOk(live, pageTable.tables, pageTable.root, pma.inUse[..], pma.memoryStart / PAGE_SIZE, addressSpace.freeList)
    }

    constructor (pageTable: PageTable, addressSpace: VirtualAddressAllocator, pma: PhysicalMemoryAllocator)
      ensures this.pageTable == pageTable && this.addressSpace == addressSpace && this.pma == pma && live == map[]
    {
      this.pageTable := pageTable;
      this.addressSpace := addressSpace;
      this.pma := pma;
      live := map[];
    }

    /** The state of the loop of `alloc_memory` after the pages of `frames`. */
    ghost predicate Looping(g: Snapshot, frames: seq<nat>, pageCount: nat)
      reads this, pageTable, pma.inUse
    {
      && pageTable.Valid() && Addressable(pma) && !pageTable.high
      && g.root == pageTable.root && g.base == pma.memoryStart / PAGE_SIZE
      && TablesInUse(pageTable.tables.Keys, pma.inUse[..], pma.memoryStart)
      && Allocating(g, pageTable.tables, pma.inUse[..], frames)
    }

    /** One round of the loop: takes the first free run, up to the pages left, and maps it behind
        the pages mapped so far. */
    method MapRun(vaddr: nat, pageCount: nat, left: nat, offset: nat, ghost g: Snapshot, ghost frames: seq<nat>,
                  ghost places0: Places)
      returns (r: MapResult, size: nat, ghost run: seq<nat>)
      requires Looping(g, frames, pageCount) && OutsideKept(g.before, pageTable.tables, g.root, g.v0, pageCount)
      requires 0 < left == pageCount - |frames| && offset == |frames| * PAGE_SIZE && g.v0 == vaddr / PAGE_SIZE
      requires vaddr % PAGE_SIZE == 0 && vaddr + pageCount * PAGE_SIZE <= PAGES * PAGE_SIZE
      requires forall w: nat :: g.v0 <= w < g.v0 + pageCount ==> LeafAt(g.before, g.root, w).None?
      requires PlacesGrow(places0, pageTable.places, g.v0, pageCount) && places0.Keys == g.before.Keys
      modifies pageTable, pma.inUse
      ensures pageTable.Valid() && TablesInUse(pageTable.tables.Keys, pma.inUse[..], pma.memoryStart)
      ensures OutsideKept(g.before, pageTable.tables, g.root, g.v0, pageCount)
      ensures r.Mapped? || r.NoMemory?
      ensures r.Mapped? ==> 0 < size <= left && |run| == size && Looping(g, frames + run, pageCount)
      ensures PlacesGrow(places0, pageTable.places, g.v0, pageCount)
      ensures r.NoMemory? ==>
        && |run| <= left && Taking(g, pageTable.tables, pma.inUse[..], frames + run)
        && OutOfPages(pma.inUse[..], left - |run|)
        && FreeCount(g.bits) < pageCount + TablesNeeded(g.v0, pageCount)
    {
      hide *;
      LoopingMeans(this, g, frames, pageCount);
      AllocatingMeans(g, pageTable.tables, pma.inUse[..], frames);
      ghost var bits, ts, pl := pma.inUse[..], pageTable.tables, pageTable.places;
      ghost var start;
      run := [];
      size := 0;
      var got;
      got, start := pma.TryAllocContig(left);
      if got.Refused? {
        assert pma.inUse[..] == bits && frames + run == frames;
        Stopped(bits, left);
        BaseAligned(pma, g.base);
        TableIsWellFormed(pageTable);
        TablesBound(ts, g.root, pl, places0, g.before, g.v0, pageCount);
        RefusedCount(g, ts, bits, frames, pageCount);
        return NoMemory(got.error), 0, run;
      }
      var paddr := got.value.0;
      size := got.value.1;
      RunFits(pma, g, bits, start, size, ts.Keys);
      VirtualFits(vaddr, pageCount, |frames|, size);
      ghost var done;
      r, done := pageTable.MapRange(pma, paddr, vaddr + offset, size, true, USER_OPTIONS);
      MapKeepsOutside(g, ts, pageTable.tables, frames, g.base + start, done, pageCount);
      GrowMore(places0, pl, pageTable.places, g.v0, pageCount, g.v0 + |frames|, size);
      if r.Panicked? {
        NoBlockAhead(g, ts, bits, frames, done, pageCount);
        assert false;
      }
      run := Run(g.base + start, size);
      ExtendTaking(g, ts, pageTable.tables, bits, pma.inUse[..], frames, start, size);
      if r.Mapped? {
        AllocatingExtends(g, ts, pageTable.tables, bits, pma.inUse[..], frames, g.base + start, size);
        LoopingIs(this, g, frames + run, pageCount);
      } else {
        Stopped(pma.inUse[..], left - size);
        MissingMore(pageTable.places, g.v0, pageCount, g.v0 + |frames|, size);
        TableIsWellFormed(pageTable);
        TablesBound(pageTable.tables, g.root, pageTable.places, places0, g.before, g.v0, pageCount);
        FullCount(g, pageTable.tables, pma.inUse[..], frames + run, pageCount);
      }
    }

    /** Maps `pageCount` consecutive virtual pages to distinct physical pages that were free, in
        as many runs as the fragmentation of physical memory requires. The call fails if no free block
        of virtual addresses is large enough, which changes nothing, or if physical pages run out: then
        the range stays reserved, the frames taken so far stay in use, and no page outside the range is
        affected. Pages run out only if fewer were free than the range may need frames and tables. In every
        case the pages that were free are still free, or are frames or tables now. */
    method AllocMemory(pageCount: nat) returns (r: AllocResult, ghost frames: seq<nat>, ghost v: nat)
      requires Valid()
      modifies this, pageTable, addressSpace, pma.inUse
      ensures Valid()
      ensures NoBlock(old(addressSpace.freeList), pageCount) ==>
        && r == AllocErr(OutOfMemory) && frames == [] && addressSpace.freeList == old(addressSpace.freeList)
        && pageTable.tables == old(pageTable.tables) && pma.inUse[..] == old(pma.inUse[..])
      ensures !NoBlock(old(addressSpace.freeList), pageCount) ==>
        && v % PAGE_SIZE == 0 && FirstFit(old(addressSpace.freeList), pageCount, v)
        && (forall a :: InPages(a, v, pageCount) ==> IsFree(old(addressSpace.freeList), a))
        && Removed(old(addressSpace.freeList), addressSpace.freeList, v, pageCount)
        && OutsideKept(old(pageTable.tables), pageTable.tables, pageTable.root, v / PAGE_SIZE, pageCount)
      ensures Taking(Snapshot(old(pageTable.tables), old(pma.inUse[..]), pageTable.root, pma.memoryStart / PAGE_SIZE,
                              v / PAGE_SIZE), pageTable.tables, pma.inUse[..], frames)
      ensures r.AllocOk? ==>
        && r.address == v && |frames| == pageCount
        && Allocating(Snapshot(old(pageTable.tables), old(pma.inUse[..]), pageTable.root, pma.memoryStart / PAGE_SIZE,
                               v / PAGE_SIZE), pageTable.tables, pma.inUse[..], frames)
      ensures r.AllocErr? ==>
        NoBlock(old(addressSpace.freeList), pageCount)
        || (&& |frames| <= pageCount && OutOfPages(pma.inUse[..], pageCount - |frames|)
            && FreeCount(old(pma.inUse[..])) < pageCount + TablesNeeded(v / PAGE_SIZE, pageCount))
      ensures FreeCount(old(pma.inUse[..])) ==
              FreeCount(pma.inUse[..]) + |frames| + (|pageTable.tables.Keys| - |old(pageTable.tables).Keys|)
      ensures r.AllocOk? && pageCount > 0 ==> v / PAGE_SIZE !in old(live)
      ensures live == if r.AllocOk? && pageCount > 0 then old(live)[v / PAGE_SIZE := frames] else old(live)
    {
      hide Process.Valid, Process.Looping, PageTable.Valid, VirtualAddressAllocator.Valid, Addressable, TablesInUse,
        FreeIsUnmapped,
        LiveOk, NoBlock, OutOfPages, FirstFit, InPages, IsFree, Removed, OutsideKept, Taking, Allocating, LeafAt,
        FreeCount, TablesNeeded, PlacesGrow, WellFormed;
      ghost var g := Snapshot(pageTable.tables, pma.inUse[..], pageTable.root, pma.memoryStart / PAGE_SIZE, 0);
      ghost var list, places0 := addressSpace.freeList, pageTable.places;
      ValidMeans(this);
      TableIsWellFormed(pageTable);
      frames := [];
      v := 0;
      AllocationStarts(g);
      AllocatingMeans(g, g.before, g.bits, frames);
      var reserved := addressSpace.Alloc(pageCount);
      if reserved.Refused? {
        NothingFits(list, pageCount);
        ValidIs(this);
        return AllocErr(reserved.error), frames, v;
      }
      SomethingFits(list, pageCount, reserved.value);
      v := reserved.value;
      g := g.(v0 := v / PAGE_SIZE);
      WholePage(v);
      ReservedFits(list, g.before, g.root, v, pageCount);
      NothingLost(g.before, g.root, g.v0, pageCount);
      AllocationStarts(g);
      LoopingIs(this, g, frames, pageCount);
      GrowNothing(places0, g.v0, pageCount);
      var left := pageCount;
      var offset := 0;
      while left > 0
        invariant 0 <= left <= pageCount && |frames| == pageCount - left && offset == |frames| * PAGE_SIZE
        invariant Looping(g, frames, pageCount) && OutsideKept(g.before, pageTable.tables, g.root, g.v0, pageCount)
        invariant addressSpace.Valid() && Removed(list, addressSpace.freeList, v, pageCount)
        invariant live == old(live) && PlacesGrow(places0, pageTable.places, g.v0, pageCount)
      {
        var mapped, size;
        ghost var run;
        mapped, size, run := MapRun(reserved.value, pageCount, left, offset, g, frames, places0);
        frames := frames + run;
        if mapped.NoMemory? {
          StillUnmapped(list, addressSpace.freeList, g.before, pageTable.tables, g.root, v, pageCount);
          LiveKept(live, g, pageTable.tables, pma.inUse[..], frames, list, addressSpace.freeList, pageCount);
          PagesConserved(g, pageTable.tables, pma.inUse[..], frames);
          ValidIs(this);
          return AllocErr(mapped.error), frames, v;
        }
        offset := offset + size * PAGE_SIZE;
        left := left - size;
      }
      LoopingMeans(this, g, frames, pageCount);
      AllocatingMeans(g, pageTable.tables, pma.inUse[..], frames);
      StillUnmapped(list, addressSpace.freeList, g.before, pageTable.tables, g.root, v, pageCount);
      if pageCount > 0 {
        RangeBounds(v, pageCount);
        LiveGrows(live, g, pageTable.tables, pma.inUse[..], frames, list, addressSpace.freeList);
        live := live[g.v0 := frames];
      } else {
        LiveKept(live, g, pageTable.tables, pma.inUse[..], frames, list, addressSpace.freeList, pageCount);
      }
      PagesConserved(g, pageTable.tables, pma.inUse[..], frames);
      ValidIs(this);
      return AllocOk(reserved.value), frames, v;
    }

    /** Frees the physical pages of the regions that unmapping a tiled range has reported. */
    method FreeRegions(regions: seq<MappedRegion>, ghost before: Tables, ghost lo: nat, ghost hi: nat)
      requires Tiling(regions, lo, hi) && Addressable(pma)
      requires forall i :: 0 <= i < |regions| ==> RegionOk(before, pageTable.root, regions[i])
      requires DataFrames(before, pageTable.root, lo, hi, pma.memoryStart / PAGE_SIZE, pma.inUse.Length)
      modifies pma.inUse
      ensures RangeFreed(before, pageTable.root, old(pma.inUse[..]), pma.inUse[..], pma.memoryStart / PAGE_SIZE, lo, hi)
    {
      ghost var root, bits, base := pageTable.root, pma.inUse[..], pma.memoryStart / PAGE_SIZE;
      assert pma.memoryStart == base * PAGE_SIZE;
      hide *;
      NothingFreed(bits, base);
      assert regions[..0] == [];
      for q := 0 to |regions|
        invariant FramesFreed(bits, pma.inUse[..], base, regions[..q])
      {
        RegionFits(before, root, regions, lo, hi, q, pma.memoryStart, base, pma.inUse.Length);
        ghost var mid := pma.inUse[..];
        var doubleFree;
        ghost var start;
        doubleFree, start := pma.FreePages(regions[q].basePhysAddr, regions[q].pageCount);
        FreeOneMore(bits, mid, base, regions[..q], regions[q], start);
        assert regions[..q] + [regions[q]] == regions[..q + 1];
      }
      assert regions[..|regions|] == regions;
      AllFreed(before, root, bits, pma.inUse[..], base, regions, lo, hi);
    }

    /** Frees a range: the frames its pages map to and nothing else become free, exactly the range is
        unmapped, and its addresses return to the pool. Live allocations that the range does not touch
        stay live. */
    method FreeMemory(ptr: nat, pageCount: nat)
      requires Valid() && ptr % PAGE_SIZE == 0
      requires ptr < PAGES * PAGE_SIZE && ptr + pageCount * PAGE_SIZE <= PAGES * PAGE_SIZE
      requires NotFree(addressSpace.freeList, ptr, pageCount)
      requires RangeTiled(pageTable.tables, pageTable.root, ptr / PAGE_SIZE, ptr / PAGE_SIZE + pageCount)
      requires DataFrames(pageTable.tables, pageTable.root, ptr / PAGE_SIZE, ptr / PAGE_SIZE + pageCount,
                          pma.memoryStart / PAGE_SIZE, pma.inUse.Length)
      modifies this, pageTable, addressSpace, pma.inUse
      ensures Valid() && pageTable.tables.Keys == old(pageTable.tables.Keys)
      ensures live == Remaining(old(live), old(pageTable.tables), pageTable.root, ptr / PAGE_SIZE, pageCount)
      ensures RangeCleared(old(pageTable.tables), pageTable.tables, pageTable.root, ptr / PAGE_SIZE, ptr / PAGE_SIZE + pageCount)
      ensures RangeFreed(old(pageTable.tables), pageTable.root, old(pma.inUse[..]), pma.inUse[..],
                         pma.memoryStart / PAGE_SIZE, ptr / PAGE_SIZE, ptr / PAGE_SIZE + pageCount)
      ensures Added(old(addressSpace.freeList), addressSpace.freeList, ptr, pageCount)
    {
      ghost var before, root, bits := pageTable.tables, pageTable.root, pma.inUse[..];
      ghost var lo, base := ptr / PAGE_SIZE, pma.memoryStart / PAGE_SIZE;
      ghost var hi := lo + pageCount;
      hide *;
      ValidMeans(this);
      LowRange(pma, ptr, pageCount);
      var ok, regions := pageTable.UnmapRange(ptr, pageCount);
      FreeRegions(regions, before, lo, hi);
      TablesSurvive(before, root, bits, pma.inUse[..], base, lo, hi);
      addressSpace.Free(ptr, pageCount);
      FreedUnmapped(old(addressSpace.freeList), addressSpace.freeList, before, pageTable.tables, root, ptr, pageCount);
      LiveShrinks(live, before, pageTable.tables, root, bits, pma.inUse[..], base, old(addressSpace.freeList),
                  addressSpace.freeList, lo, pageCount);
      live := Remaining(live, before, root, lo, pageCount);
      ValidIs(this);
    }
  }

  lemma Stopped(bits: seq<bool>, left: nat)
    requires AllUsed(bits) || !CanServe(bits, left)
    ensures OutOfPages(bits, left)
  {
  }

  lemma TableIsWellFormed(t: PageTable)
    requires t.Valid()
    ensures WellFormed(t.tables, t.root, t.places) && t.tables.Keys == t.places.Keys
  {
  }

  lemma BaseAligned(pma: PhysicalMemoryAllocator, base: nat)
    requires Addressable(pma) && base == pma.memoryStart / PAGE_SIZE
    ensures pma.memoryStart == base * PAGE_SIZE
  {
  }

  lemma NothingFits(list: seq<FreeBlock>, pages: nat)
    requires forall i :: 0 <= i < |list| ==> list[i].size < pages
    ensures NoBlock(list, pages)
  {
  }

  lemma SomethingFits(list: seq<FreeBlock>, pages: nat, v: nat)
    requires FirstFit(list, pages, v)
    ensures !NoBlock(list, pages)
  {
  }

  lemma AllocatingExtends(g: Snapshot, ts: Tables, ts': Tables, bits: seq<bool>, bits': seq<bool>, frames: seq<nat>,
                          first: nat, n: nat)
    requires Allocating(g, ts, bits, frames) && Taking(g, ts', bits', frames + Run(first, n))
    requires RangeMapped(ts, ts', g.root, g.v0 + |frames|, n, first, USER_OPTIONS)
    ensures Allocating(g, ts', bits', frames + Run(first, n))
  {
    hide Taking, PagesAllocated, RangeMapped;
    ExtendPagesAll(g, ts, ts', frames, first, n);
  }

  lemma ValidMeans(p: Process)
    requires p.Valid()
    ensures p.pageTable.Valid() && p.addressSpace.Valid() && Addressable(p.pma) && !p.pageTable.high
    ensures TablesInUse(p.pageTable.tables.Keys, p.pma.inUse[..], p.pma.memoryStart)
    ensures FreeIsUnmapped(p.addressSpace.freeList, p.pageTable.tables, p.pageTable.root)
    ensures LiveOk(p.live, p.pageTable.tables, p.pageTable.root, p.pma.inUse[..], p.pma.memoryStart / PAGE_SIZE,
                   p.addressSpace.freeList)
    ensures p.pma.memoryStart == p.pma.memoryStart / PAGE_SIZE * PAGE_SIZE
  {
  }

  lemma ValidIs(p: Process)
    requires p.pageTable.Valid() && p.addressSpace.Valid() && Addressable(p.pma) && !p.pageTable.high
    requires TablesInUse(p.pageTable.tables.Keys, p.pma.inUse[..], p.pma.memoryStart)
    requires FreeIsUnmapped(p.addressSpace.freeList, p.pageTable.tables, p.pageTable.root)
    requires LiveOk(p.live, p.pageTable.tables, p.pageTable.root, p.pma.inUse[..], p.pma.memoryStart / PAGE_SIZE,
                    p.addressSpace.freeList)
    ensures p.Valid()
  {
  }

  lemma LoopingMeans(p: Process, g: Snapshot, frames: seq<nat>, pageCount: nat)
    requires p.Looping(g, frames, pageCount)
    ensures p.pageTable.Valid() && Addressable(p.pma) && !p.pageTable.high
    ensures g.root == p.pageTable.root && g.base == p.pma.memoryStart / PAGE_SIZE
    ensures TablesInUse(p.pageTable.tables.Keys, p.pma.inUse[..], p.pma.memoryStart)
    ensures Allocating(g, p.pageTable.tables, p.pma.inUse[..], frames)
  {
  }

  lemma LoopingIs(p: Process, g: Snapshot, frames: seq<nat>, pageCount: nat)
    requires p.pageTable.Valid() && Addressable(p.pma) && !p.pageTable.high
    requires g.root == p.pageTable.root && g.base == p.pma.memoryStart / PAGE_SIZE
    requires TablesInUse(p.pageTable.tables.Keys, p.pma.inUse[..], p.pma.memoryStart)
    requires Allocating(g, p.pageTable.tables, p.pma.inUse[..], frames)
    ensures p.Looping(g, frames, pageCount)
  {
  }

  /** The address space of a process starts behind the first page and ends with the lower half. */
  const USER_PAGES: nat := 0x0000_ffff_ffff_ffff / PAGE_SIZE

  /** A process without memory: it takes one page for its root table, and fails exactly when no page is
      free. */
  method NewProcess(pma: PhysicalMemoryAllocator) returns (r: Allocated<Process>)
    requires Addressable(pma)
    modifies pma.inUse
    ensures r.Refused? <==> AllUsed(old(pma.inUse[..]))
    ensures r.Refused? ==> pma.inUse[..] == old(pma.inUse[..])
    ensures r.Granted? ==>
      && fresh(r.value) && fresh(r.value.pageTable) && fresh(r.value.addressSpace) && r.value.pma == pma
      && r.value.Valid() && r.value.live == map[]
      && (forall a :: IsFree(r.value.addressSpace.freeList, a) <==> PAGE_SIZE <= a < PAGES * PAGE_SIZE)
      && (forall w: nat :: LeafAt(r.value.pageTable.tables, r.value.pageTable.root, w).None?)
      && OnlyTablesTaken(old(pma.inUse[..]), pma.inUse[..], {}, r.value.pageTable.tables.Keys, pma.memoryStart)
  {
    hide LeafAt, IsFree, AllUsed, TablesInUse, OnlyTablesTaken;
    var table := Create(pma, false);
    if table.Refused? {
      return Refused(table.error);
    }
    var space := new VirtualAddressAllocator(PAGE_SIZE, USER_PAGES);
    var p := new Process(table.value, space, pma);
    return Granted(p);
  }

  /** Frees an allocation, whatever was allocated or freed since it was made: its frames become free, its
      pages are unmapped, its addresses return to the pool, and every other allocation stays live. */
  method FreeAllocated(p: Process, v: nat, pageCount: nat)
    requires p.Valid() && v % PAGE_SIZE == 0 && v / PAGE_SIZE in p.live && |p.live[v / PAGE_SIZE]| == pageCount
    modifies p, p.pageTable, p.addressSpace, p.pma.inUse
    ensures p.Valid() && p.live == old(p.live) - {v / PAGE_SIZE}
    ensures p.pageTable.tables.Keys == old(p.pageTable.tables.Keys)
    ensures FramesReturned(old(p.pma.inUse[..]), p.pma.inUse[..], p.pma.memoryStart / PAGE_SIZE, old(p.live[v / PAGE_SIZE]))
    ensures RangeCleared(old(p.pageTable.tables), p.pageTable.tables, p.pageTable.root, v / PAGE_SIZE, v / PAGE_SIZE + pageCount)
    ensures Added(old(p.addressSpace.freeList), p.addressSpace.freeList, v, pageCount)
  {
    hide Process.Valid, PageTable.Valid, VirtualAddressAllocator.Valid, Addressable, TablesInUse, FreeIsUnmapped,
      LiveOk, AllHeld,
      AllReserved, Apart, Held, NotFree, RangeTiled, DataFrames, Remaining, RangeFreed, RangeCleared, FramesReturned,
      Added;
    ghost var live, v0, ts, root, bits, base :=
      p.live, v / PAGE_SIZE, p.pageTable.tables, p.pageTable.root, p.pma.inUse[..], p.pma.memoryStart / PAGE_SIZE;
    ValidMeans(p);
    WholePage(v);
    LiveMeans(live, ts, root, bits, base, p.addressSpace.freeList);
    LiveEntry(live, ts, root, bits, base, p.addressSpace.freeList, v0);
    HeldNotEmpty(ts, root, bits, base, v0, live[v0]);
    PageBounds(v0, pageCount);
    HeldIsTiled(ts, root, bits, base, v0, live[v0]);
    OthersRemain(live, ts, root, bits, base, v0);
    p.FreeMemory(v, pageCount);
    OwnFramesFreed(ts, root, bits, p.pma.inUse[..], base, v0, live[v0]);
  }

  lemma WholePage(v: nat)
    requires v % PAGE_SIZE == 0
    ensures v / PAGE_SIZE * PAGE_SIZE == v
  {
  }

  lemma PageBounds(v0: nat, n: nat)
    requires 0 < n && v0 + n <= PAGES
    ensures v0 * PAGE_SIZE < PAGES * PAGE_SIZE && v0 * PAGE_SIZE + n * PAGE_SIZE <= PAGES * PAGE_SIZE
  {
  }

  lemma LiveEntry(live: Live, ts: Tables, root: nat, bits: seq<bool>, base: nat, list: seq<FreeBlock>, v0: nat)
    requires AllHeld(live, ts, root, bits, base) && AllReserved(live, list) && v0 in live
    ensures Held(ts, root, bits, base, v0, live[v0]) && NotFree(list, v0 * PAGE_SIZE, |live[v0]|)
  {
  }

  /** Memory that is allocated and freed again leaves the free addresses and the translation as
      they were, and the bitmap too, except for pages that became tables. */
  method AllocThenFree(p: Process, pageCount: nat) returns (ok: bool)
    requires p.Valid() && pageCount > 0
    modifies p, p.pageTable, p.addressSpace, p.pma.inUse
    ensures p.Valid() && p.live == old(p.live)
    ensures ok ==> SameFree(old(p.addressSpace.freeList), p.addressSpace.freeList)
    ensures ok ==> SameLeaves(old(p.pageTable.tables), p.pageTable.tables, p.pageTable.root)
    ensures ok ==> BitsExplained(old(p.pma.inUse[..]), p.pma.inUse[..], p.pma.memoryStart / PAGE_SIZE, [],
                                 p.pageTable.tables.Keys - old(p.pageTable.tables.Keys))
  {
    hide Process.Valid, PageTable.Valid, VirtualAddressAllocator.Valid, Addressable, TablesInUse, FreeIsUnmapped,
      LiveOk, NoBlock,
      OutOfPages, FirstFit, InPages, IsFree, Removed, Added, OutsideKept, Taking, Allocating, LeafAt, RangeCleared,
      FramesReturned,
      SameFree, SameLeaves, BitsExplained, FreeCount;
    ghost var g := Snapshot(p.pageTable.tables, p.pma.inUse[..], p.pageTable.root, p.pma.memoryStart / PAGE_SIZE, 0);
    ghost var list0 := p.addressSpace.freeList;
    ValidMeans(p);
    var r;
    ghost var frames, v;
    r, frames, v := p.AllocMemory(pageCount);
    if r.AllocErr? {
      return false;
    }
    g := g.(v0 := v / PAGE_SIZE);
    ReservedFits(list0, g.before, g.root, v, pageCount);
    ghost var list, ts, bits := p.addressSpace.freeList, p.pageTable.tables, p.pma.inUse[..];
    FreeAllocated(p, r.address, pageCount);
    FreeSetRestored(list0, list, p.addressSpace.freeList, v, pageCount);
    BitsRestored(g, ts, bits, p.pma.inUse[..], frames);
    LeavesRestored(g, ts, p.pageTable.tables, bits, frames);
    return true;
  }

  // ---- Runs ----

  datatype Request = Allocate(pages: nat) | Release(which: nat)

  /** A returned address and its page count. */
  datatype Block = Block(address: nat, pages: nat)
  {
    function Page(): nat { address / PAGE_SIZE }
  }

  /** The block is live, and was not at the start. */
  ghost predicate BlockHeld(b: Block, live0: Live, live: Live) {
    b.address % PAGE_SIZE == 0 && b.Page() in live && b.Page() !in live0 && |live[b.Page()]| == b.pages
  }

  ghost predicate HasPage(blocks: seq<Block>, u: nat) { exists k :: 0 <= k < |blocks| && blocks[k].Page() == u }

  /** What was live at the start still is, and the blocks are what else is live, each once. */
  ghost predicate Holds(blocks: seq<Block>, live0: Live, live: Live) {
    && (forall u :: u in live0 ==> u in live && live[u] == live0[u])
    && (forall k :: 0 <= k < |blocks| ==> BlockHeld(blocks[k], live0, live))
    && (forall i, j :: 0 <= i < j < |blocks| ==> blocks[i].Page() != blocks[j].Page())
    && (forall u :: u in live && u !in live0 ==> HasPage(blocks, u))
  }

  lemma HoldsMore(blocks: seq<Block>, live0: Live, live: Live, b: Block, frames: seq<nat>)
    requires Holds(blocks, live0, live) && b.address % PAGE_SIZE == 0 && b.Page() !in live && |frames| == b.pages
    ensures Holds(blocks + [b], live0, live[b.Page() := frames])
  {
    var more, live' := blocks + [b], live[b.Page() := frames];
    forall k | 0 <= k < |more| ensures BlockHeld(more[k], live0, live') {
      assert k < |blocks| ==> BlockHeld(blocks[k], live0, live);
    }
    forall i, j | 0 <= i < j < |more| ensures more[i].Page() != more[j].Page() {
      assert BlockHeld(blocks[i], live0, live);
    }
    forall u | u in live' && u !in live0 ensures HasPage(more, u) {
      if u == b.Page() {
        assert more[|blocks|].Page() == u;
      } else {
        var k :| 0 <= k < |blocks| && blocks[k].Page() == u;
        assert more[k].Page() == u;
      }
    }
  }

  function Without(blocks: seq<Block>, k: nat): (r: seq<Block>)
    requires k < |blocks|
    ensures |r| == |blocks| - 1 && forall i :: 0 <= i < |r| ==> r[i] == blocks[if i < k then i else i + 1]
  {
    blocks[..k] + blocks[k + 1..]
  }

  lemma HoldsLess(blocks: seq<Block>, live0: Live, live: Live, k: nat)
    requires Holds(blocks, live0, live) && k < |blocks|
    ensures Holds(Without(blocks, k), live0, live - {blocks[k].Page()})
  {
    hide Without, Block.Page, HasPage;
    var less, live' := Without(blocks, k), live - {blocks[k].Page()};
    assert BlockHeld(blocks[k], live0, live);
    forall i | 0 <= i < |less| ensures BlockHeld(less[i], live0, live') {
      var j := if i < k then i else i + 1;
      assert BlockHeld(blocks[j], live0, live) && blocks[j].Page() != blocks[k].Page();
    }
    forall u | u in live' && u !in live0 ensures HasPage(less, u) {
      PageStays(blocks, k, u);
    }
    forall i, j | 0 <= i < j < |less| ensures less[i].Page() != less[j].Page() {
      assert less[i] == blocks[if i < k then i else i + 1] && less[j] == blocks[if j < k then j else j + 1];
    }
  }

  lemma PageStays(blocks: seq<Block>, k: nat, u: nat)
    requires k < |blocks| && HasPage(blocks, u) && blocks[k].Page() != u
    ensures HasPage(Without(blocks, k), u)
  {
    hide Without, Block.Page;
    var j :| 0 <= j < |blocks| && blocks[j].Page() == u;
    assert Without(blocks, k)[if j < k then j else j - 1].Page() == u;
  }

  /** The account of a process and of the pages that others use. */
  ghost predicate Balanced(p: Process, other: seq<bool>, leaked: set<nat>)
    reads p, p.pageTable, p.pma.inUse
  {
    Accounted(other, p.pma.inUse[..], p.pma.memoryStart / PAGE_SIZE, p.live, p.pageTable.tables.Keys, leaked)
  }

  ghost function OtherPages(p: Process): seq<bool>
    reads p, p.pageTable, p.pma.inUse
  {
    Others(p.pma.inUse[..], p.pma.memoryStart / PAGE_SIZE, p.live, p.pageTable.tables.Keys)
  }

  lemma BalanceStarts(p: Process)
    requires p.Valid()
    ensures Balanced(p, OtherPages(p), {})
  {
    hide LiveOk, TablesInUse, Accounted, Others;
    ValidMeans(p);
    LiveMeans(p.live, p.pageTable.tables, p.pageTable.root, p.pma.inUse[..], p.pma.memoryStart / PAGE_SIZE,
              p.addressSpace.freeList);
    AccountStarts(p.pageTable.tables, p.pageTable.root, p.pma.inUse[..], p.pma.memoryStart / PAGE_SIZE, p.live);
  }

  /** `alloc_memory` keeps the account: the frames it returns become live, those it loses leak. */
  method AllocateOne(p: Process, pages: nat, blocks: seq<Block>, ghost live0: Live, ghost other: seq<bool>,
                     ghost leaked: set<nat>)
    returns (ok: bool, blocks': seq<Block>, ghost leaked': set<nat>)
    requires p.Valid() && Holds(blocks, live0, p.live) && Balanced(p, other, leaked)
    modifies p, p.pageTable, p.addressSpace, p.pma.inUse
    ensures p.Valid() && Holds(blocks', live0, p.live) && Balanced(p, other, leaked')
    ensures blocks <= blocks' && (ok ==> leaked' == leaked)
    ensures ok && pages > 0 ==> |blocks'| == |blocks| + 1 && blocks'[|blocks|].pages == pages
  {
    hide Process.Valid, PageTable.Valid, VirtualAddressAllocator.Valid, Addressable, Holds, Accounted, NoBlock,
      OutOfPages, FirstFit,
      InPages, IsFree, Removed, OutsideKept, Taking, Allocating, LeafAt, FreeCount, Block.Page;
    ghost var g := Snapshot(p.pageTable.tables, p.pma.inUse[..], p.pageTable.root, p.pma.memoryStart / PAGE_SIZE, 0);
    ghost var live := p.live;
    var r;
    ghost var frames, v;
    r, frames, v := p.AllocMemory(pages);
    g := g.(v0 := v / PAGE_SIZE);
    blocks', leaked' := blocks, leaked;
    if r.AllocErr? {
      AccountLeak(other, live, leaked, g, p.pageTable.tables, p.pma.inUse[..], frames);
      leaked' := leaked + FrameSet(frames);
      return false, blocks', leaked';
    }
    if pages > 0 {
      var b := Block(r.address, pages);
      BlockPage(b);
      AccountAlloc(other, live, leaked, g, p.pageTable.tables, p.pma.inUse[..], frames);
      HoldsMore(blocks, live0, live, b, frames);
      blocks' := blocks + [b];
    } else {
      AccountLeak(other, live, leaked, g, p.pageTable.tables, p.pma.inUse[..], frames);
      assert leaked + FrameSet(frames) == leaked;
    }
    return true, blocks', leaked';
  }

  lemma BlockPage(b: Block)
    ensures b.Page() == b.address / PAGE_SIZE
  {
  }

  lemma HoldsBlock(blocks: seq<Block>, live0: Live, live: Live, k: nat)
    requires Holds(blocks, live0, live) && k < |blocks|
    ensures BlockHeld(blocks[k], live0, live)
  {
  }

  method ReleaseOne(p: Process, k: nat, blocks: seq<Block>, ghost live0: Live, ghost other: seq<bool>,
                    ghost leaked: set<nat>)
    returns (blocks': seq<Block>)
    requires p.Valid() && Holds(blocks, live0, p.live) && Balanced(p, other, leaked) && k < |blocks|
    modifies p, p.pageTable, p.addressSpace, p.pma.inUse
    ensures p.Valid() && Holds(blocks', live0, p.live) && Balanced(p, other, leaked)
    ensures blocks' == Without(blocks, k)
  {
    hide Process.Valid, PageTable.Valid, VirtualAddressAllocator.Valid, Addressable, Holds, Accounted, RangeCleared,
      FramesReturned,
      Added, LiveOk, AllHeld, AllReserved, Apart;
    ghost var live, bits := p.live, p.pma.inUse[..];
    ValidMeans(p);
    LiveMeans(live, p.pageTable.tables, p.pageTable.root, bits, p.pma.memoryStart / PAGE_SIZE, p.addressSpace.freeList);
    HoldsBlock(blocks, live0, live, k);
    FreeAllocated(p, blocks[k].address, blocks[k].pages);
    AccountFree(other, bits, p.pma.inUse[..], p.pma.memoryStart / PAGE_SIZE, live, p.pageTable.tables.Keys, leaked,
                blocks[k].Page());
    HoldsLess(blocks, live0, live, k);
    return Without(blocks, k);
  }

  /** Any sequence of allocations and releases. What was live stays live; the blocks returned and not
      released are live, with pages and frames of their own; and a page is in use exactly if others use
      it, it is a frame of a live allocation, it holds a table, or a failed allocation lost it. If no
      allocation failed, nothing is lost. */
  method Serve(p: Process, requests: seq<Request>) returns (ok: bool, blocks: seq<Block>, ghost leaked: set<nat>)
    requires p.Valid()
    modifies p, p.pageTable, p.addressSpace, p.pma.inUse
    ensures p.Valid() && Holds(blocks, old(p.live), p.live)
    ensures Balanced(p, old(OtherPages(p)), leaked) && (ok ==> leaked == {})
  {
    hide Process.Valid, Balanced, Holds, OtherPages;
    ghost var live0, other := p.live, OtherPages(p);
    BalanceStarts(p);
    ok, blocks, leaked := true, [], {};
    HoldsNothing(live0);
    for i := 0 to |requests|
      invariant p.Valid() && Holds(blocks, live0, p.live) && Balanced(p, other, leaked)
      invariant ok ==> leaked == {}
    {
      match requests[i]
      case Allocate(pages) =>
        var granted;
        granted, blocks, leaked := AllocateOne(p, pages, blocks, live0, other, leaked);
        ok := ok && granted;
      case Release(which) =>
        if which < |blocks| {
          blocks := ReleaseOne(p, which, blocks, live0, other, leaked);
        }
    }
  }

  lemma HoldsNothing(live: Live)
    ensures Holds([], live, live)
  {
  }
}
