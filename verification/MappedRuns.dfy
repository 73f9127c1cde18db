/** Adjacent `map_range` calls, and one `unmap_range_custom` over all that they mapped. */
module MappedRuns {
  import opened Wrappers
  import opened Addresses
  import opened PhysicalMemory
  import opened PageTableEntries
  import opened PageTableTree
  import opened PageTable

  /** Consecutive physical pages, and the options to map them with. */
  datatype PhysicalRun = PhysicalRun(address: nat, pages: nat, options: Options)

  /** What the pages of the run are to map to. */
  function RunMappings(run: PhysicalRun): (m: seq<Mapping>)
    ensures |m| == run.pages && forall i :: 0 <= i < run.pages ==> m[i] == Mapping(run.address / PAGE_SIZE + i, run.options)
  {
    seq(run.pages, i requires 0 <= i => Mapping(run.address / PAGE_SIZE + i, run.options))
  }

  function Mappings(runs: seq<PhysicalRun>): seq<Mapping> {
    if runs == [] then [] else Mappings(runs[..|runs| - 1]) + RunMappings(runs[|runs| - 1])
  }

  lemma {:induction false} MappingsPrefix(runs: seq<PhysicalRun>, k: nat)
    requires k < |runs|
    ensures Mappings(runs[..k + 1]) == Mappings(runs[..k]) + RunMappings(runs[k])
    ensures Mappings(runs[..k]) + RunMappings(runs[k]) <= Mappings(runs)
    decreases |runs| - k
  {
    assert runs[..k + 1][..k] == runs[..k];
    if k + 1 < |runs| {
      MappingsPrefix(runs, k + 1);
    } else {
      assert runs[..k + 1] == runs;
    }
  }

  /** Page `w` maps as listed, or has the leaf it had. */
  ghost predicate ListedAt(before: Tables, ts: Tables, root: nat, v0: nat, m: seq<Mapping>, w: nat) {
    if v0 <= w < v0 + |m| then Translate(ts, root, w) == Some(m[w - v0])
    else LeafAt(ts, root, w) == LeafAt(before, root, w)
  }

  /** Exactly the pages from `v0` on were mapped, as listed. */
  ghost predicate Listed(before: Tables, ts: Tables, root: nat, v0: nat, m: seq<Mapping>) {
    forall w: nat :: w < PAGES ==> ListedAt(before, ts, root, v0, m, w)
  }

  /** Mapping a run behind the pages mapped so far. */
  lemma ListMore(before: Tables, ts: Tables, ts': Tables, root: nat, v0: nat, m: seq<Mapping>, run: PhysicalRun)
    requires Listed(before, ts, root, v0, m)
    requires RangeMapped(ts, ts', root, v0 + |m|, run.pages, run.address / PAGE_SIZE, run.options)
    ensures Listed(before, ts', root, v0, m + RunMappings(run))
  {
    hide LeafAt;
    forall w: nat | w < PAGES ensures ListedAt(before, ts', root, v0, m + RunMappings(run), w) {
      assert ListedAt(before, ts, root, v0, m, w);
      assert RangeMappedAt(ts, ts', root, v0 + |m|, run.pages, run.address / PAGE_SIZE, run.options, w);
    }
  }

  /** The pages of every region have the frames listed for them. */
  ghost predicate Carries(regions: seq<MappedRegion>, lo: nat, m: seq<Mapping>) {
    forall q :: 0 <= q < |regions| ==> RegionCarries(regions[q], lo, m)
  }

  ghost predicate RegionCarries(r: MappedRegion, lo: nat, m: seq<Mapping>) {
    && lo <= r.page && r.page + r.pageCount <= lo + |m|
    && forall k :: r.page - lo <= k < r.page - lo + r.pageCount ==>
      m[k].frame == r.basePhysAddr / PAGE_SIZE + (lo + k - r.page)
  }

  lemma RegionsCarry(before: Tables, ts: Tables, root: nat, lo: nat, m: seq<Mapping>, regions: seq<MappedRegion>)
    requires Listed(before, ts, root, lo, m) && lo + |m| <= PAGES && Tiling(regions, lo, lo + |m|)
    requires forall q :: 0 <= q < |regions| ==> RegionOk(ts, root, regions[q])
    ensures Carries(regions, lo, m)
  {
    hide Translate, LeafAt, Tiling;
    forall q | 0 <= q < |regions| ensures RegionCarries(regions[q], lo, m) {
      var r := regions[q];
      RegionInside(regions, lo, lo + |m|, q);
      assert RegionOk(ts, root, r);
      forall k | r.page - lo <= k < r.page - lo + r.pageCount
        ensures m[k].frame == r.basePhysAddr / PAGE_SIZE + (lo + k - r.page)
      {
        assert ListedAt(before, ts, root, lo, m, lo + k);
      }
    }
  }

  ghost predicate Unmapped(ts: Tables, root: nat, lo: nat, n: nat) {
    forall w: nat :: lo <= w < lo + n ==> LeafAt(ts, root, w).None?
  }

  lemma ClearedAgain(before: Tables, ts: Tables, ts': Tables, root: nat, lo: nat, m: seq<Mapping>)
    requires Listed(before, ts, root, lo, m) && Unmapped(before, root, lo, |m|)
    requires RangeCleared(ts, ts', root, lo, lo + |m|)
    ensures SameLeaves(before, ts', root)
  {
    hide Translate, LeafAt;
    forall w: nat | w < PAGES ensures LeafAt(ts', root, w) == LeafAt(before, root, w) {
      assert ListedAt(before, ts, root, lo, m, w);
    }
  }

  ghost predicate RunsFit(runs: seq<PhysicalRun>) {
    forall k :: 0 <= k < |runs| ==> runs[k].address / PAGE_SIZE + runs[k].pages <= FRAMES
  }

  /** Maps the runs one behind the other. Pages that were unmapped map as listed and no other page
      changes; if memory runs out, that holds for a prefix of the list. */
  method MapRuns(t: PageTable, pma: PhysicalMemoryAllocator, virtStart: nat, runs: seq<PhysicalRun>)
    returns (r: MapResult, ghost m: seq<Mapping>)
    requires t.Valid() && Addressable(pma) && TablesInUse(t.tables.Keys, pma.inUse[..], pma.memoryStart) && RunsFit(runs)
    requires VirtualPage(virtStart) + |Mappings(runs)| <= PAGES
    requires Unmapped(t.tables, t.root, VirtualPage(virtStart), |Mappings(runs)|)
    modifies t, pma.inUse
    ensures t.Valid() && TablesInUse(t.tables.Keys, pma.inUse[..], pma.memoryStart)
    ensures Listed(old(t.tables), t.tables, t.root, VirtualPage(virtStart), m) && m <= Mappings(runs)
    ensures RangeTiled(t.tables, t.root, VirtualPage(virtStart), VirtualPage(virtStart) + |m|)
    ensures r.Mapped? ==> m == Mappings(runs)
    ensures r.NoMemory? ==> AllUsed(pma.inUse[..])
    ensures !r.Panicked?
  {
    hide PageTable.Valid, Addressable, TablesInUse, Listed, RangeTiled, Unmapped, RangeMapped, PlacesGrow, TableMissing, AllUsed,
      OnlyTablesTaken,
      TagMatches, ToParts, UnderBlock, LeafAt, Mappings, RunMappings;
    ghost var before, v0, all := t.tables, VirtualPage(virtStart), Mappings(runs);
    m := [];
    NothingListed(before, t.root, v0);
    var offset := 0;
    var k := 0;
    MappingsOfNone(runs);
    while k < |runs|
      invariant 0 <= k <= |runs| && offset == |m| && m == Mappings(runs[..k]) && m <= all
      invariant t.Valid() && TablesInUse(t.tables.Keys, pma.inUse[..], pma.memoryStart)
      invariant Listed(before, t.tables, t.root, v0, m) && RangeTiled(t.tables, t.root, v0, v0 + |m|)
    {
      var run := runs[k];
      ghost var ts := t.tables;
      MappingsPrefix(runs, k);
      RunFitsBehind(virtStart, |m|, run.pages);
      ghost var done;
      r, done := t.MapRange(pma, run.address, virtStart + offset * PAGE_SIZE, run.pages, true, run.options);
      ghost var part := run.(pages := done);
      MappedBehind(ts, t.tables, t.root, virtStart, |m|, part, run.pages);
      ListMore(before, ts, t.tables, t.root, v0, m, part);
      TiledExtends(ts, t.tables, t.root, v0, v0 + |m|, done, run.address / PAGE_SIZE, run.options);
      if r.Panicked? {
        NotUnderBlock(before, ts, t.root, v0, m, |all|, virtStart, done);
        assert false;
      }
      PartIsPrefix(m, run, done, all);
      m := m + RunMappings(part);
      if !r.Mapped? {
        return;
      }
      offset := offset + run.pages;
      k := k + 1;
    }
    assert runs[..k] == runs;
    r := Mapped;
  }

  lemma NothingListed(ts: Tables, root: nat, v0: nat)
    ensures Listed(ts, ts, root, v0, []) && RangeTiled(ts, root, v0, v0)
  {
  }

  lemma MappingsOfNone(runs: seq<PhysicalRun>)
    ensures Mappings(runs[..0]) == []
  {
  }

  lemma PartIsPrefix(m: seq<Mapping>, run: PhysicalRun, done: nat, all: seq<Mapping>)
    requires done <= run.pages && m + RunMappings(run) <= all
    ensures m + RunMappings(run.(pages := done)) <= all
  {
    assert RunMappings(run.(pages := done)) == RunMappings(run)[..done];
  }

  /** Where the next run starts. */
  lemma RunFitsBehind(virtStart: nat, k: nat, n: nat)
    requires VirtualPage(virtStart) + k + n <= PAGES
    ensures VirtualPage(virtStart + k * PAGE_SIZE) + n <= PAGES
    ensures n > 0 ==> VirtualPage(virtStart + k * PAGE_SIZE) == VirtualPage(virtStart) + k
  {
    PageOfAddress(virtStart, k);
    var tag := virtStart / 4096 / PAGES;
    assert VirtualPage(virtStart) + k < PAGES ==> (tag * PAGES + (VirtualPage(virtStart) + k)) % PAGES == VirtualPage(virtStart) + k;
  }

  lemma MappedBehind(ts: Tables, ts': Tables, root: nat, virtStart: nat, k: nat, part: PhysicalRun, n: nat)
    requires VirtualPage(virtStart) + k + n <= PAGES && part.pages <= n
    requires RangeMapped(ts, ts', root, VirtualPage(virtStart + k * PAGE_SIZE), part.pages, part.address / PAGE_SIZE, part.options)
    ensures RangeMapped(ts, ts', root, VirtualPage(virtStart) + k, part.pages, part.address / PAGE_SIZE, part.options)
  {
    hide LeafAt, Translate, LeafInside, VirtualPage;
    RunFitsBehind(virtStart, k, n);
    if n == 0 {
      var v, frame := VirtualPage(virtStart) + k, part.address / PAGE_SIZE;
      forall w: nat | w < PAGES ensures RangeMappedAt(ts, ts', root, v, 0, frame, part.options, w) {
        assert RangeMappedAt(ts, ts', root, VirtualPage(virtStart + k * PAGE_SIZE), 0, frame, part.options, w);
      }
    }
  }

  /** The pages ahead are unmapped, so no block is in the way. */
  lemma NotUnderBlock(before: Tables, ts: Tables, root: nat, v0: nat, m: seq<Mapping>, n: nat, virtStart: nat, done: nat)
    requires Listed(before, ts, root, v0, m) && Unmapped(before, root, v0, n) && v0 == VirtualPage(virtStart)
    requires |m| + done < n && v0 + n <= PAGES
    ensures !UnderBlock(ts, root, VirtualPage(virtStart + |m| * PAGE_SIZE) + done)
  {
    hide LeafAt, Translate, LeafInside, VirtualPage;
    RunFitsBehind(virtStart, |m|, done + 1);
    assert ListedAt(before, ts, root, v0, m, v0 + |m| + done);
  }

  /** Maps the runs and unmaps the whole range again: the regions reported tile it and carry the frames
      that were mapped, and every page has the leaf it had. */
  method MapThenUnmap(t: PageTable, pma: PhysicalMemoryAllocator, virtStart: nat, runs: seq<PhysicalRun>)
    returns (r: MapResult, regions: seq<MappedRegion>)
    requires t.Valid() && Addressable(pma) && TablesInUse(t.tables.Keys, pma.inUse[..], pma.memoryStart) && RunsFit(runs)
    requires VirtualPage(virtStart) + |Mappings(runs)| <= PAGES
    requires Unmapped(t.tables, t.root, VirtualPage(virtStart), |Mappings(runs)|)
    modifies t, pma.inUse
    ensures t.Valid() && TablesInUse(t.tables.Keys, pma.inUse[..], pma.memoryStart)
    ensures r.Mapped? ==>
      && Tiling(regions, VirtualPage(virtStart), VirtualPage(virtStart) + |Mappings(runs)|)
      && Carries(regions, VirtualPage(virtStart), Mappings(runs))
      && SameLeaves(old(t.tables), t.tables, t.root)
  {
    hide PageTable.Valid, Addressable, TablesInUse, Listed, Unmapped, AllUsed, Tiling, RegionOk, RangeTiled, RangeCleared, OnlyUnmapped,
      Carries, SameLeaves, RunsFit;
    ghost var before, v0, m := t.tables, VirtualPage(virtStart), Mappings(runs);
    ghost var listed;
    regions := [];
    r, listed := MapRuns(t, pma, virtStart, runs);
    if !r.Mapped? {
      return;
    }
    ghost var mid := t.tables;
    var pages := PagesOf(runs);
    var ok;
    ok, regions := t.UnmapRange(virtStart, pages);
    RegionsCarry(before, mid, t.root, v0, m, regions);
    ClearedAgain(before, mid, t.tables, t.root, v0, m);
  }

  method PagesOf(runs: seq<PhysicalRun>) returns (n: nat)
    ensures n == |Mappings(runs)|
  {
    n := 0;
    MappingsOfNone(runs);
    for k := 0 to |runs|
      invariant n == |Mappings(runs[..k])|
    {
      MappingsPrefix(runs, k);
      n := n + runs[k].pages;
    }
    assert runs[..|runs|] == runs;
  }
}
