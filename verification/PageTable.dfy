/** `PageTable::map_range` and `PageTable::unmap_range_custom` on tables in memory. */
module PageTable {
  import opened Wrappers
  import opened Addresses
  import opened PhysicalMemory
  import opened PageTableEntries
  import opened PageTableTree

  datatype MapResult =
    | Mapped
    | BadVirtualBase
    | WrongTag
    | NoMemory(error: MemoryError)
    | Panicked

  datatype MappedRegion = MappedRegion(page: nat, basePhysAddr: nat, pageCount: nat)

  /** The page number of a virtual address within the half of the address space its tag selects. */
  function VirtualPage(v: nat): nat { v / 4096 % PAGES }

  predicate TagMatches(high: bool, v: nat) {
    var tag := ToParts(v).tag;
    (high && tag == 0xffff) || (!high && tag == 0)
  }

  /** Page `w` of the range of `n` pages from `v0` maps to the matching frame with options `o`,
      by a leaf that lies inside the range. */
  ghost predicate PageMapped(ts: Tables, root: nat, v0: nat, n: nat, frame: nat, o: Options, w: nat)
    requires v0 <= w < v0 + n
  {
    && Translate(ts, root, w) == Some(Mapping(frame + (w - v0), o))
    && LeafInside(ts, root, v0, v0 + n, w)
  }

  /** Page `w` is mapped by a leaf that lies inside the pages from `lo` to `hi`. */
  ghost predicate LeafInside(ts: Tables, root: nat, lo: nat, hi: nat, w: nat) {
    && LeafAt(ts, root, w).Some?
    && var level := LeafAt(ts, root, w).value.level;
       lo <= w - Within(w, level) && w - Within(w, level) + Span(level) <= hi
  }

  ghost predicate UnderBlock(ts: Tables, root: nat, w: nat) {
    LeafAt(ts, root, w).Some? && LeafAt(ts, root, w).value.level < 3
  }

  ghost predicate RangeMappedAt(before: Tables, ts: Tables, root: nat, v0: nat, n: nat, frame: nat, o: Options,
                                w: nat) {
    if v0 <= w < v0 + n then PageMapped(ts, root, v0, n, frame, o, w) && !UnderBlock(before, root, w)
    else LeafAt(ts, root, w) == LeafAt(before, root, w)
  }

  /** `ts` is `before` with exactly the range mapped; no page of the range was under a block. */
  ghost predicate RangeMapped(before: Tables, ts: Tables, root: nat, v0: nat, n: nat, frame: nat, o: Options) {
    forall w: nat :: w < PAGES ==> RangeMappedAt(before, ts, root, v0, n, frame, o, w)
  }

  /** The pages that hold tables are in use. */
  ghost predicate TablesInUse(keys: set<nat>, bits: seq<bool>, start: nat) {
    forall t :: t in keys ==>
      t >= start && (t - start) % PAGE_SIZE == 0 && (t - start) / PAGE_SIZE < |bits| && bits[(t - start) / PAGE_SIZE]
  }

  /** Going from `bits` to `bits'`, exactly the pages of the new tables became used; they were free. */
  ghost predicate OnlyTablesTaken(bits: seq<bool>, bits': seq<bool>, keys: set<nat>, keys': set<nat>, start: nat) {
    && |bits'| == |bits| && keys <= keys'
    && (forall i :: 0 <= i < |bits| ==> (bits'[i] <==> bits[i] || start + i * PAGE_SIZE in keys' - keys))
    && (forall i :: 0 <= i < |bits| ==> start + i * PAGE_SIZE in keys' - keys ==> !bits[i])
  }

  /** Physical memory is page aligned and below 2^48. */
  ghost predicate Addressable(pma: PhysicalMemoryAllocator)
  {
    pma.memoryStart % PAGE_SIZE == 0 && pma.memoryStart + pma.inUse.Length * PAGE_SIZE <= FRAMES * PAGE_SIZE
  }

  lemma NestedQuotients(v: nat)
    ensures v / 512 / 512 == v / 0x4_0000 && v / 512 / 512 / 512 == v / 0x800_0000
  {
  }

  /** The tag does not show in the indices. */
  lemma IndicesIgnoreTag(tag: nat, v: nat)
    requires v < PAGES
    ensures var p := PageParts(tag * PAGES + v, 0);
            p.l0 == Index(v, 0) && p.l1 == Index(v, 1) && p.l2 == Index(v, 2) && p.l3 == Index(v, 3)
  {
    NestedQuotients(v);
    var a := (tag * PAGES + v) / 512;
    assert a == tag * 0x800_0000 + v / 512;
    var b := a / 512;
    assert b == tag * 0x4_0000 + v / 512 / 512;
    var d := b / 512;
    assert d == tag * 512 + v / 512 / 512 / 512;
  }

  lemma PageOfAddress(virt: nat, k: nat)
    ensures (virt + k * PAGE_SIZE) / 4096 == virt / 4096 / PAGES * PAGES + (VirtualPage(virt) + k)
  {
  }

  /** The parts that `to_parts` computes for page `k` of a range are its table indices. */
  lemma IndexOfParts(virt: nat, k: nat)
    requires VirtualPage(virt) + k < PAGES
    ensures var p := ToParts(virt + k * PAGE_SIZE);
            var v := VirtualPage(virt) + k;
            p.l0 == Index(v, 0) && p.l1 == Index(v, 1) && p.l2 == Index(v, 2) && p.l3 == Index(v, 3)
  {
    hide ToParts, Index, VirtualPage;
    ToPartsIsDivMod(virt + k * PAGE_SIZE);
    PageOfAddress(virt, k);
    IndicesIgnoreTag(virt / 4096 / PAGES, VirtualPage(virt) + k);
  }

  // ---- Steps of the mapping loop ----

  /** What a page looks like before and after a leaf is written at the end of the walk for `v`. */
  lemma LeafWritten(ts: Tables, root: nat, pl: Places, v: nat, level: nat, a: nat, e: Entry, w: nat)
    requires WellFormed(ts, root, pl) && EndsAt(ts, root, pl, v, level, a) && pl[a].Covers(v)
    requires Within(v, level) == 0 && w < PAGES
    requires LeafOrInvalid(e, level) && e.BaseAddress(level).Some?
    requires !ts[a][Index(v, level)].valid || level == 3
    ensures var ts' := WithEntry(ts, a, Index(v, level), e);
            if v <= w < v + Span(level)
            then LeafAt(ts', root, w) == Some(Leaf(level, e)) && Within(w, level) == w - v && !UnderBlock(ts, root, w)
            else LeafAt(ts', root, w) == LeafAt(ts, root, w)
  {
    CoversIndex(pl[a], v);
    SetEntryLeaf(ts, root, pl, v, level, a, e, w);
    if pl[a].Under(Index(v, level), w) {
      UnderIndex(pl[a], w, Index(v, level));
      StopShared(ts, root, pl, root, v, w);
    }
  }

  lemma ExtendRange(before: Tables, ts: Tables, ts': Tables, root: nat, v0: nat, k: nat, n: nat, frame: nat, o: Options,
                    level: nat, e: Entry, w: nat)
    requires RangeMappedAt(before, ts, root, v0, k, frame, o, w) && n == k + Span(level)
    requires if v0 + k <= w < v0 + n
             then LeafAt(ts', root, w) == Some(Leaf(level, e)) && Within(w, level) == w - (v0 + k) && !UnderBlock(ts, root, w)
             else LeafAt(ts', root, w) == LeafAt(ts, root, w)
    requires e.address == frame + k && e.OptionsOf() == o
    ensures RangeMappedAt(before, ts', root, v0, n, frame, o, w)
  {
  }

  /** Writing a leaf for the next pages of the range extends the mapped prefix by its span. */
  lemma MapLeaf(before: Tables, ts: Tables, root: nat, pl: Places, v0: nat, k: nat, frame: nat, o: Options,
                level: nat, a: nat, e: Entry, n: nat)
    requires WellFormed(ts, root, pl) && RangeMapped(before, ts, root, v0, k, frame, o)
    requires EndsAt(ts, root, pl, v0 + k, level, a) && pl[a].Covers(v0 + k) && Within(v0 + k, level) == 0
    requires LeafOrInvalid(e, level) && e.BaseAddress(level).Some?
    requires e.address == frame + k && e.OptionsOf() == o
    requires !ts[a][Index(v0 + k, level)].valid || level == 3
    requires n == k + Span(level)
    ensures RangeMapped(before, WithEntry(ts, a, Index(v0 + k, level), e), root, v0, n, frame, o)
  {
    var ts' := WithEntry(ts, a, Index(v0 + k, level), e);
    forall w: nat | w < PAGES ensures RangeMappedAt(before, ts', root, v0, n, frame, o, w) {
      LeafWritten(ts, root, pl, v0 + k, level, a, e, w);
      ExtendRange(before, ts, ts', root, v0, k, n, frame, o, level, e, w);
    }
  }

  /** A walk that has reached table `t` can be continued from there. */
  ghost predicate OnPath(ts: Tables, root: nat, pl: Places, v: nat, level: nat, t: nat) {
    && v < PAGES && t in pl && pl[t].level == level && pl[t].Covers(v)
    && Stop(ts, root, 0, v) == Stop(ts, t, level, v)
  }

  lemma PathStarts(ts: Tables, root: nat, pl: Places, v: nat)
    requires WellFormed(ts, root, pl) && v < PAGES
    ensures OnPath(ts, root, pl, v, 0, root)
  {
  }

  lemma PathEnds(ts: Tables, root: nat, pl: Places, v: nat, level: nat, t: nat)
    requires OnPath(ts, root, pl, v, level, t) && t in ts && ts[t][Index(v, level)].TableRef(level).None?
    ensures EndsAt(ts, root, pl, v, level, t)
  {
  }

  lemma FollowTable(ts: Tables, root: nat, pl: Places, v: nat, level: nat, t: nat)
    requires WellFormed(ts, root, pl) && OnPath(ts, root, pl, v, level, t) && level < 3
    requires ts[t][Index(v, level)].TableRef(level).Some?
    ensures OnPath(ts, root, pl, v, level + 1, ts[t][Index(v, level)].TableRef(level).value)
  {
    assert EntryOk(ts, pl, pl[t], Index(v, level), ts[t][Index(v, level)]);
    CoversIndex(pl[t], v);
    Child(pl[t], Index(v, level));
  }

  /** A table is on the walk of every page it covers. */
  lemma {:induction false} TableOnPath(ts: Tables, root: nat, pl: Places, a: nat, w: nat)
    requires WellFormed(ts, root, pl) && a in pl && pl[a].Covers(w)
    ensures OnPath(ts, root, pl, w, pl[a].level, a)
    decreases pl[a].level
  {
    hide Stop;
    if pl[a].level == 0 {
      assert a == root;
      PathStarts(ts, root, pl, w);
    } else {
      assert Hangs(ts, pl, a);
      var p :| HangsUnder(ts, pl, a, p);
      var i := Index(pl[a].base, pl[p].level);
      assert EntryOk(ts, pl, pl[p], i, ts[p][i]);
      Child(pl[p], i);
      assert pl[p].Under(i, w);
      UnderIndex(pl[p], w, i);
      TableOnPath(ts, root, pl, p, w);
      FollowTable(ts, root, pl, w, pl[p].level, p);
    }
  }

  lemma LinkTablePath(ts: Tables, root: nat, pl: Places, v: nat, level: nat, a: nat, e: Entry, b: nat)
    requires WellFormed(ts, root, pl) && EndsAt(ts, root, pl, v, level, a) && pl[a].Covers(v)
    requires Links(ts, pl, a, Index(v, level), e, b)
    ensures OnPath(WithTable(ts, a, Index(v, level), e, b), root, WithPlace(pl, a, Index(v, level), b), v, level + 1, b)
  {
    var i := Index(v, level);
    CoversIndex(pl[a], v);
    AddTableUnder(ts, root, pl, v, level, a, e, b, v);
    Child(pl[a], i);
    EmptyStop(WithTable(ts, a, i, e, b), b, level + 1, v);
  }

  /** Linking an empty table below an invalid entry keeps the mapped prefix. */
  lemma LinkTableRange(before: Tables, ts: Tables, root: nat, pl: Places, v0: nat, k: nat, frame: nat, o: Options,
                       v: nat, level: nat, a: nat, e: Entry, b: nat)
    requires WellFormed(ts, root, pl) && RangeMapped(before, ts, root, v0, k, frame, o)
    requires EndsAt(ts, root, pl, v, level, a) && Links(ts, pl, a, Index(v, level), e, b)
    requires !ts[a][Index(v, level)].valid
    ensures RangeMapped(before, WithTable(ts, a, Index(v, level), e, b), root, v0, k, frame, o)
  {
    hide EntryOk, PlacesOk, Stop;
    forall w: nat | w < PAGES
      ensures RangeMappedAt(before, WithTable(ts, a, Index(v, level), e, b), root, v0, k, frame, o, w)
    {
      AddTableLeaf(ts, root, pl, v, level, a, e, b, w);
      assert RangeMappedAt(before, ts, root, v0, k, frame, o, w);
    }
  }

  // ---- Bookkeeping of table pages ----

  /** The table at this place covers one of the `n` pages from `lo`. */
  predicate Touches(p: Place, lo: nat, n: nat) { n > 0 && p.base < lo + n && lo < p.base + Offset(512, p.level) }

  /** Going from `pl` to `pl'`, only tables below the root were added that cover pages of the range. */
  ghost predicate PlacesGrow(pl: Places, pl': Places, lo: nat, n: nat) {
    && (forall t :: t in pl ==> t in pl' && pl'[t] == pl[t])
    && (forall t :: t in pl' && t !in pl ==> pl'[t].level > 0 && Touches(pl'[t], lo, n))
  }

  /** A table that the walk of a page of the range needs does not exist. */
  ghost predicate TableMissing(pl: Places, lo: nat, n: nat) {
    exists p: Place :: p.Valid() && p.level > 0 && Touches(p, lo, n) && p !in pl.Values
  }

  lemma GrowNothing(pl: Places, lo: nat, n: nat)
    ensures PlacesGrow(pl, pl, lo, n)
  {
  }

  lemma GrowMore(pl: Places, pl': Places, pl'': Places, lo: nat, n: nat, v: nat, m: nat)
    requires PlacesGrow(pl, pl', lo, n) && PlacesGrow(pl', pl'', v, m) && lo <= v && v + m <= lo + n
    ensures PlacesGrow(pl, pl'', lo, n)
  {
  }

  lemma GrowOne(pl: Places, a: nat, i: nat, b: nat, v: nat)
    requires a in pl && b !in pl && WithPlace(pl, a, i, b)[b].Covers(v) && WithPlace(pl, a, i, b)[b].level > 0
    ensures PlacesGrow(pl, WithPlace(pl, a, i, b), v, 1)
  {
  }

  lemma MissingMore(pl: Places, lo: nat, n: nat, v: nat, m: nat)
    requires TableMissing(pl, v, m) && lo <= v && v + m <= lo + n
    ensures TableMissing(pl, lo, n)
  {
    var p: Place :| p.Valid() && p.level > 0 && Touches(p, v, m) && p !in pl.Values;
    assert Touches(p, lo, n);
  }

  /** Where a walk ends at an invalid entry, the table below it does not exist. */
  lemma EntryMissing(ts: Tables, root: nat, pl: Places, v: nat, level: nat, a: nat)
    requires WellFormed(ts, root, pl) && OnPath(ts, root, pl, v, level, a) && level < 3
    requires !ts[a][Index(v, level)].valid
    ensures TableMissing(pl, v, 1)
  {
    hide WellFormed;
    WellFormedMeans(ts, root, pl, a);
    var i := Index(v, level);
    var p := Place(level + 1, pl[a].base + Offset(i, level));
    CoversIndex(pl[a], v);
    Child(pl[a], i);
    if p in pl.Values {
      var b :| b in pl && pl[b] == p;
      TableOnPath(ts, root, pl, b, v);
      PathEnds(ts, root, pl, v, level, a);
      StopLevel(ts, b, level + 1, v);
    }
    assert p !in pl.Values && Touches(p, v, 1);
  }

  lemma WellFormedMeans(ts: Tables, root: nat, pl: Places, a: nat)
    requires WellFormed(ts, root, pl) && a in pl
    ensures a in ts && pl[a].Valid()
  {
  }

  lemma {:induction false} StopLevel(ts: Tables, t: nat, level: nat, v: nat)
    ensures Stop(ts, t, level, v).0 >= level
    decreases 3 - level
  {
    if level < 3 && t in ts && ts[t][Index(v, level)].TableRef(level).Some? {
      StopLevel(ts, ts[t][Index(v, level)].TableRef(level).value, level + 1, v);
    }
  }

  lemma TableTaken(bits0: seq<bool>, keys0: set<nat>, bits: seq<bool>, keys: set<nat>, start: nat, j: nat)
    requires OnlyTablesTaken(bits0, bits, keys0, keys, start) && TablesInUse(keys, bits, start)
    requires j < |bits| && !bits[j]
    ensures var b := start + j * PAGE_SIZE;
            && b !in keys
            && OnlyTablesTaken(bits0, bits[j := true], keys0, keys + {b}, start)
            && TablesInUse(keys + {b}, bits[j := true], start)
  {
    var b := start + j * PAGE_SIZE;
    assert (b - start) / PAGE_SIZE == j;
  }

  lemma AlignedStart(v: nat, level: nat)
    requires level == 3 || (level == 2 && Index(v, 3) == 0) || (level == 1 && Index(v, 2) == 0 && Index(v, 3) == 0)
    ensures Within(v, level) == 0
  {
    if level == 1 {
      assert v / 512 % 512 == 0 && v % 512 == 0;
    }
  }

  /** The leaf that the code writes for page `k` of a range. */
  lemma LeafEntry(phyStart: nat, k: nat, o: Options, level: nat)
    requires 1 <= level <= 3 && phyStart / PAGE_SIZE + k < FRAMES
    requires level < 3 ==> BlockEntry(phyStart + k * PAGE_SIZE, level).Some?
    ensures var e := Apply(o, if level == 3 then PageEntry(phyStart + k * PAGE_SIZE)
                              else BlockEntry(phyStart + k * PAGE_SIZE, level).value);
            && e.address == phyStart / PAGE_SIZE + k && e.OptionsOf() == o
            && LeafOrInvalid(e, level) && e.BaseAddress(level).Some?
  {
    assert (phyStart + k * PAGE_SIZE) / 0x1000 == phyStart / PAGE_SIZE + k;
  }

  /** What a mapping call starts from and is asked to do. */
  datatype Goal = Goal(before: Tables, bits: seq<bool>, v0: nat, frame: nat, options: Options)

  /** The first `k` pages of the goal are mapped, and only table pages were taken. */
  ghost predicate Progress(ts: Tables, root: nat, pl: Places, bits: seq<bool>, start: nat, g: Goal, k: nat) {
    && WellFormed(ts, root, pl)
    && TablesInUse(ts.Keys, bits, start)
    && OnlyTablesTaken(g.bits, bits, g.before.Keys, ts.Keys, start)
    && RangeMapped(g.before, ts, root, g.v0, k, g.frame, g.options)
  }

  lemma AddTableProgress(ts: Tables, root: nat, pl: Places, bits: seq<bool>, start: nat, g: Goal, k: nat,
                         v: nat, level: nat, a: nat, j: nat)
    requires Progress(ts, root, pl, bits, start, g, k)
    requires OnPath(ts, root, pl, v, level, a) && level < 3 && !ts[a][Index(v, level)].valid
    requires j < |bits| && !bits[j] && start % PAGE_SIZE == 0 && start + j * PAGE_SIZE < FRAMES * PAGE_SIZE
    ensures var b := start + j * PAGE_SIZE;
            var i := Index(v, level);
            var ts', pl' := WithTable(ts, a, i, TableDesc(b), b), WithPlace(pl, a, i, b);
            && Progress(ts', root, pl', bits[j := true], start, g, k) && OnPath(ts', root, pl', v, level + 1, b)
            && b !in pl
  {
    hide Index, Stop, Translate, LeafAt, RangeMappedAt, RangeMapped, EntryOk, PlacesOk, TablesInUse, OnlyTablesTaken;
    var b := start + j * PAGE_SIZE;
    var i := Index(v, level);
    var e := TableDesc(b);
    TableTaken(g.bits, g.before.Keys, bits, ts.Keys, start, j);
    TableDescDecodes(b, level);
    TableDescDecodes(b, 0);
    PathEnds(ts, root, pl, v, level, a);
    AddTableWellFormed(ts, root, pl, a, i, e, b);
    LinkTableRange(g.before, ts, root, pl, g.v0, k, g.frame, g.options, v, level, a, e, b);
    LinkTablePath(ts, root, pl, v, level, a, e, b);
    assert WithTable(ts, a, i, e, b).Keys == ts.Keys + {b};
  }

  /** Writing the leaf for the next pages. */
  lemma MapLeafProgress(ts: Tables, root: nat, pl: Places, bits: seq<bool>, start: nat, g: Goal, k: nat,
                        level: nat, a: nat, e: Entry, n: nat)
    requires Progress(ts, root, pl, bits, start, g, k)
    requires OnPath(ts, root, pl, g.v0 + k, level, a) && Within(g.v0 + k, level) == 0
    requires ts[a][Index(g.v0 + k, level)].TableRef(level).None?
    requires !ts[a][Index(g.v0 + k, level)].valid || level == 3
    requires LeafOrInvalid(e, level) && e.BaseAddress(level).Some?
    requires e.address == g.frame + k && e.OptionsOf() == g.options
    requires n == k + Span(level)
    ensures Progress(WithEntry(ts, a, Index(g.v0 + k, level), e), root, pl, bits, start, g, n)
  {
    hide Stop, RangeMapped, EntryOk, PlacesOk, TablesInUse, OnlyTablesTaken;
    var i := Index(g.v0 + k, level);
    PathEnds(ts, root, pl, g.v0 + k, level, a);
    MapLeaf(g.before, ts, root, pl, g.v0, k, g.frame, g.options, level, a, e, n);
    SetEntryWellFormed(ts, root, pl, a, i, e);
    assert WithEntry(ts, a, i, e).Keys == ts.Keys;
  }

  /** The assertion that fails when the walk ends at a valid entry that is no table. */
  lemma BlockInTheWay(ts: Tables, root: nat, pl: Places, bits: seq<bool>, start: nat, g: Goal, k: nat,
                      level: nat, a: nat)
    requires Progress(ts, root, pl, bits, start, g, k)
    requires OnPath(ts, root, pl, g.v0 + k, level, a) && level < 3
    requires ts[a][Index(g.v0 + k, level)].TableRef(level).None? && ts[a][Index(g.v0 + k, level)].valid
    ensures UnderBlock(g.before, root, g.v0 + k)
  {
    assert RangeMappedAt(g.before, ts, root, g.v0, k, g.frame, g.options, g.v0 + k);
  }

  // ---- Steps of the unmapping loop ----

  /** All pages under one leaf have that leaf, and it starts at the same page for all of them. */
  lemma LeafShared(ts: Tables, root: nat, pl: Places, w: nat, x: nat)
    requires WellFormed(ts, root, pl) && w < PAGES && LeafAt(ts, root, w).Some?
    requires var level := LeafAt(ts, root, w).value.level;
             w - Within(w, level) <= x < w - Within(w, level) + Span(level)
    ensures x < PAGES && LeafAt(ts, root, x) == LeafAt(ts, root, w)
    ensures var level := LeafAt(ts, root, w).value.level; x - Within(x, level) == w - Within(w, level)
  {
    StopCovers(ts, root, pl, root, w);
    var (level, a) := Stop(ts, root, 0, w);
    CoversIndex(pl[a], w);
    StopShared(ts, root, pl, root, w, x);
    UnderIndex(pl[a], x, Index(w, level));
  }

  /** Every page from `lo` to `hi` is mapped, and no leaf sticks out of that range. */
  ghost predicate RangeTiled(ts: Tables, root: nat, lo: nat, hi: nat) {
    forall w: nat :: lo <= w < hi ==> LeafInside(ts, root, lo, hi, w)
  }

  /** Mapping the pages behind a tiled range tiles the longer range, whatever they are mapped to. */
  lemma TiledExtends(before: Tables, ts: Tables, root: nat, lo: nat, mid: nat, n: nat, frame: nat, o: Options)
    requires RangeTiled(before, root, lo, mid) && lo <= mid && mid + n <= PAGES
    requires RangeMapped(before, ts, root, mid, n, frame, o)
    ensures RangeTiled(ts, root, lo, mid + n)
  {
    hide LeafAt, Translate;
    var hi := mid + n;
    forall w: nat | lo <= w < hi ensures LeafInside(ts, root, lo, hi, w) {
      assert RangeMappedAt(before, ts, root, mid, n, frame, o, w);
      if w < mid { assert LeafInside(before, root, lo, mid, w); }
    }
  }

  /** `ts` is `before` without the mapping of the pages from `lo` to `hi`. */
  ghost predicate RangeCleared(before: Tables, ts: Tables, root: nat, lo: nat, hi: nat) {
    forall w: nat :: w < PAGES ==> LeafAt(ts, root, w) == if lo <= w < hi then None else LeafAt(before, root, w)
  }

  /** Every page has the leaf it had. */
  ghost predicate SameLeaves(before: Tables, ts: Tables, root: nat) {
    forall w: nat :: w < PAGES ==> LeafAt(ts, root, w) == LeafAt(before, root, w)
  }

  /** Nothing is mapped that was not mapped the same way before. */
  ghost predicate OnlyUnmapped(before: Tables, ts: Tables, root: nat) {
    forall w: nat :: w < PAGES ==> LeafAt(ts, root, w) == None || LeafAt(ts, root, w) == LeafAt(before, root, w)
  }

  /** The regions follow each other from page `lo` to page `hi` without gap or overlap. */
  ghost predicate Tiling(regions: seq<MappedRegion>, lo: nat, hi: nat) {
    if regions == [] then lo == hi
    else
      var last := regions[|regions| - 1];
      last.pageCount > 0 && last.page + last.pageCount == hi && Tiling(regions[..|regions| - 1], lo, last.page)
  }

  lemma {:induction false} TilingOrdered(regions: seq<MappedRegion>, lo: nat, hi: nat)
    requires Tiling(regions, lo, hi)
    ensures lo <= hi
    decreases |regions|
  {
    if regions != [] { TilingOrdered(regions[..|regions| - 1], lo, regions[|regions| - 1].page); }
  }

  lemma {:induction false} RegionInside(regions: seq<MappedRegion>, lo: nat, hi: nat, q: nat)
    requires Tiling(regions, lo, hi) && q < |regions|
    ensures lo <= regions[q].page && regions[q].pageCount > 0 && regions[q].page + regions[q].pageCount <= hi
    decreases |regions|
  {
    var n := |regions| - 1;
    TilingOrdered(regions[..n], lo, regions[n].page);
    if q < n { RegionInside(regions[..n], lo, regions[n].page, q); }
  }

  /** A region is what the translation says: its pages map to its frames in order. */
  ghost predicate RegionOk(ts: Tables, root: nat, r: MappedRegion) {
    && r.basePhysAddr % PAGE_SIZE == 0
    && forall w: nat :: r.page <= w < r.page + r.pageCount ==>
      && Translate(ts, root, w).Some?
      && Translate(ts, root, w).value.frame == r.basePhysAddr / PAGE_SIZE + (w - r.page)
  }

  lemma TiledSuffixAt(ts: Tables, root: nat, pl: Places, v: nat, hi: nat, next: nat, w: nat)
    requires WellFormed(ts, root, pl) && hi <= PAGES && v < next <= w < hi
    requires LeafInside(ts, root, v, hi, v) && LeafInside(ts, root, v, hi, w)
    requires next == v + Span(LeafAt(ts, root, v).value.level)
    ensures LeafInside(ts, root, next, hi, w)
  {
    var x := w - Within(w, LeafAt(ts, root, w).value.level);
    LeafShared(ts, root, pl, w, x);
    if x < next { LeafShared(ts, root, pl, v, x); }
  }

  /** The leaves of a tiled range are tiled from the end of the first leaf on. */
  lemma TiledSuffix(ts: Tables, root: nat, pl: Places, v: nat, hi: nat, next: nat)
    requires WellFormed(ts, root, pl) && RangeTiled(ts, root, v, hi) && v < hi <= PAGES
    requires LeafInside(ts, root, v, hi, v) && next == v + Span(LeafAt(ts, root, v).value.level)
    ensures Within(v, LeafAt(ts, root, v).value.level) == 0 && next <= hi
    ensures RangeTiled(ts, root, next, hi)
  {
    hide EntryOk, PlacesOk;
    forall w: nat | next <= w < hi ensures LeafInside(ts, root, next, hi, w) {
      TiledSuffixAt(ts, root, pl, v, hi, next, w);
    }
  }

  lemma LeafRegion(ts: Tables, root: nat, pl: Places, v: nat)
    requires WellFormed(ts, root, pl) && v < PAGES && LeafAt(ts, root, v).Some?
    requires Within(v, LeafAt(ts, root, v).value.level) == 0
    ensures var leaf := LeafAt(ts, root, v).value;
            RegionOk(ts, root, MappedRegion(v, leaf.entry.address * 0x1000, Span(leaf.level)))
  {
    hide EntryOk, PlacesOk, LeafAt;
    var leaf := LeafAt(ts, root, v).value;
    forall w: nat | v <= w < v + Span(leaf.level)
      ensures Translate(ts, root, w).Some? && Translate(ts, root, w).value.frame == leaf.entry.address + (w - v)
    {
      LeafShared(ts, root, pl, v, w);
    }
  }

  /** Clearing the entry where a walk ends only unmaps. */
  lemma ClearOnlyUnmaps(before: Tables, ts: Tables, root: nat, pl: Places, v: nat, level: nat, a: nat)
    requires WellFormed(ts, root, pl) && EndsAt(ts, root, pl, v, level, a) && OnlyUnmapped(before, ts, root)
    ensures OnlyUnmapped(before, WithEntry(ts, a, Index(v, level), INVALID), root)
  {
    var ts' := WithEntry(ts, a, Index(v, level), INVALID);
    forall w: nat | w < PAGES ensures LeafAt(ts', root, w) == None || LeafAt(ts', root, w) == LeafAt(before, root, w) {
      SetEntryLeaf(ts, root, pl, v, level, a, INVALID, w);
    }
  }

  /** What a page looks like after the entry at the end of the walk for `v` is cleared. */
  lemma LeafCleared(ts: Tables, root: nat, pl: Places, v: nat, level: nat, a: nat, w: nat)
    requires WellFormed(ts, root, pl) && EndsAt(ts, root, pl, v, level, a)
    requires Within(v, level) == 0 && w < PAGES
    ensures LeafAt(WithEntry(ts, a, Index(v, level), INVALID), root, w)
            == if v <= w < v + Span(level) then None else LeafAt(ts, root, w)
  {
    StopCovers(ts, root, pl, root, v);
    CoversIndex(pl[a], v);
    SetEntryLeaf(ts, root, pl, v, level, a, INVALID, w);
  }

  lemma ClearLeaf(before: Tables, ts: Tables, root: nat, pl: Places, lo: nat, v: nat, level: nat, a: nat, next: nat)
    requires WellFormed(ts, root, pl) && RangeCleared(before, ts, root, lo, v) && lo <= v
    requires EndsAt(ts, root, pl, v, level, a) && Within(v, level) == 0 && next == v + Span(level)
    ensures RangeCleared(before, WithEntry(ts, a, Index(v, level), INVALID), root, lo, next)
  {
    hide EntryOk, PlacesOk, LeafAt;
    var ts' := WithEntry(ts, a, Index(v, level), INVALID);
    forall w: nat | w < PAGES ensures LeafAt(ts', root, w) == if lo <= w < next then None else LeafAt(before, root, w) {
      LeafCleared(ts, root, pl, v, level, a, w);
    }
  }

  /** In a tiled rest of the range, the walk for the next page ends at the leaf that starts there. */
  lemma NextLeaf(before: Tables, ts: Tables, root: nat, pl: Places, lo: nat, v: nat, hi: nat, level: nat, a: nat)
    requires WellFormed(ts, root, pl) && RangeCleared(before, ts, root, lo, v)
    requires RangeTiled(before, root, v, hi) && v < hi <= PAGES && EndsAt(ts, root, pl, v, level, a)
    ensures LeafInside(before, root, v, hi, v) && level > 0
    ensures LeafAt(before, root, v) == Some(Leaf(level, ts[a][Index(v, level)]))
  {
    assert LeafInside(before, root, v, hi, v);
    assert LeafAt(ts, root, v) == LeafAt(before, root, v);
    assert EntryOk(ts, pl, pl[a], Index(v, level), ts[a][Index(v, level)]);
  }

  /** How far an unmapping call has come, if the range was tiled to begin with. */
  ghost predicate Unmapping(before: Tables, ts: Tables, root: nat, lo: nat, v: nat, hi: nat,
                            regions: seq<MappedRegion>) {
    RangeTiled(before, root, lo, hi) ==>
      && lo <= v <= hi
      && RangeCleared(before, ts, root, lo, v) && RangeTiled(before, root, v, hi)
      && Tiling(regions, lo, v)
      && forall i :: 0 <= i < |regions| ==> RegionOk(before, root, regions[i])
  }

  /** One round of the loop on a tiled range clears one leaf and reports it. */
  lemma UnmapLeaf(before: Tables, ts: Tables, root: nat, pl: Places, lo: nat, v: nat, hi: nat,
                  regions: seq<MappedRegion>,
                  level: nat, a: nat, next: nat)
    requires WellFormed(before, root, pl) && WellFormed(ts, root, pl) && hi <= PAGES && v < hi
    requires Unmapping(before, ts, root, lo, v, hi, regions) && RangeTiled(before, root, lo, hi)
    requires EndsAt(ts, root, pl, v, level, a) && next == v + Span(level)
    ensures level > 0 && ts[a][Index(v, level)].BaseAddress(level).Some?
    ensures Unmapping(before, WithEntry(ts, a, Index(v, level), INVALID), root, lo, next, hi,
                      regions + [MappedRegion(v, ts[a][Index(v, level)].address * 0x1000, Span(level))])
  {
    hide EntryOk, PlacesOk, RangeCleared, RangeTiled, Stop, Index, Translate, RegionOk;
    NextLeaf(before, ts, root, pl, lo, v, hi, level, a);
    TiledSuffix(before, root, pl, v, hi, next);
    LeafRegion(before, root, pl, v);
    ClearLeaf(before, ts, root, pl, lo, v, level, a, next);
    var r := MappedRegion(v, ts[a][Index(v, level)].address * 0x1000, Span(level));
    assert (regions + [r])[..|regions|] == regions;
  }

  lemma UnmapStarts(before: Tables, root: nat, lo: nat, hi: nat)
    requires lo <= hi
    ensures Unmapping(before, before, root, lo, lo, hi, []) && OnlyUnmapped(before, before, root)
  {
  }

  lemma UnmapEnds(before: Tables, ts: Tables, root: nat, lo: nat, v: nat, hi: nat, regions: seq<MappedRegion>)
    requires Unmapping(before, ts, root, lo, v, hi, regions) && hi <= v
    ensures RangeTiled(before, root, lo, hi) ==>
      && RangeCleared(before, ts, root, lo, hi) && Tiling(regions, lo, hi)
      && forall i :: 0 <= i < |regions| ==> RegionOk(before, root, regions[i])
  {
  }

  class PageTable {
    /** True if the table maps addresses tagged `0xffff`, false for tag zero. */
    const high: bool
    const root: nat
    /** The pages that hold the tables of this tree, by physical address. */
    var tables: Tables
    ghost var places: Places

    ghost predicate Valid()
      reads this
    {
      WellFormed(tables, root, places)
    }

    /** `PageTable::empty`, given the page that `allocate_table` provided for the root. */
    constructor Empty(high: bool, root: nat)
      ensures Valid() && this.high == high && this.root == root && tables.Keys == {root}
      ensures forall w: nat :: LeafAt(tables, root, w).None?
    {
      this.high := high;
      this.root := root;
      tables := map[root := EmptyTable()];
      places := map[root := Place(0, 0)];
      new;
      forall w: nat ensures LeafAt(tables, root, w).None? {
        EmptyStop(tables, root, 0, w);
      }
    }

    /** `allocate_table`, linked below the invalid entry where the walk for page `v` ends. */
    method AddTable(pma: PhysicalMemoryAllocator, level: nat, table: nat, i: nat, ghost g: Goal, ghost k: nat,
                    ghost v: nat)
      returns (r: Allocated<nat>)
      requires Addressable(pma) && Progress(tables, root, places, pma.inUse[..], pma.memoryStart, g, k)
      requires level < 3 && OnPath(tables, root, places, v, level, table) && i == Index(v, level)
      requires !tables[table][i].valid
      modifies this, pma.inUse
      ensures Progress(tables, root, places, pma.inUse[..], pma.memoryStart, g, k)
      ensures r.Granted? ==> OnPath(tables, root, places, v, level + 1, r.value)
      ensures r.Refused? ==> AllUsed(pma.inUse[..]) && TableMissing(places, v, 1)
      ensures PlacesGrow(old(places), places, v, 1)
    {
      hide Index, Stop, RangeMapped, EntryOk, PlacesOk, TablesInUse, OnlyTablesTaken, PlacesGrow, TableMissing;
      GrowNothing(places, v, 1);
      ghost var j;
      r, j := pma.AllocContig(1);
      if r.Granted? {
        assert pma.inUse[..] == old(pma.inUse[..])[j := true];
        AddTableProgress(tables, root, places, old(pma.inUse[..]), pma.memoryStart, g, k, v, level, table, j);
        var b := r.value;
        tables := tables[table := tables[table][i := TableDesc(b)]][b := EmptyTable()];
        GrowOne(places, table, i, b, v);
        places := WithPlace(places, table, i, b);
      } else {
        NoFreePage(pma.inUse[..]);
        EntryMissing(tables, root, places, v, level, table);
      }
    }

    /** One round of the mapping loop: walks down to the entry for the next page, adding tables
        on the way, and writes the largest leaf that fits. */
    method MapNext(pma: PhysicalMemoryAllocator, phyStart: nat, virtStart: nat, pageIndex: nat, pageCount: nat,
                   options: Options, ghost g: Goal)
      returns (r: MapResult, mapped: nat)
      requires Addressable(pma) && Progress(tables, root, places, pma.inUse[..], pma.memoryStart, g, pageIndex)
      requires pageIndex < pageCount
      requires phyStart / PAGE_SIZE + pageCount <= FRAMES && VirtualPage(virtStart) + pageCount <= PAGES
      requires g.v0 == VirtualPage(virtStart) && g.frame == phyStart / PAGE_SIZE && g.options == options
      modifies this, pma.inUse
      ensures r.Mapped? || r.NoMemory? || r.Panicked?
      ensures if r.Mapped? then 1 <= mapped <= pageCount - pageIndex else mapped == 0
      ensures r.Panicked? ==> UnderBlock(g.before, root, g.v0 + pageIndex)
      ensures r.NoMemory? ==> AllUsed(pma.inUse[..]) && TableMissing(places, g.v0 + pageIndex, 1)
      ensures PlacesGrow(old(places), places, g.v0 + pageIndex, 1)
      ensures Progress(tables, root, places, pma.inUse[..], pma.memoryStart, g, pageIndex + mapped)
    {
      hide ToParts, Index, Stop, RangeMapped, EntryOk, PlacesOk, TablesInUse, OnlyTablesTaken, BlockEntry, PageEntry, Within,
        AllUsed, PlacesGrow, TableMissing;
      GrowNothing(places, g.v0 + pageIndex, 1);
      var parts := ToParts(virtStart + pageIndex * PAGE_SIZE);
      ghost var v := g.v0 + pageIndex;
      IndexOfParts(virtStart, pageIndex);
      PathStarts(tables, root, places, v);
      var table := root;
      var level := 0;
      while level < 3
        invariant 0 <= level <= 3
        invariant OnPath(tables, root, places, v, level, table)
        invariant Progress(tables, root, places, pma.inUse[..], pma.memoryStart, g, pageIndex)
        invariant PlacesGrow(old(places), places, v, 1)
      {
        var i := if level == 0 then parts.l0 else if level == 1 then parts.l1 else parts.l2;
        var canBlock := if level == 0 then false else if level == 1 then parts.l2 == 0 && parts.l3 == 0 else parts.l3 == 0;
        var blockSize := if level == 0 then 0 else if level == 1 then 512 * 512 else 512;
        var entry := tables[table][i];
        var next := entry.TableRef(level);
        if next.Some? {
          FollowTable(tables, root, places, v, level, table);
          table := next.value;
        } else {
          if entry.valid {
            BlockInTheWay(tables, root, places, pma.inUse[..], pma.memoryStart, g, pageIndex, level, table);
            return Panicked, 0;
          }
          if canBlock && pageCount - pageIndex >= blockSize {
            var e := BlockEntry(phyStart + pageIndex * PAGE_SIZE, level);
            if e.Some? {
              var leaf := Apply(options, e.value);
              AlignedStart(v, level);
              LeafEntry(phyStart, pageIndex, options, level);
              MapLeafProgress(tables, root, places, pma.inUse[..], pma.memoryStart, g, pageIndex, level, table, leaf, pageIndex + blockSize);
              tables := tables[table := tables[table][i := leaf]];
              return Mapped, blockSize;
            }
          }
          ghost var pl := places;
          var added := AddTable(pma, level, table, i, g, pageIndex, v);
          GrowMore(old(places), pl, places, v, 1, v, 1);
          if added.Refused? {
            return NoMemory(added.error), 0;
          }
          table := added.value;
        }
        level := level + 1;
      }
      var leaf := Apply(options, PageEntry(phyStart + pageIndex * PAGE_SIZE));
      AlignedStart(v, 3);
      LeafEntry(phyStart, pageIndex, options, 3);
      MapLeafProgress(tables, root, places, pma.inUse[..], pma.memoryStart, g, pageIndex, 3, table, leaf, pageIndex + 1);
      tables := tables[table := tables[table][parts.l3 := leaf]];
      return Mapped, 1;
    }

    /** Maps a virtual range to physical memory. On success exactly the range is mapped, page by
        page, and no page of it lay under a block; a block in the range is what makes the call
        panic; if physical memory runs out, a prefix of the range is mapped. */
    method MapRange(pma: PhysicalMemoryAllocator, phyStart: nat, virtStart: nat, pageCount: nat,
                    overwrite: bool, options: Options)
      returns (r: MapResult, ghost done: nat)
      requires Valid() && Addressable(pma) && TablesInUse(tables.Keys, pma.inUse[..], pma.memoryStart)
      requires phyStart / PAGE_SIZE + pageCount <= FRAMES && VirtualPage(virtStart) + pageCount <= PAGES
      modifies this, pma.inUse
      ensures Valid() && TablesInUse(tables.Keys, pma.inUse[..], pma.memoryStart)
      ensures OnlyTablesTaken(old(pma.inUse[..]), pma.inUse[..], old(tables.Keys), tables.Keys, pma.memoryStart)
      ensures r.BadVirtualBase? <==> ToParts(virtStart).offset != 0
      ensures r.WrongTag? <==> ToParts(virtStart).offset == 0 && !TagMatches(high, virtStart)
      ensures r.BadVirtualBase? || r.WrongTag? ==> tables == old(tables) && pma.inUse[..] == old(pma.inUse[..])
      ensures done <= pageCount && (r.Mapped? ==> done == pageCount)
      ensures RangeMapped(old(tables), tables, root, VirtualPage(virtStart), done, phyStart / PAGE_SIZE, options)
      ensures r.Panicked? ==> !overwrite || (done < pageCount && UnderBlock(old(tables), root, VirtualPage(virtStart) + done))
      ensures r.NoMemory? ==> AllUsed(pma.inUse[..]) && TableMissing(places, VirtualPage(virtStart), pageCount)
      ensures PlacesGrow(old(places), places, VirtualPage(virtStart), pageCount)
    {
      hide AllUsed, PlacesGrow, TableMissing, ToParts, Index, Stop, LeafAt, EntryOk, PlacesOk, TablesInUse, Translate;
      done := 0;
      GrowNothing(places, VirtualPage(virtStart), pageCount);
      ghost var g := Goal(tables, pma.inUse[..], VirtualPage(virtStart), phyStart / PAGE_SIZE, options);
      if ToParts(virtStart).offset != 0 {
        return BadVirtualBase, done;
      }
      if !TagMatches(high, virtStart) {
        return WrongTag, done;
      }
      if !overwrite {
        return Panicked, done;
      }
      var pageIndex := 0;
      while pageIndex < pageCount
        invariant 0 <= pageIndex <= pageCount
        invariant Progress(tables, root, places, pma.inUse[..], pma.memoryStart, g, pageIndex)
        invariant PlacesGrow(old(places), places, g.v0, pageCount)
      {
        ghost var pl := places;
        var step, mapped := MapNext(pma, phyStart, virtStart, pageIndex, pageCount, options, g);
        GrowMore(old(places), pl, places, g.v0, pageCount, g.v0 + pageIndex, 1);
        if step.NoMemory? { MissingMore(places, g.v0, pageCount, g.v0 + pageIndex, 1); }
        pageIndex := pageIndex + mapped;
        done := pageIndex;
        if !step.Mapped? {
          return step, done;
        }
      }
      return Mapped, pageIndex;
    }

    /** Clears the mapping of a range and reports each region before clearing it. The call is not
        meant for ranges with holes or leaves that stick out: then it still only unmaps, and
        panics where a walk ends at level 0. On a tiled range the regions tile it, agree with the
        translation, and exactly the range ends up unmapped. */
    method UnmapRange(virtStart: nat, pageCount: nat) returns (ok: bool, regions: seq<MappedRegion>)
      requires Valid() && VirtualPage(virtStart) + pageCount <= PAGES
      modifies this
      ensures Valid() && tables.Keys == old(tables.Keys) && places == old(places)
      ensures OnlyUnmapped(old(tables), tables, root)
      ensures RangeTiled(old(tables), root, VirtualPage(virtStart), VirtualPage(virtStart) + pageCount) ==>
        && ok
        && RangeCleared(old(tables), tables, root, VirtualPage(virtStart), VirtualPage(virtStart) + pageCount)
        && Tiling(regions, VirtualPage(virtStart), VirtualPage(virtStart) + pageCount)
        && forall i :: 0 <= i < |regions| ==> RegionOk(old(tables), root, regions[i])
    {
      hide ToParts, Index, Stop, LeafAt, EntryOk, PlacesOk, RangeCleared, RangeTiled, Translate, RegionOk, OnlyUnmapped, Tiling;
      ghost var before := tables;
      ghost var lo := VirtualPage(virtStart);
      ghost var hi := lo + pageCount;
      regions := [];
      var pageIndex := 0;
      UnmapStarts(before, root, lo, hi);
      while pageIndex < pageCount
        invariant Valid() && tables.Keys == before.Keys && places == old(places)
        invariant OnlyUnmapped(before, tables, root)
        invariant Unmapping(before, tables, root, lo, lo + pageIndex, hi, regions)
        decreases pageCount - pageIndex
      {
        var span, region := UnmapNext(virtStart, pageIndex, pageCount, before, regions);
        if span == 0 {
          return false, regions;
        }
        regions := regions + region;
        pageIndex := pageIndex + span;
      }
      UnmapEnds(before, tables, root, lo, lo + pageIndex, hi, regions);
      return true, regions;
    }

    /** One round of the unmapping loop; a span of zero means that the call panics. */
    method UnmapNext(virtStart: nat, pageIndex: nat, pageCount: nat, ghost before: Tables,
                     ghost regions: seq<MappedRegion>)
      returns (span: nat, region: seq<MappedRegion>)
      requires Valid() && WellFormed(before, root, places)
      requires pageIndex < pageCount && VirtualPage(virtStart) + pageCount <= PAGES
      requires OnlyUnmapped(before, tables, root)
      requires Unmapping(before, tables, root, VirtualPage(virtStart), VirtualPage(virtStart) + pageIndex,
                         VirtualPage(virtStart) + pageCount, regions)
      modifies this
      ensures Valid() && tables.Keys == old(tables.Keys) && places == old(places)
      ensures OnlyUnmapped(before, tables, root)
      ensures span == 0 ==> !RangeTiled(before, root, VirtualPage(virtStart), VirtualPage(virtStart) + pageCount)
      ensures span > 0 ==>
        Unmapping(before, tables, root, VirtualPage(virtStart), VirtualPage(virtStart) + pageIndex + span,
                  VirtualPage(virtStart) + pageCount, regions + region)
    {
      hide ToParts, Index, Stop, LeafAt, EntryOk, PlacesOk, RangeTiled, OnlyUnmapped, RangeCleared, RegionOk, Tiling;
      var parts := ToParts(virtStart + pageIndex * PAGE_SIZE);
      ghost var lo := VirtualPage(virtStart);
      ghost var v, hi := lo + pageIndex, lo + pageCount;
      IndexOfParts(virtStart, pageIndex);
      PathStarts(tables, root, places, v);
      var table := root;
      var level := 0;
      while true
        invariant 0 <= level <= 3
        invariant Valid() && tables == old(tables) && places == old(places) && OnPath(tables, root, places, v, level, table)
        decreases 3 - level
      {
        var i := if level == 0 then parts.l0 else if level == 1 then parts.l1 else if level == 2 then parts.l2 else parts.l3;
        var blockSize := if level == 0 then 0 else if level == 1 then 512 * 512 else if level == 2 then 512 else 1;
        var entry := tables[table][i];
        var next := entry.TableRef(level);
        if next.Some? {
          FollowTable(tables, root, places, v, level, table);
          table := next.value;
          level := level + 1;
        } else {
          PathEnds(tables, root, places, v, level, table);
          if RangeTiled(before, root, lo, hi) {
            UnmapLeaf(before, tables, root, places, lo, v, hi, regions, level, table, v + Span(level));
          }
          if blockSize == 0 {
            return 0, [];
          }
          var base := entry.BaseAddress(level);
          region := if base.Some? then [MappedRegion(VirtualPage(virtStart + pageIndex * PAGE_SIZE), base.value, blockSize)] else [];
          ClearOnlyUnmaps(before, tables, root, places, v, level, table);
          SetEntryWellFormed(tables, root, places, table, i, INVALID);
          PageOfAddress(virtStart, pageIndex);
          tables := tables[table := tables[table][i := INVALID]];
          return blockSize, region;
        }
      }
    }
  }

  /** `PageTable::empty` with the page for its root: it takes one free page, and fails exactly when
      there is none. */
  method Create(pma: PhysicalMemoryAllocator, high: bool) returns (r: Allocated<PageTable>)
    requires Addressable(pma)
    modifies pma.inUse
    ensures r.Refused? <==> AllUsed(old(pma.inUse[..]))
    ensures r.Refused? ==> pma.inUse[..] == old(pma.inUse[..])
    ensures r.Granted? ==>
      && fresh(r.value) && r.value.Valid() && r.value.high == high && r.value.tables.Keys == {r.value.root}
      && (forall w: nat :: LeafAt(r.value.tables, r.value.root, w).None?)
      && TablesInUse(r.value.tables.Keys, pma.inUse[..], pma.memoryStart)
      && OnlyTablesTaken(old(pma.inUse[..]), pma.inUse[..], {}, r.value.tables.Keys, pma.memoryStart)
  {
    var page;
    ghost var start;
    page, start := pma.AllocContig(1);
    if page.Refused? {
      NoFreePage(pma.inUse[..]);
      return Refused(page.error);
    }
    assert !old(pma.inUse[..])[start];
    var table := new PageTable.Empty(high, page.value);
    return Granted(table);
  }
}
