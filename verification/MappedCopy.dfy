/** `PageTable::mapped_copy_from`: copying out of memory that a table maps. `mem` is physical
    memory; an address is given by its byte offset in the half of the address space it is in. */
module MappedCopy {
  import opened Wrappers
  import opened Addresses
  import opened PageTableEntries
  import opened PageTableTree
  import opened PageTable
  import opened PageTableIter

  function Min(x: nat, y: nat): nat { if x < y then x else y }

  /** The byte offset of an address in its half of the address space. */
  function HalfOffset(src: nat): nat { VirtualPage(src) * PAGE_SIZE + src % PAGE_SIZE }

  ghost predicate IsMapped(ts: Tables, root: nat, a: nat) { Translate(ts, root, a / PAGE_SIZE).Some? }

  /** The byte that the translation designates at `a`. */
  ghost function ByteAt(ts: Tables, root: nat, mem: nat -> int, a: nat): int
    requires IsMapped(ts, root, a)
  {
    mem(Translate(ts, root, a / PAGE_SIZE).value.frame * PAGE_SIZE + a % PAGE_SIZE)
  }

  ghost predicate IsCopied(ts: Tables, root: nat, mem: nat -> int, a: nat, byte: int) {
    IsMapped(ts, root, a) && byte == ByteAt(ts, root, mem, a)
  }

  /** Byte `d` of a region is the byte the translation designates there. */
  lemma RegionByte(ts: Tables, root: nat, pl: Places, mem: nat -> int, r: MappedRegion, d: nat)
    requires WellFormed(ts, root, pl) && r in AllRegions(ts, root) && d < r.pageCount * PAGE_SIZE
    ensures IsCopied(ts, root, mem, r.page * PAGE_SIZE + d, mem(r.basePhysAddr + d))
  {
    hide AllRegions, LeafAt, WellFormed;
    var w := r.page + d / PAGE_SIZE;
    InOrder(ts, root, r);
    AllRegionsExact(ts, root, pl, w, r);
    assert (r.page * PAGE_SIZE + d) / PAGE_SIZE == w && (r.page * PAGE_SIZE + d) % PAGE_SIZE == d % PAGE_SIZE;
  }

  lemma InOrder(ts: Tables, root: nat, r: MappedRegion)
    requires r in AllRegions(ts, root)
    ensures r.page + r.pageCount <= PAGES && r.pageCount > 0
  {
    hide Regions;
    RegionsOrdered(ts, root, 0, 0, 0);
  }

  /** What the loop makes of the regions ahead: `next` is the page it expects, `left` the bytes
      still to copy. It returns success only at a further region, once nothing is left. */
  ghost predicate Continues(rs: seq<MappedRegion>, next: nat, left: nat) {
    && rs != []
    && (left == 0 ||
        (rs[0].page == next
         && Continues(rs[1..], next + rs[0].pageCount, left - Min(rs[0].pageCount * PAGE_SIZE, left))))
  }

  ghost predicate Succeeds(rs: seq<MappedRegion>, v: nat, po: nat, len: nat)
    requires po < PAGE_SIZE
  {
    && rs != [] && rs[0].page == v && rs[0].pageCount > 0
    && Continues(rs[1..], v + rs[0].pageCount, len - Min(rs[0].pageCount * PAGE_SIZE - po, len))
  }

  lemma IndicesSpell(v: nat)
    requires v < PAGES
    ensures SpelledPage([Index(v, 0), Index(v, 1), Index(v, 2), Index(v, 3)]) == v
  {
    var a := v / 512;
    var b := a / 512;
    var d := b / 512;
    NestedQuotients(v);
    assert d < 512;
  }

  lemma {:induction false} EndingAfterIn(rs: seq<MappedRegion>, v: nat, r: MappedRegion)
    requires r in EndingAfter(rs, v)
    ensures r in rs
  {
    if rs != [] && rs[0].page + rs[0].pageCount <= v { EndingAfterIn(rs[1..], v, r); }
  }

  /** The regions that remain are regions of the table, and the loop's verdict depends on them. */
  ghost predicate Ahead(ts: Tables, root: nat, rest: seq<MappedRegion>) {
    forall i :: 0 <= i < |rest| ==> rest[i] in AllRegions(ts, root)
  }

  lemma AheadAtStart(ts: Tables, root: nat, v: nat)
    ensures Ahead(ts, root, EndingAfter(AllRegions(ts, root), v))
  {
    hide AllRegions, EndingAfter;
    var rs := EndingAfter(AllRegions(ts, root), v);
    forall i | 0 <= i < |rs| ensures rs[i] in AllRegions(ts, root) {
      EndingAfterIn(AllRegions(ts, root), v, rs[i]);
    }
  }

  /** The bytes are those that the translation designates from `start` on. */
  ghost predicate Copied(ts: Tables, root: nat, mem: nat -> int, start: nat, bytes: seq<int>) {
    forall k :: 0 <= k < |bytes| ==> IsCopied(ts, root, mem, start + k, bytes[k])
  }

  /** Appending the bytes of a region from byte `skip` on, where the bytes so far end. */
  lemma CopyExtends(ts: Tables, root: nat, pl: Places, mem: nat -> int, start: nat, bytes: seq<int>, r: MappedRegion,
                    skip: nat, longer: seq<int>)
    requires WellFormed(ts, root, pl) && r in AllRegions(ts, root)
    requires Copied(ts, root, mem, start, bytes) && start + |bytes| == r.page * PAGE_SIZE + skip
    requires bytes <= longer && skip + |longer| - |bytes| <= r.pageCount * PAGE_SIZE
    requires forall k :: |bytes| <= k < |longer| ==> longer[k] == mem(r.basePhysAddr + skip + (k - |bytes|))
    ensures Copied(ts, root, mem, start, longer)
  {
    hide WellFormed, AllRegions, IsCopied;
    forall k | 0 <= k < |longer| ensures IsCopied(ts, root, mem, start + k, longer[k]) {
      if k < |bytes| {
        assert IsCopied(ts, root, mem, start + k, bytes[k]);
      } else {
        RegionByte(ts, root, pl, mem, r, skip + (k - |bytes|));
      }
    }
  }

  /** Copies part of one region. */
  method CopyRegion(mem: nat -> int, from: nat, dst: array<int>, offset: nat, len: nat)
    requires offset + len <= dst.Length
    modifies dst
    ensures dst[..offset] == old(dst[..offset])
    ensures forall k :: offset <= k < offset + len ==> dst[k] == mem(from + (k - offset))
  {
    forall k | offset <= k < offset + len { dst[k] := mem(from + (k - offset)); }
  }

  lemma ContinuesUnfold(rs: seq<MappedRegion>, r: MappedRegion, next: nat, left: nat)
    ensures Continues([r] + rs, next, left) <==>
      left == 0 || (r.page == next && Continues(rs, next + r.pageCount, left - Min(r.pageCount * PAGE_SIZE, left)))
    ensures !Continues([], next, left)
  {
    assert ([r] + rs)[1..] == rs;
  }

  lemma SucceedsUnfold(rs: seq<MappedRegion>, v: nat, po: nat, len: nat)
    requires po < PAGE_SIZE
    ensures rs == [] || rs[0].page != v ==> !Succeeds(rs, v, po, len)
    ensures rs != [] && rs[0].pageCount > 0 ==> (Succeeds(rs, v, po, len) <==>
      rs[0].page == v && Continues(rs[1..], v + rs[0].pageCount, len - Min(rs[0].pageCount * PAGE_SIZE - po, len)))
  {
  }

  lemma StartIndices(src: nat)
    ensures var p := ToParts(src);
            p.l0 < 512 && p.l1 < 512 && p.l2 < 512 && p.l3 < 512
            && SpelledPage([p.l0, p.l1, p.l2, p.l3]) == VirtualPage(src)
  {
    hide ToParts;
    IndexOfParts(src, 0);
    IndicesSpell(VirtualPage(src));
  }

  lemma AheadStep(ts: Tables, root: nat, rest: seq<MappedRegion>)
    requires Ahead(ts, root, rest) && rest != []
    ensures rest[0] in AllRegions(ts, root) && Ahead(ts, root, rest[1..]) && [rest[0]] + rest[1..] == rest
  {
    hide AllRegions;
  }

  /** The outcome of a copy. On failure: the page behind the last region that was copied, if any was,
      and how many bytes were not copied. */
  datatype CopyResult = CopyDone | InvalidTag | Unmapped(lastValid: Option<nat>, remaining: nat)

  /** A failed copy has copied a prefix, up to a page that is not mapped. */
  ghost predicate StoppedAt(ts: Tables, root: nat, mem: nat -> int, start: nat, bytes: seq<int>, next: nat, remaining: nat) {
    && remaining <= |bytes| && Copied(ts, root, mem, start, bytes[..|bytes| - remaining])
    && (remaining > 0 ==>
         start + |bytes| - remaining == next * PAGE_SIZE && (next < PAGES ==> LeafAt(ts, root, next).None?))
  }

  /** The copy succeeds exactly when the walk over the regions does, and then the destination
      holds the bytes that the translation designates. A failure says how far the copy went. */
  method MappedCopyFrom(pt: PageTable, mem: nat -> int, src: nat, dst: array<int>) returns (r: CopyResult)
    requires pt.Valid()
    modifies dst
    ensures r.InvalidTag? <==> !TagMatches(pt.high, src)
    ensures r.CopyDone? == (TagMatches(pt.high, src)
      && Succeeds(EndingAfter(AllRegions(pt.tables, pt.root), VirtualPage(src)), VirtualPage(src), src % PAGE_SIZE, dst.Length))
    ensures r.CopyDone? ==> Copied(pt.tables, pt.root, mem, HalfOffset(src), dst[..])
    ensures r.Unmapped? && r.lastValid.None? ==> r.remaining == dst.Length && !LeafStart(pt.tables, pt.root, VirtualPage(src))
    ensures r.Unmapped? && r.lastValid.Some? ==>
      StoppedAt(pt.tables, pt.root, mem, HalfOffset(src), dst[..], r.lastValid.value, r.remaining)
  {
    hide ToParts, TagMatches, AllRegions, EndingAfter, Index, IsCopied, Copied, Continues, Ahead, WellFormed, VirtualPage,
         SpelledPage, Settled, StackOk, Remaining, Succeeds, RegionOk, Ordered, LeafStart, AheadOf, Beyond, StoppedAt;
    if !TagMatches(pt.high, src) {
      return InvalidTag;
    }
    var parts := ToParts(src);
    var po := src % PAGE_SIZE;
    ghost var ts, root, pl := pt.tables, pt.root, pt.places;
    ghost var v := VirtualPage(src);
    ghost var regions := EndingAfter(AllRegions(ts, root), v);
    StartIndices(src);
    AheadAtStart(ts, root, v);
    AheadOfAll(ts, root, pl, v);
    PageInHalf(src);
    FirstIsLeaf(ts, root, v, regions);
    SucceedsUnfold(regions, v, po, dst.Length);
    var it := new PageTableIter.StartingAt(pt, [parts.l0, parts.l1, parts.l2, parts.l3]);
    var first := it.Next();
    if first.None? {
      return Unmapped(None, dst.Length);
    }
    AheadStep(ts, root, regions);
    if first.value.page != VirtualPage(src) {
      return Unmapped(None, dst.Length);
    }
    InOrder(ts, root, first.value);
    BeyondStart(ts, root, v, regions);
    var offset := Min(first.value.pageCount * PAGE_SIZE - po, dst.Length);
    CopyRegion(mem, first.value.basePhysAddr + po, dst, 0, offset);
    CopyNothing(ts, root, mem, HalfOffset(src));
    CopyExtends(ts, root, pl, mem, HalfOffset(src), [], first.value, po, dst[..offset]);
    r := CopyRest(it, mem, dst, first.value.page + first.value.pageCount, offset, HalfOffset(src));
  }

  lemma PageInHalf(src: nat)
    ensures VirtualPage(src) < PAGES
  {
  }

  /** From page `next` on, exactly the pages of these regions are mapped. */
  ghost predicate Beyond(ts: Tables, root: nat, next: nat, rs: seq<MappedRegion>) {
    && Ordered(rs, next, PAGES)
    && forall w: nat :: next <= w < PAGES ==> (InSome(rs, w) <==> LeafAt(ts, root, w).Some?)
  }

  lemma BeyondStart(ts: Tables, root: nat, v: nat, rs: seq<MappedRegion>)
    requires AheadOf(ts, root, v, rs) && rs != [] && rs[0].page == v
    ensures Beyond(ts, root, v + rs[0].pageCount, rs[1..])
  {
    OrderedTail(rs, 0, PAGES);
    hide LeafAt, InSome, StartsAt, LeafStart;
    forall w: nat | v + rs[0].pageCount <= w < PAGES ensures InSome(rs[1..], w) <==> LeafAt(ts, root, w).Some? {
      InSomeTail(rs, w);
    }
  }

  lemma BeyondStep(ts: Tables, root: nat, next: nat, r: MappedRegion, rest: seq<MappedRegion>)
    requires Beyond(ts, root, next, [r] + rest) && r.page == next
    ensures Beyond(ts, root, next + r.pageCount, rest)
  {
    var rs := [r] + rest;
    assert rs[1..] == rest;
    OrderedTail(rs, next, PAGES);
    hide LeafAt, InSome;
    forall w: nat | next + r.pageCount <= w < PAGES ensures InSome(rest, w) <==> LeafAt(ts, root, w).Some? {
      InSomeTail(rs, w);
    }
  }

  lemma BeyondGap(ts: Tables, root: nat, next: nat, rs: seq<MappedRegion>)
    requires Beyond(ts, root, next, rs) && (rs == [] || rs[0].page != next)
    ensures next < PAGES ==> LeafAt(ts, root, next).None?
  {
    hide LeafAt;
    forall i | 0 <= i < |rs| ensures !InRegion(rs[i], next) {
      assert i > 0 ==> rs[0].page + rs[0].pageCount <= rs[i].page;
    }
  }

  /** The regions behind the first: the copy goes on while they adjoin, and is over when a further
      region shows that nothing is left. */
  method CopyRest(it: PageTableIter, mem: nat -> int, dst: array<int>, first: nat, copied: nat, ghost start: nat)
    returns (result: CopyResult)
    requires it.Ready() && copied <= dst.Length && Ahead(it.tables, it.root, it.Rest())
    requires Beyond(it.tables, it.root, first, it.Rest())
    requires Copied(it.tables, it.root, mem, start, dst[..copied])
    requires copied < dst.Length ==> start + copied == first * PAGE_SIZE
    modifies it`stack, dst
    ensures result.CopyDone? <==> Continues(old(it.Rest()), first, dst.Length - copied)
    ensures result.CopyDone? ==> Copied(it.tables, it.root, mem, start, dst[..])
    ensures !result.CopyDone? ==>
      && result.Unmapped? && result.lastValid.Some?
      && StoppedAt(it.tables, it.root, mem, start, dst[..], result.lastValid.value, result.remaining)
  {
    hide AllRegions, Copied, Continues, Ahead, WellFormed, Settled, StackOk, Remaining, Beyond, LeafAt;
    ghost var ts, root, pl := it.tables, it.root, it.places;
    var next: nat, offset := first, copied;
    ghost var rest := it.Rest();
    ContinuesUnfold(rest, MappedRegion(0, 0, 0), next, dst.Length - offset);
    var r := it.Next();
    if r.Some? { AheadStep(ts, root, rest); }
    while r.Some?
      invariant it.Ready() && 0 <= offset <= dst.Length
      invariant Ahead(ts, root, it.Rest())
      invariant Beyond(ts, root, next, if r.Some? then [r.value] + it.Rest() else [])
      invariant r.Some? ==> r.value in AllRegions(ts, root)
      invariant Copied(ts, root, mem, start, dst[..offset])
      invariant offset < dst.Length ==> start + offset == next * PAGE_SIZE
      invariant Continues(old(it.Rest()), first, dst.Length - copied) ==
                Continues(if r.Some? then [r.value] + it.Rest() else [], next, dst.Length - offset)
      decreases if r.None? then 0 else 1 + |it.Rest()|
    {
      var region := r.value;
      ContinuesUnfold(it.Rest(), region, next, dst.Length - offset);
      if dst.Length - offset == 0 {
        assert dst[..offset] == dst[..];
        return CopyDone;
      }
      if region.page != next {
        BeyondGap(ts, root, next, [region] + it.Rest());
        assert dst[..offset] == dst[..][..offset];
        return Unmapped(Some(next), dst.Length - offset);
      }
      BeyondStep(ts, root, next, region, it.Rest());
      var len := Min(region.pageCount * PAGE_SIZE, dst.Length - offset);
      ghost var bytes := dst[..offset];
      CopyRegion(mem, region.basePhysAddr, dst, offset, len);
      CopyExtends(ts, root, pl, mem, start, bytes, region, 0, dst[..offset + len]);
      next := region.page + region.pageCount;
      offset := offset + len;
      rest := it.Rest();
      r := it.Next();
      if r.Some? { AheadStep(ts, root, rest); }
    }
    ContinuesUnfold([], MappedRegion(0, 0, 0), next, dst.Length - offset);
    BeyondGap(ts, root, next, []);
    assert dst[..offset] == dst[..][..offset];
    return Unmapped(Some(next), dst.Length - offset);
  }

  lemma CopyNothing(ts: Tables, root: nat, mem: nat -> int, start: nat)
    ensures Copied(ts, root, mem, start, [])
  {
  }

  // ---- What the verdict means for the translation ----

  ghost predicate InSome(rs: seq<MappedRegion>, w: nat) {
    exists i :: 0 <= i < |rs| && InRegion(rs[i], w)
  }

  ghost predicate StartsBeyond(rs: seq<MappedRegion>, a: nat) {
    exists i :: 0 <= i < |rs| && rs[i].page * PAGE_SIZE >= a
  }

  /** All bytes from page `next` up to byte `end` are in regions. */
  ghost predicate Covered(rs: seq<MappedRegion>, next: nat, end: nat) {
    forall w: nat :: next <= w && w * PAGE_SIZE < end ==> InSome(rs, w)
  }

  lemma InSomeTail(rs: seq<MappedRegion>, w: nat)
    requires rs != []
    ensures InSome(rs, w) <==> InRegion(rs[0], w) || InSome(rs[1..], w)
  {
    if InSome(rs, w) && !InRegion(rs[0], w) {
      var i :| 0 <= i < |rs| && InRegion(rs[i], w);
      assert rs[1..][i - 1] == rs[i];
    }
    if InSome(rs[1..], w) {
      var i :| 0 <= i < |rs[1..]| && InRegion(rs[1..][i], w);
      assert rs[i + 1] == rs[1..][i];
    }
  }

  lemma StartsBeyondTail(rs: seq<MappedRegion>, a: nat)
    requires rs != [] && rs[0].page * PAGE_SIZE < a
    ensures StartsBeyond(rs, a) <==> StartsBeyond(rs[1..], a)
  {
    if StartsBeyond(rs, a) {
      var i :| 0 <= i < |rs| && rs[i].page * PAGE_SIZE >= a;
      assert rs[1..][i - 1] == rs[i];
    }
    if StartsBeyond(rs[1..], a) {
      var i :| 0 <= i < |rs[1..]| && rs[1..][i].page * PAGE_SIZE >= a;
      assert rs[i + 1] == rs[1..][i];
    }
  }

  lemma OrderedTail(rs: seq<MappedRegion>, lo: nat, hi: nat)
    requires Ordered(rs, lo, hi) && rs != []
    ensures Ordered(rs[1..], rs[0].page + rs[0].pageCount, hi)
    ensures lo <= rs[0].page && rs[0].pageCount > 0
  {
    forall i | 0 <= i < |rs[1..]| ensures rs[0].page + rs[0].pageCount <= rs[1..][i].page {
      assert rs[1..][i] == rs[i + 1];
    }
  }

  /** The loop succeeds exactly when the bytes left are covered and a region starts beyond them. */
  lemma {:induction false} ContinuesExact(rs: seq<MappedRegion>, next: nat, left: nat)
    requires Ordered(rs, next, PAGES)
    ensures Continues(rs, next, left) <==>
      Covered(rs, next, next * PAGE_SIZE + left) && StartsBeyond(rs, next * PAGE_SIZE + left)
    decreases |rs|
  {
    var end := next * PAGE_SIZE + left;
    if rs == [] {
    } else if left == 0 {
      assert rs[0].page * PAGE_SIZE >= end;
    } else {
      OrderedTail(rs, next, PAGES);
      if rs[0].page != next {
        NotCovered(rs, next);
      } else {
        var next' := next + rs[0].pageCount;
        var left' := left - Min(rs[0].pageCount * PAGE_SIZE, left);
        ContinuesExact(rs[1..], next', left');
        StartsBeyondTail(rs, end);
        if left' == 0 {
          FirstCovers(rs, next, end);
          BeyondLater(rs[1..], next', end);
        } else {
          CoveredTail(rs, next, end);
        }
      }
    }
  }

  lemma NotCovered(rs: seq<MappedRegion>, next: nat)
    requires Ordered(rs, next + 1, PAGES) || (Ordered(rs, next, PAGES) && rs != [] && rs[0].page != next)
    ensures !InSome(rs, next)
  {
  }

  lemma FirstCovers(rs: seq<MappedRegion>, next: nat, end: nat)
    requires rs != [] && rs[0].page == next && end <= (next + rs[0].pageCount) * PAGE_SIZE
    ensures Covered(rs, next, end)
  {
    forall w: nat | next <= w && w * PAGE_SIZE < end ensures InSome(rs, w) {
      assert InRegion(rs[0], w);
    }
  }

  lemma BeyondLater(rs: seq<MappedRegion>, next: nat, end: nat)
    requires Ordered(rs, next, PAGES) && next * PAGE_SIZE >= end
    ensures StartsBeyond(rs, end) <==> rs != []
    ensures Continues(rs, next, 0) <==> rs != []
  {
    if rs != [] { assert rs[0].page * PAGE_SIZE >= end; }
  }

  lemma CoveredTail(rs: seq<MappedRegion>, next: nat, end: nat)
    requires Ordered(rs, next, PAGES) && rs != [] && rs[0].page == next
    ensures Covered(rs, next, end) <==> Covered(rs[1..], next + rs[0].pageCount, end)
  {
    var next' := next + rs[0].pageCount;
    forall w: nat ensures InSome(rs, w) <==> InRegion(rs[0], w) || InSome(rs[1..], w) {
      InSomeTail(rs, w);
    }
  }

  /** A leaf starts at page `w`. */
  ghost predicate LeafStart(ts: Tables, root: nat, w: nat) {
    w < PAGES && LeafAt(ts, root, w).Some? && Within(w, LeafAt(ts, root, w).value.level) == 0
  }

  lemma LeafLevel(ts: Tables, root: nat, pl: Places, w: nat)
    requires WellFormed(ts, root, pl) && w < PAGES && LeafAt(ts, root, w).Some?
    ensures LeafAt(ts, root, w).value.level <= 3
    ensures Within(w, LeafAt(ts, root, w).value.level) <= w
  {
    StopCovers(ts, root, pl, root, w);
  }

  /** Regions list exactly the mapped pages and the leaf starts. */
  lemma RegionsAreLeaves(ts: Tables, root: nat, pl: Places, w: nat)
    requires WellFormed(ts, root, pl) && w < PAGES
    ensures InSome(AllRegions(ts, root), w) <==> LeafAt(ts, root, w).Some?
    ensures (exists r :: r in AllRegions(ts, root) && r.page == w) <==> LeafStart(ts, root, w)
  {
    hide WellFormed, AllRegions, LeafAt, Ordered;
    var all := AllRegions(ts, root);
    if LeafAt(ts, root, w).Some? {
      LeafLevel(ts, root, pl, w);
      var leaf := LeafAt(ts, root, w).value;
      var r := MappedRegion(w - Within(w, leaf.level), leaf.entry.address * 0x1000, Span(leaf.level));
      AllRegionsExact(ts, root, pl, w, r);
    }
    if InSome(all, w) {
      var i :| 0 <= i < |all| && InRegion(all[i], w);
      AllRegionsExact(ts, root, pl, w, all[i]);
    }
    if exists r :: r in all && r.page == w {
      var r :| r in all && r.page == w;
      InOrder(ts, root, r);
      AllRegionsExact(ts, root, pl, w, r);
    }
  }

  /** Dropping the regions that end by `v` keeps order, later pages and later starts. */
  lemma {:induction false} EndingAfterKeeps(rs: seq<MappedRegion>, lo: nat, v: nat)
    requires Ordered(rs, lo, PAGES)
    ensures Ordered(EndingAfter(rs, v), lo, PAGES)
    ensures EndingAfter(rs, v) != [] ==> EndingAfter(rs, v)[0].page + EndingAfter(rs, v)[0].pageCount > v
    ensures forall w: nat :: w >= v ==> (InSome(EndingAfter(rs, v), w) <==> InSome(rs, w))
    ensures forall r: MappedRegion :: r.page >= v ==> (r in EndingAfter(rs, v) <==> r in rs)
    decreases |rs|
  {
    if rs != [] && rs[0].page + rs[0].pageCount <= v {
      OrderedTail(rs, lo, PAGES);
      EndingAfterKeeps(rs[1..], rs[0].page + rs[0].pageCount, v);
      forall w: nat | w >= v ensures InSome(rs, w) <==> InSome(rs[1..], w) {
        InSomeTail(rs, w);
      }
    }
  }

  /** Every page that the bytes touch is mapped. */
  ghost predicate BytesMapped(ts: Tables, root: nat, start: nat, len: nat) {
    forall w: nat :: start / PAGE_SIZE <= w && w * PAGE_SIZE < start + len ==> LeafAt(ts, root, w).Some?
  }

  /** What the iterator has ahead from page `v` on. */
  ghost predicate AheadOf(ts: Tables, root: nat, v: nat, rs: seq<MappedRegion>) {
    && Ordered(rs, 0, PAGES)
    && (rs != [] ==> rs[0].page + rs[0].pageCount > v)
    && (forall w: nat :: v <= w < PAGES ==> (InSome(rs, w) <==> LeafAt(ts, root, w).Some?))
    && (forall w: nat :: v <= w < PAGES ==> (StartsAt(rs, w) <==> LeafStart(ts, root, w)))
  }

  ghost predicate StartsAt(rs: seq<MappedRegion>, w: nat) {
    exists i :: 0 <= i < |rs| && rs[i].page == w
  }

  lemma AheadOfAll(ts: Tables, root: nat, pl: Places, v: nat)
    requires WellFormed(ts, root, pl)
    ensures AheadOf(ts, root, v, EndingAfter(AllRegions(ts, root), v))
  {
    hide WellFormed, Regions, LeafAt, EndingAfter, InSome, LeafStart;
    var all := AllRegions(ts, root);
    var rs := EndingAfter(all, v);
    RegionsOrdered(ts, root, 0, 0, 0);
    EndingAfterKeeps(all, 0, v);
    forall w: nat | v <= w < PAGES ensures InSome(rs, w) <==> LeafAt(ts, root, w).Some? {
      RegionsAreLeaves(ts, root, pl, w);
    }
    forall w: nat | v <= w < PAGES ensures StartsAt(rs, w) <==> LeafStart(ts, root, w) {
      RegionsAreLeaves(ts, root, pl, w);
      if StartsAt(rs, w) {
        var i :| 0 <= i < |rs| && rs[i].page == w;
        assert rs[i] in all;
      }
      if LeafStart(ts, root, w) {
        var r :| r in all && r.page == w;
        assert r in rs;
      }
    }
  }

  lemma FirstIsLeaf(ts: Tables, root: nat, v: nat, rs: seq<MappedRegion>)
    requires AheadOf(ts, root, v, rs) && v < PAGES
    ensures LeafStart(ts, root, v) <==> rs != [] && rs[0].page == v
  {
    hide LeafStart, InSome;
    assert StartsAt(rs, v) <==> LeafStart(ts, root, v);
    if StartsAt(rs, v) {
      var i :| 0 <= i < |rs| && rs[i].page == v;
      assert i == 0;
    }
  }

  /** Beyond the first region, the source is mapped exactly when the other regions cover it. */
  lemma RestCovers(ts: Tables, root: nat, v: nat, po: nat, len: nat, rs: seq<MappedRegion>)
    requires AheadOf(ts, root, v, rs) && rs != [] && rs[0].page == v && v < PAGES
    requires po < PAGE_SIZE && v * PAGE_SIZE + po + len <= PAGES * PAGE_SIZE
    ensures BytesMapped(ts, root, v * PAGE_SIZE + po, len) <==>
            Covered(rs[1..], v + rs[0].pageCount, v * PAGE_SIZE + po + len)
  {
    hide LeafStart, LeafAt, InSome, StartsAt;
    var end := v * PAGE_SIZE + po + len;
    forall w: nat | v <= w && w * PAGE_SIZE < end
      ensures LeafAt(ts, root, w).Some? <==> w < v + rs[0].pageCount || InSome(rs[1..], w)
    {
      InSomeTail(rs, w);
    }
  }

  /** A further leaf starts beyond the source exactly when another region does. */
  lemma RestBeyond(ts: Tables, root: nat, v: nat, end: nat, rs: seq<MappedRegion>)
    requires AheadOf(ts, root, v, rs) && rs != [] && rs[0].page == v && v < PAGES
    ensures StartsBeyond(rs[1..], end) <==> exists w :: w > v && LeafStart(ts, root, w) && w * PAGE_SIZE >= end
  {
    hide LeafAt, InSome;
    if StartsBeyond(rs[1..], end) {
      var i :| 0 <= i < |rs[1..]| && rs[1..][i].page * PAGE_SIZE >= end;
      assert rs[i + 1] == rs[1..][i];
      var w := rs[i + 1].page;
      assert StartsAt(rs, w);
      assert w > v && LeafStart(ts, root, w) && w * PAGE_SIZE >= end;
    }
    if w :| w > v && LeafStart(ts, root, w) && w * PAGE_SIZE >= end {
      assert StartsAt(rs, w);
      var i :| 0 <= i < |rs| && rs[i].page == w;
      assert rs[1..][i - 1] == rs[i];
    }
  }

  lemma ContinuesFirst(rs: seq<MappedRegion>, v: nat, po: nat, len: nat)
    requires Ordered(rs, 0, PAGES) && rs != [] && rs[0].page == v && po < PAGE_SIZE
    ensures var end := v * PAGE_SIZE + po + len;
            Succeeds(rs, v, po, len) <==> Covered(rs[1..], v + rs[0].pageCount, end) && StartsBeyond(rs[1..], end)
  {
    var end := v * PAGE_SIZE + po + len;
    var next := v + rs[0].pageCount;
    var left := len - Min(rs[0].pageCount * PAGE_SIZE - po, len);
    OrderedTail(rs, 0, PAGES);
    ContinuesExact(rs[1..], next, left);
    if left == 0 { BeyondLater(rs[1..], next, end); }
  }

  /** The copy succeeds exactly when a leaf starts at the source page, the whole source is mapped,
      and a further leaf starts at or beyond its end. */
  lemma CopyVerdict(ts: Tables, root: nat, pl: Places, v: nat, po: nat, len: nat)
    requires WellFormed(ts, root, pl) && v < PAGES && po < PAGE_SIZE && v * PAGE_SIZE + po + len <= PAGES * PAGE_SIZE
    ensures Succeeds(EndingAfter(AllRegions(ts, root), v), v, po, len) <==>
      && LeafStart(ts, root, v)
      && BytesMapped(ts, root, v * PAGE_SIZE + po, len)
      && exists w :: w > v && LeafStart(ts, root, w) && w * PAGE_SIZE >= v * PAGE_SIZE + po + len
  {
    hide WellFormed, AllRegions, EndingAfter, LeafAt, LeafStart, BytesMapped, Continues, Covered, StartsBeyond, InSome, StartsAt;
    var rs := EndingAfter(AllRegions(ts, root), v);
    AheadOfAll(ts, root, pl, v);
    FirstIsLeaf(ts, root, v, rs);
    if rs != [] && rs[0].page == v {
      RestCovers(ts, root, v, po, len, rs);
      RestBeyond(ts, root, v, v * PAGE_SIZE + po + len, rs);
      ContinuesFirst(rs, v, po, len);
    }
  }

  // ---- The last mapped page ----

  /** Tables that lead to page 0 and end in an empty one. */
  lemma LinkLevel(ts: Tables, pl: Places, level: nat, a: nat, b: nat)
    requires WellFormed(ts, 0, pl) && level < 3 && OnPath(ts, 0, pl, 0, level, a) && ts[a] == EmptyTable()
    requires b !in ts && b % 0x1000 == 0 && b / 0x1000 < FRAMES
    requires forall w: nat :: w < PAGES ==> LeafAt(ts, 0, w).None?
    ensures var ts', pl' := WithTable(ts, a, 0, TableDesc(b), b), WithPlace(pl, a, 0, b);
            && WellFormed(ts', 0, pl') && OnPath(ts', 0, pl', 0, level + 1, b) && ts'[b] == EmptyTable()
            && forall w: nat :: w < PAGES ==> LeafAt(ts', 0, w).None?
  {
    var e := TableDesc(b);
    assert Index(0, level) == 0;
    TableDescDecodes(b, level);
    assert e.BaseAddress(0).None?;
    PathEnds(ts, 0, pl, 0, level, a);
    AddTableWellFormed(ts, 0, pl, a, 0, e, b);
    LinkTablePath(ts, 0, pl, 0, level, a, e, b);
    forall w: nat | w < PAGES ensures LeafAt(WithTable(ts, a, 0, e, b), 0, w).None? {
      AddTableLeaf(ts, 0, pl, 0, level, a, e, b, w);
    }
  }

  ghost function LinkedTables(): (ts: Tables)
    ensures 0x3000 in ts
  {
    var ts1 := WithTable(map[0 := EmptyTable()], 0, 0, TableDesc(0x1000), 0x1000);
    var ts2 := WithTable(ts1, 0x1000, 0, TableDesc(0x2000), 0x2000);
    WithTable(ts2, 0x2000, 0, TableDesc(0x3000), 0x3000)
  }

  /** Page 0 is mapped to frame 4, and no other page is mapped. */
  ghost function OnePageTables(): Tables { WithEntry(LinkedTables(), 0x3000, 0, PageEntry(0x4000)) }

  lemma LinkedTablesOk() returns (pl: Places)
    ensures var ts := LinkedTables();
            && WellFormed(ts, 0, pl) && OnPath(ts, 0, pl, 0, 3, 0x3000) && ts[0x3000] == EmptyTable()
            && forall w: nat :: w < PAGES ==> LeafAt(ts, 0, w).None?
  {
    var ts0: Tables, pl0: Places := map[0 := EmptyTable()], map[0 := Place(0, 0)];
    assert WellFormed(ts0, 0, pl0);
    forall w: nat | w < PAGES ensures LeafAt(ts0, 0, w).None? {
      EmptyStop(ts0, 0, 0, w);
    }
    PathStarts(ts0, 0, pl0, 0);
    hide WellFormed, LeafAt, OnPath;
    LinkLevel(ts0, pl0, 0, 0, 0x1000);
    var ts1, pl1 := WithTable(ts0, 0, 0, TableDesc(0x1000), 0x1000), WithPlace(pl0, 0, 0, 0x1000);
    LinkLevel(ts1, pl1, 1, 0x1000, 0x2000);
    var ts2, pl2 := WithTable(ts1, 0x1000, 0, TableDesc(0x2000), 0x2000), WithPlace(pl1, 0x1000, 0, 0x2000);
    LinkLevel(ts2, pl2, 2, 0x2000, 0x3000);
    pl := WithPlace(pl2, 0x2000, 0, 0x3000);
  }

  lemma OnePageOk() returns (pl: Places)
    ensures var ts := OnePageTables();
            && WellFormed(ts, 0, pl) && 0x3000 in pl && pl[0x3000] == Place(3, 0) && !ts[0x3000][1].valid
            && forall w: nat :: w < PAGES ==> LeafAt(ts, 0, w) == if w == 0 then Some(Leaf(3, PageEntry(0x4000))) else None
  {
    pl := LinkedTablesOk();
    var ts, e := LinkedTables(), PageEntry(0x4000);
    assert Index(0, 3) == 0;
    PathEnds(ts, 0, pl, 0, 3, 0x3000);
    SetEntryWellFormed(ts, 0, pl, 0x3000, 0, e);
    CoversIndex(pl[0x3000], 0);
    forall w: nat | w < PAGES ensures LeafAt(OnePageTables(), 0, w) == if w == 0 then Some(Leaf(3, e)) else None {
      SetEntryLeaf(ts, 0, pl, 0, 3, 0x3000, e, w);
    }
  }

  /** As `OnePageTables`, with page 1 mapped to frame 5. */
  ghost function TwoPageTables(): Tables
  {
    var ts := OnePageTables();
    WithEntry(ts, 0x3000, 1, PageEntry(0x5000))
  }

  /** Mapping page 1 beside page 0. */
  lemma SecondPage(ts: Tables, pl: Places)
    requires WellFormed(ts, 0, pl) && 0x3000 in pl && 0x3000 in ts && pl[0x3000] == Place(3, 0) && !ts[0x3000][1].valid
    ensures var ts' := WithEntry(ts, 0x3000, 1, PageEntry(0x5000));
            && WellFormed(ts', 0, pl)
            && forall w: nat :: w < PAGES ==>
              LeafAt(ts', 0, w) == if w == 1 then Some(Leaf(3, PageEntry(0x5000))) else LeafAt(ts, 0, w)
  {
    hide Stop, WellFormed, LeafAt;
    var e := PageEntry(0x5000);
    assert Index(1, 3) == 1 && LeafOrInvalid(e, 3) && e.BaseAddress(3).Some?;
    TableOnPath(ts, 0, pl, 0x3000, 1);
    PathEnds(ts, 0, pl, 1, 3, 0x3000);
    SetEntryWellFormed(ts, 0, pl, 0x3000, 1, e);
    var ts' := WithEntry(ts, 0x3000, 1, e);
    forall w: nat | w < PAGES ensures LeafAt(ts', 0, w) == if w == 1 then Some(Leaf(3, e)) else LeafAt(ts, 0, w) {
      SetEntryLeaf(ts, 0, pl, 1, 3, 0x3000, e, w);
    }
  }

  lemma TwoPageOk() returns (pl: Places)
    ensures var ts := TwoPageTables();
            && WellFormed(ts, 0, pl) && (forall w: nat :: w < PAGES && w > 1 ==> LeafAt(ts, 0, w).None?)
            && LeafAt(ts, 0, 0) == Some(Leaf(3, PageEntry(0x4000))) && LeafAt(ts, 0, 1) == Some(Leaf(3, PageEntry(0x5000)))
  {
    hide WellFormed, LeafAt, OnPath, LinkedTables;
    pl := OnePageOk();
    SecondPage(OnePageTables(), pl);
  }

  /** With one mapped page, all of its bytes are mapped and copying them is refused; with a second page
      mapped behind it, the same copy succeeds. */
  lemma LastPageRefused()
    ensures var ts := OnePageTables();
            BytesMapped(ts, 0, 0, PAGE_SIZE) && !Succeeds(EndingAfter(AllRegions(ts, 0), 0), 0, 0, PAGE_SIZE)
    ensures Succeeds(EndingAfter(AllRegions(TwoPageTables(), 0), 0), 0, 0, PAGE_SIZE)
  {
    FirstPageRefused();
    FirstPageCopied();
  }

  lemma FirstPageRefused()
    ensures var ts := OnePageTables();
            BytesMapped(ts, 0, 0, PAGE_SIZE) && !Succeeds(EndingAfter(AllRegions(ts, 0), 0), 0, 0, PAGE_SIZE)
  {
    var pl := OnePageOk();
    var ts := OnePageTables();
    hide OnePageTables, AllRegions, EndingAfter, Succeeds, WellFormed, LeafAt;
    CopyVerdict(ts, 0, pl, 0, 0, PAGE_SIZE);
    assert forall w :: w > 0 && w < PAGES ==> !LeafStart(ts, 0, w);
  }

  lemma FirstPageCopied()
    ensures Succeeds(EndingAfter(AllRegions(TwoPageTables(), 0), 0), 0, 0, PAGE_SIZE)
  {
    hide OnePageTables, TwoPageTables, AllRegions, EndingAfter, Succeeds, WellFormed, LeafAt;
    var pl := TwoPageOk();
    var ts := TwoPageTables();
    CopyVerdict(ts, 0, pl, 0, 0, PAGE_SIZE);
    assert LeafStart(ts, 0, 0) && LeafStart(ts, 0, 1);
  }
}
