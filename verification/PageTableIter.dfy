/** `PageTableIter`: an explicit stack of (table, index) pairs that visits the mapped leaves of a
    table tree in order. The tables cannot change while the iterator holds the lock. */
module PageTableIter {
  import opened Wrappers
  import opened Addresses
  import opened PageTableEntries
  import opened PageTableTree
  import opened PageTable

  // ---- The regions of a tree, in order ----

  /** The regions under entries `i..512` of table `t`, whose first page is `base`. */
  ghost function Regions(ts: Tables, t: nat, level: nat, base: nat, i: nat): seq<MappedRegion>
    requires level <= 3 && i <= 512
    decreases 4 - level, 513 - i
  {
    if i == 512 || t !in ts then []
    else EntryRegions(ts, ts[t][i], level, base + Offset(i, level)) + Regions(ts, t, level, base, i + 1)
  }

  /** The regions under one entry whose first page is `start`. */
  ghost function EntryRegions(ts: Tables, e: Entry, level: nat, start: nat): seq<MappedRegion>
    requires level <= 3
    decreases 4 - level, 0
  {
    if e.TableRef(level).Some? then Regions(ts, e.TableRef(level).value, level + 1, start, 0)
    else if e.BaseAddress(level).Some? then [MappedRegion(start, e.BaseAddress(level).value, Span(level))]
    else []
  }

  ghost function AllRegions(ts: Tables, root: nat): seq<MappedRegion> {
    Regions(ts, root, 0, 0, 0)
  }

  /** Regions in strictly increasing order without overlap, all between pages `lo` and `hi`. */
  ghost predicate Ordered(rs: seq<MappedRegion>, lo: nat, hi: nat) {
    && (forall i :: 0 <= i < |rs| ==> lo <= rs[i].page && rs[i].pageCount > 0 && rs[i].page + rs[i].pageCount <= hi)
    && (forall i, j :: 0 <= i < j < |rs| ==> rs[i].page + rs[i].pageCount <= rs[j].page)
  }

  lemma OrderedConcat(xs: seq<MappedRegion>, ys: seq<MappedRegion>, lo: nat, mid: nat, hi: nat)
    requires Ordered(xs, lo, mid) && Ordered(ys, mid, hi) && lo <= mid <= hi
    ensures Ordered(xs + ys, lo, hi)
  {
  }

  lemma {:induction false} RegionsOrdered(ts: Tables, t: nat, level: nat, base: nat, i: nat)
    requires level <= 3 && i <= 512
    ensures Ordered(Regions(ts, t, level, base, i), base + Offset(i, level), base + Offset(512, level))
    decreases 4 - level, 513 - i
  {
    if i < 512 && t in ts {
      EntryRegionsOrdered(ts, ts[t][i], level, base + Offset(i, level));
      RegionsOrdered(ts, t, level, base, i + 1);
      OrderedConcat(EntryRegions(ts, ts[t][i], level, base + Offset(i, level)), Regions(ts, t, level, base, i + 1),
                    base + Offset(i, level), base + Offset(i + 1, level), base + Offset(512, level));
    }
  }

  lemma {:induction false} EntryRegionsOrdered(ts: Tables, e: Entry, level: nat, start: nat)
    requires level <= 3
    ensures Ordered(EntryRegions(ts, e, level, start), start, start + Span(level))
    decreases 4 - level, 0
  {
    hide Regions;
    if e.TableRef(level).Some? {
      RegionsOrdered(ts, e.TableRef(level).value, level + 1, start, 0);
      assert Offset(512, level + 1) == Span(level);
    }
  }

  ghost predicate InRegion(r: MappedRegion, v: nat) { r.page <= v < r.page + r.pageCount }

  /** The leaf where the walk for `v` ends, started at a table on its path. */
  ghost function LeafFrom(ts: Tables, t: nat, level: nat, v: nat): Option<Leaf> {
    var (l, u) := Stop(ts, t, level, v);
    if u in ts && ts[u][Index(v, l)].BaseAddress(l).Some? then Some(Leaf(l, ts[u][Index(v, l)])) else None
  }

  lemma RegionsSplit(ts: Tables, t: nat, level: nat, base: nat, i: nat)
    requires level <= 3 && i < 512 && t in ts
    ensures Regions(ts, t, level, base, i) ==
            EntryRegions(ts, ts[t][i], level, base + Offset(i, level)) + Regions(ts, t, level, base, i + 1)
  {
  }

  /** The leaf whose region contains `v`, as a region. */
  ghost predicate IsLeafRegion(leaf: Option<Leaf>, v: nat, r: MappedRegion) {
    && leaf.Some? && leaf.value.level <= 3
    && r.page + Within(v, leaf.value.level) == v && r.pageCount == Span(leaf.value.level)
    && r.basePhysAddr == leaf.value.entry.address * 0x1000
  }

  /** The regions of a table that contain page `v` are exactly the one of its leaf. */
  lemma {:induction false} RegionsExact(ts: Tables, root: nat, pl: Places, t: nat, v: nat, i: nat, r: MappedRegion)
    requires WellFormed(ts, root, pl) && t in pl && pl[t].Covers(v) && i <= Index(v, pl[t].level)
    requires InRegion(r, v)
    ensures r in Regions(ts, t, pl[t].level, pl[t].base, i) <==>
            IsLeafRegion(LeafFrom(ts, t, pl[t].level, v), v, r)
    decreases 4 - pl[t].level, 513 - i
  {
    hide Regions, Stop, Index, EntryRegions, EntryOk;
    var level, base := pl[t].level, pl[t].base;
    var j := Index(v, level);
    CoversIndex(pl[t], v);
    var xs := EntryRegions(ts, ts[t][i], level, base + Offset(i, level));
    var ys := Regions(ts, t, level, base, i + 1);
    RegionsSplit(ts, t, level, base, i);
    assert r in Regions(ts, t, level, base, i) <==> r in xs || r in ys;
    RegionsOrdered(ts, t, level, base, i + 1);
    if i < j {
      EntryRegionsOrdered(ts, ts[t][i], level, base + Offset(i, level));
      assert r !in xs;
      RegionsExact(ts, root, pl, t, v, i + 1, r);
    } else {
      assert r !in ys;
      EntryExact(ts, root, pl, t, v, r);
    }
  }

  lemma {:induction false} EntryExact(ts: Tables, root: nat, pl: Places, t: nat, v: nat, r: MappedRegion)
    requires WellFormed(ts, root, pl) && t in pl && pl[t].Covers(v) && InRegion(r, v)
    ensures var level, i := pl[t].level, Index(v, pl[t].level);
            r in EntryRegions(ts, ts[t][i], level, pl[t].base + Offset(i, level)) <==>
            IsLeafRegion(LeafFrom(ts, t, level, v), v, r)
    decreases 4 - pl[t].level, 0
  {
    hide Regions;
    var level, i := pl[t].level, Index(v, pl[t].level);
    CoversIndex(pl[t], v);
    assert EntryOk(ts, pl, pl[t], i, ts[t][i]);
    if ts[t][i].TableRef(level).Some? {
      Child(pl[t], i);
      RegionsExact(ts, root, pl, ts[t][i].TableRef(level).value, v, 0, r);
    }
  }

  /** The iteration order lists every leaf exactly once, in strictly increasing order, and a page
      lies in a region exactly when its leaf is that region. */
  lemma AllRegionsExact(ts: Tables, root: nat, pl: Places, v: nat, r: MappedRegion)
    requires WellFormed(ts, root, pl) && v < PAGES && InRegion(r, v)
    ensures Ordered(AllRegions(ts, root), 0, PAGES)
    ensures r in AllRegions(ts, root) <==> IsLeafRegion(LeafAt(ts, root, v), v, r)
  {
    hide Regions;
    RegionsOrdered(ts, root, 0, 0, 0);
    RegionsExact(ts, root, pl, root, v, 0, r);
  }

  // ---- The iterator ----

  type Stack = seq<(nat, nat)>

  /** Frame `j` is a table of level `j` and an index into it; the entry there is the next table. */
  ghost predicate StackOk(ts: Tables, root: nat, pl: Places, stack: Stack) {
    && |stack| <= 4
    && (stack != [] ==> stack[0].0 == root)
    && (forall j :: 0 <= j < |stack| ==> stack[j].0 in pl && stack[j].0 in ts && pl[stack[j].0].level == j && stack[j].1 < 512)
    && (forall j :: 0 <= j < |stack| - 1 ==> ts[stack[j].0][stack[j].1].TableRef(j) == Some(stack[j + 1].0))
  }

  ghost function Top(stack: Stack): (nat, nat)
    requires stack != []
  {
    stack[|stack| - 1]
  }

  ghost function TopEntry(ts: Tables, root: nat, pl: Places, stack: Stack): Entry
    requires StackOk(ts, root, pl, stack) && stack != []
  {
    ts[Top(stack).0][Top(stack).1]
  }

  /** First page of the current entry. */
  ghost function StartPage(ts: Tables, root: nat, pl: Places, stack: Stack): nat
    requires StackOk(ts, root, pl, stack) && stack != []
  {
    pl[Top(stack).0].base + Offset(Top(stack).1, |stack| - 1)
  }

  /** The regions after the current entry. */
  ghost function RestAfter(ts: Tables, root: nat, pl: Places, stack: Stack): seq<MappedRegion>
    requires StackOk(ts, root, pl, stack)
  {
    if stack == [] then []
    else
      var n := |stack| - 1;
      Regions(ts, stack[n].0, n, pl[stack[n].0].base, stack[n].1 + 1) + RestAfter(ts, root, pl, stack[..n])
  }

  /** The regions the iterator has yet to yield. */
  ghost function Remaining(ts: Tables, root: nat, pl: Places, stack: Stack): seq<MappedRegion>
    requires StackOk(ts, root, pl, stack)
  {
    if stack == [] then []
    else EntryRegions(ts, TopEntry(ts, root, pl, stack), |stack| - 1, StartPage(ts, root, pl, stack))
         + RestAfter(ts, root, pl, stack)
  }

  /** The current entry is not a table. */
  ghost predicate Settled(ts: Tables, root: nat, pl: Places, stack: Stack)
    requires StackOk(ts, root, pl, stack)
  {
    stack != [] ==> TopEntry(ts, root, pl, stack).TableRef(|stack| - 1).None?
  }

  /** Going down into the table of the current entry, to index `i`. */
  lemma PushOk(ts: Tables, root: nat, pl: Places, stack: Stack, i: nat)
    requires WellFormed(ts, root, pl) && StackOk(ts, root, pl, stack) && stack != [] && i < 512
    requires TopEntry(ts, root, pl, stack).TableRef(|stack| - 1).Some?
    ensures var b := TopEntry(ts, root, pl, stack).TableRef(|stack| - 1).value;
            && StackOk(ts, root, pl, stack + [(b, i)])
            && StartPage(ts, root, pl, stack + [(b, i)]) == StartPage(ts, root, pl, stack) + Offset(i, |stack|)
            && b in pl && b in ts && |stack| <= 3 && pl[b].base == StartPage(ts, root, pl, stack)
  {
    hide PlacesOk;
    var n := |stack| - 1;
    assert EntryOk(ts, pl, pl[stack[n].0], stack[n].1, ts[stack[n].0][stack[n].1]);
  }

  /** The regions under entries `0..i` of a table. */
  ghost function Before(ts: Tables, t: nat, level: nat, base: nat, i: nat): seq<MappedRegion>
    requires level <= 3 && i <= 512 && t in ts
  {
    if i == 0 then [] else
      Before(ts, t, level, base, i - 1) + EntryRegions(ts, ts[t][i - 1], level, base + Offset(i - 1, level))
  }

  lemma {:induction false} BeforeSplits(ts: Tables, t: nat, level: nat, base: nat, i: nat)
    requires level <= 3 && i <= 512 && t in ts
    ensures Regions(ts, t, level, base, 0) == Before(ts, t, level, base, i) + Regions(ts, t, level, base, i)
    ensures Ordered(Before(ts, t, level, base, i), base, base + Offset(i, level))
    decreases i
  {
    hide Regions, EntryRegions;
    if i > 0 {
      BeforeSplits(ts, t, level, base, i - 1);
      RegionsSplit(ts, t, level, base, i - 1);
      EntryRegionsOrdered(ts, ts[t][i - 1], level, base + Offset(i - 1, level));
      OrderedConcat(Before(ts, t, level, base, i - 1), EntryRegions(ts, ts[t][i - 1], level, base + Offset(i - 1, level)),
                    base, base + Offset(i - 1, level), base + Offset(i, level));
    }
  }

  lemma Reassociate(a: seq<MappedRegion>, b: seq<MappedRegion>, c: seq<MappedRegion>, d: seq<MappedRegion>)
    ensures (a + (b + c)) + d == a + (b + (c + d))
  {
  }

  lemma RemainingPushed(ts: Tables, root: nat, pl: Places, stack: Stack, b: nat, i: nat)
    requires StackOk(ts, root, pl, stack) && StackOk(ts, root, pl, stack + [(b, i)])
    ensures b in ts && b in pl && i < 512 && |stack| <= 3
    ensures Remaining(ts, root, pl, stack + [(b, i)]) ==
            EntryRegions(ts, ts[b][i], |stack|, pl[b].base + Offset(i, |stack|))
            + (Regions(ts, b, |stack|, pl[b].base, i + 1) + RestAfter(ts, root, pl, stack))
  {
    hide Regions, EntryRegions;
    assert (stack + [(b, i)])[|stack|] == (b, i);
    assert (stack + [(b, i)])[..|stack|] == stack;
  }

  lemma RemainingTable(ts: Tables, root: nat, pl: Places, stack: Stack, b: nat)
    requires StackOk(ts, root, pl, stack) && stack != [] && |stack| <= 3
    requires TopEntry(ts, root, pl, stack).TableRef(|stack| - 1) == Some(b)
    ensures Remaining(ts, root, pl, stack) ==
            Regions(ts, b, |stack|, StartPage(ts, root, pl, stack), 0) + RestAfter(ts, root, pl, stack)
  {
    hide Regions;
  }

  /** What going down leaves behind: the regions before index `i` of the table. */
  lemma PushRemaining(ts: Tables, root: nat, pl: Places, stack: Stack, i: nat)
    requires WellFormed(ts, root, pl) && StackOk(ts, root, pl, stack) && stack != [] && i < 512
    requires TopEntry(ts, root, pl, stack).TableRef(|stack| - 1).Some?
    ensures var b := TopEntry(ts, root, pl, stack).TableRef(|stack| - 1).value;
            && StackOk(ts, root, pl, stack + [(b, i)]) && b in ts && b in pl && |stack| <= 3
            && Remaining(ts, root, pl, stack) ==
               Before(ts, b, |stack|, pl[b].base, i) + Remaining(ts, root, pl, stack + [(b, i)])
  {
    hide Regions, StackOk, WellFormed, Before, RestAfter, EntryRegions, TopEntry, StartPage, Remaining;
    PushOk(ts, root, pl, stack, i);
    var b := TopEntry(ts, root, pl, stack).TableRef(|stack| - 1).value;
    RemainingTable(ts, root, pl, stack, b);
    RemainingPushed(ts, root, pl, stack, b, i);
    BeforeSplits(ts, b, |stack|, pl[b].base, i);
    RegionsSplit(ts, b, |stack|, pl[b].base, i);
    Reassociate(Before(ts, b, |stack|, pl[b].base, i), EntryRegions(ts, ts[b][i], |stack|, pl[b].base + Offset(i, |stack|)),
                Regions(ts, b, |stack|, pl[b].base, i + 1), RestAfter(ts, root, pl, stack));
  }

  lemma StartPageBound(ts: Tables, root: nat, pl: Places, stack: Stack)
    requires WellFormed(ts, root, pl) && StackOk(ts, root, pl, stack) && stack != []
    ensures StartPage(ts, root, pl, stack) + Span(|stack| - 1) <= PAGES
  {
    assert pl[Top(stack).0].Valid();
  }

  /** Moving to the next index of the top table. */
  lemma Advance(ts: Tables, root: nat, pl: Places, stack: Stack)
    requires StackOk(ts, root, pl, stack) && stack != [] && Top(stack).1 + 1 < 512
    ensures var stack' := stack[|stack| - 1 := (Top(stack).0, Top(stack).1 + 1)];
            && StackOk(ts, root, pl, stack')
            && Remaining(ts, root, pl, stack') == RestAfter(ts, root, pl, stack)
            && StartPage(ts, root, pl, stack') == StartPage(ts, root, pl, stack) + Span(|stack| - 1)
  {
    hide Regions, EntryRegions;
    var n := |stack| - 1;
    var (t, i) := stack[n];
    var stack' := stack[n := (t, i + 1)];
    assert stack'[..n] == stack[..n];
    RegionsSplit(ts, t, n, pl[t].base, i + 1);
    AssocThree(EntryRegions(ts, ts[t][i + 1], n, pl[t].base + Offset(i + 1, n)), Regions(ts, t, n, pl[t].base, i + 2),
               RestAfter(ts, root, pl, stack[..n]));
  }

  lemma AssocThree(a: seq<MappedRegion>, b: seq<MappedRegion>, c: seq<MappedRegion>)
    ensures a + (b + c) == (a + b) + c
  {
  }

  /** Leaving a table after its last entry. */
  lemma Pop(ts: Tables, root: nat, pl: Places, stack: Stack)
    requires WellFormed(ts, root, pl) && StackOk(ts, root, pl, stack) && stack != [] && Top(stack).1 == 511
    ensures var rest := stack[..|stack| - 1];
            && StackOk(ts, root, pl, rest)
            && RestAfter(ts, root, pl, stack) == RestAfter(ts, root, pl, rest)
            && (rest != [] ==> StartPage(ts, root, pl, rest) + Span(|rest| - 1) == StartPage(ts, root, pl, stack) + Span(|stack| - 1))
  {
    hide PlacesOk, EntryRegions;
    var n := |stack| - 1;
    var rest := stack[..n];
    assert Regions(ts, stack[n].0, n, pl[stack[n].0].base, 512) == [];
    if n > 0 {
      assert EntryOk(ts, pl, pl[stack[n - 1].0], stack[n - 1].1, ts[stack[n - 1].0][stack[n - 1].1]);
    }
  }

  /** A valid entry that is not a table is a leaf. */
  lemma SettledLeaf(ts: Tables, root: nat, pl: Places, stack: Stack)
    requires WellFormed(ts, root, pl) && StackOk(ts, root, pl, stack) && stack != [] && Settled(ts, root, pl, stack)
    requires TopEntry(ts, root, pl, stack).valid
    ensures TopEntry(ts, root, pl, stack).BaseAddress(|stack| - 1).Some?
  {
    var (t, i) := Top(stack);
    assert EntryOk(ts, pl, pl[t], i, ts[t][i]);
  }

  /** The indices on the stack spell the first page of the current entry. */
  lemma {:induction false} StackSpells(ts: Tables, root: nat, pl: Places, stack: Stack)
    requires WellFormed(ts, root, pl) && StackOk(ts, root, pl, stack) && stack != []
    ensures StartPage(ts, root, pl, stack) ==
      Offset(stack[0].1, 0) + (if |stack| > 1 then Offset(stack[1].1, 1) else 0)
      + (if |stack| > 2 then Offset(stack[2].1, 2) else 0) + (if |stack| > 3 then Offset(stack[3].1, 3) else 0)
    decreases |stack|
  {
    hide PlacesOk;
    var n := |stack| - 1;
    if n > 0 {
      var rest := stack[..n];
      StackSpells(ts, root, pl, rest);
      assert EntryOk(ts, pl, pl[stack[n - 1].0], stack[n - 1].1, ts[stack[n - 1].0][stack[n - 1].1]);
    } else {
      assert PlacesOk(pl, root);
      RootPlace(pl, root);
    }
  }

  lemma RootPlace(pl: Places, root: nat)
    requires PlacesOk(pl, root)
    ensures root in pl && pl[root] == Place(0, 0)
  {
  }

  /** `current_va_from_stack`: indices of levels not on the stack count as zero. */
  function IndexAt(stack: Stack, j: nat): nat { if j < |stack| then stack[j].1 else 0 }

  function CurrentParts(tag: nat, stack: Stack): Parts {
    Parts(tag, IndexAt(stack, 0), IndexAt(stack, 1), IndexAt(stack, 2), IndexAt(stack, 3), 0)
  }

  lemma PartsPage(p: Parts)
    requires ValidParts(p) && p.offset == 0
    ensures FromParts(p).Some?
    ensures VirtualPage(FromParts(p).value) == Offset(p.l0, 0) + Offset(p.l1, 1) + Offset(p.l2, 2) + Offset(p.l3, 3)
  {
    hide FromParts;
    FromPartsComposes(p);
    var q := Offset(p.l0, 0) + Offset(p.l1, 1) + Offset(p.l2, 2) + Offset(p.l3, 3);
    assert Compose(p) / 4096 == p.tag * PAGES + q;
  }

  lemma CurrentPage(ts: Tables, root: nat, pl: Places, stack: Stack, tag: nat)
    requires WellFormed(ts, root, pl) && StackOk(ts, root, pl, stack) && stack != [] && tag <= 0xffff
    ensures FromParts(CurrentParts(tag, stack)).Some?
    ensures VirtualPage(FromParts(CurrentParts(tag, stack)).value) == StartPage(ts, root, pl, stack)
  {
    hide FromParts, WellFormed, VirtualPage;
    StackSpells(ts, root, pl, stack);
    PartsPage(CurrentParts(tag, stack));
  }

  /** Every region of a sequence ends at or before a page. */
  ghost predicate EndsBy(rs: seq<MappedRegion>, page: nat) {
    forall i :: 0 <= i < |rs| ==> rs[i].page + rs[i].pageCount <= page
  }

  lemma EmptyRest(ts: Tables, root: nat, pl: Places)
    requires StackOk(ts, root, pl, [])
    ensures Remaining(ts, root, pl, []) == RestAfter(ts, root, pl, []) == []
  {
  }

  ghost predicate Zeros(indices: seq<nat>) { forall i :: 0 <= i < |indices| ==> indices[i] == 0 }

  /** The frames above `from` take the given indices. */
  ghost predicate Along(from: Stack, stack: Stack, indices: seq<nat>) {
    && from <= stack && |stack| <= |from| + |indices| && (from == [] ==> stack == [])
    && (forall j :: |from| <= j < |stack| ==> stack[j].1 == indices[j - |from|])
  }

  /** Going down from `from` along the indices has led to `stack`, past the skipped regions. */
  ghost predicate Down(ts: Tables, root: nat, pl: Places, from: Stack, stack: Stack, indices: seq<nat>,
                       skipped: seq<MappedRegion>) {
    && StackOk(ts, root, pl, from) && StackOk(ts, root, pl, stack) && Along(from, stack, indices)
    && Remaining(ts, root, pl, from) == skipped + Remaining(ts, root, pl, stack)
    && (from != [] ==>
          && StartPage(ts, root, pl, from) <= StartPage(ts, root, pl, stack)
          && EndsBy(skipped, StartPage(ts, root, pl, stack)))
    && (Zeros(indices) ==> skipped == [] && (from != [] ==> StartPage(ts, root, pl, from) == StartPage(ts, root, pl, stack)))
  }

  lemma DownStarts(ts: Tables, root: nat, pl: Places, stack: Stack, indices: seq<nat>)
    requires StackOk(ts, root, pl, stack)
    ensures Down(ts, root, pl, stack, stack, indices, [])
  {
    hide Remaining, StartPage;
  }

  lemma AppendEnds(xs: seq<MappedRegion>, ys: seq<MappedRegion>, mid: nat, hi: nat)
    requires EndsBy(xs, mid) && EndsBy(ys, hi) && mid <= hi
    ensures EndsBy(xs + ys, hi)
  {
  }

  lemma AlongPush(from: Stack, stack: Stack, indices: seq<nat>, b: nat)
    requires Along(from, stack, indices) && stack != [] && |stack| < |from| + |indices|
    ensures Along(from, stack + [(b, indices[|stack| - |from|])], indices)
  {
  }

  lemma DownPush(ts: Tables, root: nat, pl: Places, from: Stack, stack: Stack, indices: seq<nat>,
                 skipped: seq<MappedRegion>)
    requires WellFormed(ts, root, pl) && Down(ts, root, pl, from, stack, indices, skipped)
    requires |from| + |indices| >= 4 && forall i :: 0 <= i < |indices| ==> indices[i] < 512
    requires stack != [] && TopEntry(ts, root, pl, stack).TableRef(|stack| - 1).Some?
    ensures |stack| <= 3 && |from| <= |stack|
    ensures var b := TopEntry(ts, root, pl, stack).TableRef(|stack| - 1).value;
            var i := indices[|stack| - |from|];
            b in ts && b in pl &&
            Down(ts, root, pl, from, stack + [(b, i)], indices, skipped + Before(ts, b, |stack|, pl[b].base, i))
  {
    hide WellFormed, Remaining, StartPage, Before, TopEntry, StackOk, Along, EndsBy, Ordered;
    PushOk(ts, root, pl, stack, 0);
    AlongLonger(from, stack, indices);
    var b := TopEntry(ts, root, pl, stack).TableRef(|stack| - 1).value;
    var i := indices[|stack| - |from|];
    PushOk(ts, root, pl, stack, i);
    AlongPush(from, stack, indices, b);
    PushRemaining(ts, root, pl, stack, i);
    BeforeEnds(ts, b, |stack|, pl[b].base, i);
    AppendEnds(skipped, Before(ts, b, |stack|, pl[b].base, i), StartPage(ts, root, pl, stack), StartPage(ts, root, pl, stack + [(b, i)]));
    AssocThree(skipped, Before(ts, b, |stack|, pl[b].base, i), Remaining(ts, root, pl, stack + [(b, i)]));
  }

  lemma AlongLonger(from: Stack, stack: Stack, indices: seq<nat>)
    requires Along(from, stack, indices)
    ensures |from| <= |stack| && (from == [] ==> stack == [])
  {
  }

  lemma BeforeEnds(ts: Tables, t: nat, level: nat, base: nat, i: nat)
    requires level <= 3 && i <= 512 && t in ts
    ensures EndsBy(Before(ts, t, level, base, i), base + Offset(i, level))
    ensures i == 0 ==> Before(ts, t, level, base, i) == []
  {
    hide Regions, EntryRegions;
    BeforeSplits(ts, t, level, base, i);
  }

  /** The regions that end after page `v`, given that the regions are in order. */
  ghost function EndingAfter(rs: seq<MappedRegion>, v: nat): seq<MappedRegion> {
    if rs == [] || rs[0].page + rs[0].pageCount > v then rs else EndingAfter(rs[1..], v)
  }

  lemma {:induction false} EndingAfterSplit(skipped: seq<MappedRegion>, rest: seq<MappedRegion>, v: nat)
    requires EndsBy(skipped, v) && (rest != [] ==> rest[0].page + rest[0].pageCount > v)
    ensures EndingAfter(skipped + rest, v) == rest
  {
    if skipped == [] {
      assert skipped + rest == rest;
    } else {
      assert (skipped + rest)[1..] == skipped[1..] + rest;
      EndingAfterSplit(skipped[1..], rest, v);
    }
  }

  /** What comes after the current entry starts behind it. */
  lemma {:induction false} RestAfterOrdered(ts: Tables, root: nat, pl: Places, stack: Stack)
    requires WellFormed(ts, root, pl) && StackOk(ts, root, pl, stack) && stack != []
    ensures StartPage(ts, root, pl, stack) + Span(|stack| - 1) <= PAGES
    ensures Ordered(RestAfter(ts, root, pl, stack), StartPage(ts, root, pl, stack) + Span(|stack| - 1), PAGES)
    decreases |stack|
  {
    hide Regions, PlacesOk, Ordered;
    var n := |stack| - 1;
    var (t, i) := stack[n];
    StartPageBound(ts, root, pl, stack);
    RegionsOrdered(ts, t, n, pl[t].base, i + 1);
    if n == 0 {
      RootPlaced(ts, root, pl);
      EmptyRest(ts, root, pl);
      assert stack[..0] == [];
      assert Regions(ts, t, n, pl[t].base, i + 1) + [] == Regions(ts, t, n, pl[t].base, i + 1);
    } else {
      var rest := stack[..n];
      RestAfterOrdered(ts, root, pl, rest);
      assert EntryOk(ts, pl, pl[stack[n - 1].0], stack[n - 1].1, ts[stack[n - 1].0][stack[n - 1].1]);
      OrderedConcat(Regions(ts, t, n, pl[t].base, i + 1), RestAfter(ts, root, pl, rest),
                    StartPage(ts, root, pl, stack) + Span(n), pl[t].base + Offset(512, n), PAGES);
    }
  }

  lemma RootPlaced(ts: Tables, root: nat, pl: Places)
    requires WellFormed(ts, root, pl)
    ensures pl[root] == Place(0, 0) && pl[root].base + Offset(512, 0) == PAGES
  {
  }

  /** A settled iterator at an entry that covers page `v` has the regions that end after `v` ahead. */
  lemma RestEndsAfter(ts: Tables, root: nat, pl: Places, stack: Stack, v: nat)
    requires WellFormed(ts, root, pl) && StackOk(ts, root, pl, stack) && stack != [] && Settled(ts, root, pl, stack)
    requires StartPage(ts, root, pl, stack) <= v < StartPage(ts, root, pl, stack) + Span(|stack| - 1)
    ensures var rest := Remaining(ts, root, pl, stack); rest != [] ==> rest[0].page + rest[0].pageCount > v
  {
    hide Regions, WellFormed, StackOk;
    RestAfterOrdered(ts, root, pl, stack);
  }

  /** The page that four indices spell. */
  function SpelledPage(indices: seq<nat>): nat
    requires |indices| == 4
  {
    Offset(indices[0], 0) + Offset(indices[1], 1) + Offset(indices[2], 2) + Offset(indices[3], 3)
  }

  lemma StartCovers(ts: Tables, root: nat, pl: Places, stack: Stack, indices: seq<nat>)
    requires WellFormed(ts, root, pl) && StackOk(ts, root, pl, stack) && stack != []
    requires |indices| == 4 && (forall i :: 0 <= i < 4 ==> indices[i] < 512)
    requires forall j :: 0 <= j < |stack| ==> stack[j].1 == indices[j]
    ensures StartPage(ts, root, pl, stack) <= SpelledPage(indices) < StartPage(ts, root, pl, stack) + Span(|stack| - 1)
  {
    hide WellFormed, StartPage;
    StackSpells(ts, root, pl, stack);
  }

  lemma RootStack(ts: Tables, root: nat, pl: Places, i: nat)
    requires WellFormed(ts, root, pl) && i < 512
    ensures root in ts && StackOk(ts, root, pl, [(root, i)])
    ensures StartPage(ts, root, pl, [(root, i)]) == Offset(i, 0)
  {
    hide EntryOk;
  }

  lemma RemainingAtRoot(ts: Tables, root: nat, pl: Places, i: nat)
    requires WellFormed(ts, root, pl) && i < 512 && StackOk(ts, root, pl, [(root, i)])
    ensures Remaining(ts, root, pl, [(root, i)]) == Regions(ts, root, 0, 0, i)
  {
    hide Regions, EntryRegions, EntryOk, PlacesOk;
    RootPlaced(ts, root, pl);
    RegionsSplit(ts, root, 0, 0, i);
    EmptyRest(ts, root, pl);
    RemainingPushed(ts, root, pl, [], root, i);
    assert [] + [(root, i)] == [(root, i)];
    var r := Regions(ts, root, 0, 0, i + 1);
    assert r + [] == r;
  }

  /** Everything before the start, and everything from there on. */
  lemma AllSplitsAtRoot(ts: Tables, root: nat, pl: Places, i: nat)
    requires WellFormed(ts, root, pl) && i < 512
    ensures root in ts && StackOk(ts, root, pl, [(root, i)])
    ensures AllRegions(ts, root) == Before(ts, root, 0, 0, i) + Remaining(ts, root, pl, [(root, i)])
    ensures EndsBy(Before(ts, root, 0, 0, i), Offset(i, 0))
  {
    hide Regions, EntryRegions, Before, WellFormed, StackOk, Remaining;
    RootStack(ts, root, pl, i);
    RemainingAtRoot(ts, root, pl, i);
    BeforeSplits(ts, root, 0, 0, i);
    BeforeEnds(ts, root, 0, 0, i);
  }

  /** Where `starting_at` arrives, the regions ahead are those that end after the start page. */
  lemma StartedAt(ts: Tables, root: nat, pl: Places, stack: Stack, indices: seq<nat>, skipped: seq<MappedRegion>)
    requires WellFormed(ts, root, pl) && |indices| == 4 && (forall i :: 0 <= i < 4 ==> indices[i] < 512)
    requires Down(ts, root, pl, [(root, indices[0])], stack, indices[1..], skipped) && Settled(ts, root, pl, stack)
    ensures Remaining(ts, root, pl, stack) == EndingAfter(AllRegions(ts, root), SpelledPage(indices))
  {
    hide WellFormed, StackOk, Regions, EntryRegions, Remaining, Before, StartPage, AllRegions, EndingAfter;
    AllSplitsAtRoot(ts, root, pl, indices[0]);
    assert forall j :: 0 <= j < |stack| ==> stack[j].1 == indices[j];
    StartCovers(ts, root, pl, stack, indices);
    RestEndsAfter(ts, root, pl, stack, SpelledPage(indices));
    var front := Before(ts, root, 0, 0, indices[0]);
    AppendEnds(front, skipped, Offset(indices[0], 0), SpelledPage(indices));
    EndingAfterSplit(front + skipped, Remaining(ts, root, pl, stack), SpelledPage(indices));
    AssocThree(front, skipped, Remaining(ts, root, pl, stack));
  }

  class PageTableIter {
    const tables: Tables
    const root: nat
    const tag: nat
    ghost const places: Places
    var stack: Stack

    ghost predicate Valid()
      reads this
    {
      WellFormed(tables, root, places) && StackOk(tables, root, places, stack) && tag <= 0xffff
    }

    /** Between calls the current entry is not a table. */
    ghost predicate Ready()
      reads this
    {
      Valid() && Settled(tables, root, places, stack)
    }

    ghost function Rest(): seq<MappedRegion>
      requires Valid() || Ready()
      reads this
    {
      Remaining(tables, root, places, stack)
    }

    /** `starting_at`: the regions ahead are those that end after the page the indices spell. */
    constructor StartingAt(pt: PageTable, indices: seq<nat>)
      requires pt.Valid() && |indices| == 4 && forall i :: 0 <= i < 4 ==> indices[i] < 512
      ensures Ready()
      ensures tables == pt.tables && root == pt.root && places == pt.places
      ensures Rest() == EndingAfter(AllRegions(pt.tables, pt.root), SpelledPage(indices))
    {
      tables := pt.tables;
      root := pt.root;
      places := pt.places;
      tag := if pt.high then 0xffff else 0;
      stack := [(pt.root, indices[0])];
      new;
      hide *;
      RootStack(tables, root, places, indices[0]);
      ghost var skipped := FollowTree(indices[1..]);
      StartedAt(tables, root, places, stack, indices, skipped);
    }

    /** Goes down while the current entry is a table, taking the given indices. */
    method FollowTree(indices: seq<nat>) returns (ghost skipped: seq<MappedRegion>)
      requires Valid() && (stack == [] || |stack| + |indices| >= 4)
      requires forall i :: 0 <= i < |indices| ==> indices[i] < 512
      modifies this`stack
      ensures Ready()
      ensures Down(tables, root, places, old(stack), stack, indices, skipped)
    {
      hide WellFormed, Remaining, StartPage, Before;
      var i := 0;
      skipped := [];
      DownStarts(tables, root, places, stack, indices);
      while stack != [] && tables[stack[|stack| - 1].0][stack[|stack| - 1].1].TableRef(|stack| - 1).Some?
        invariant Valid() && 0 <= i <= |indices| && |stack| == |old(stack)| + i
        invariant Down(tables, root, places, old(stack), stack, indices, skipped)
        decreases 4 - |stack|
      {
        var b := tables[stack[|stack| - 1].0][stack[|stack| - 1].1].TableRef(|stack| - 1).value;
        DownPush(tables, root, places, old(stack), stack, indices, skipped);
        skipped := skipped + Before(tables, b, |stack|, places[b].base, indices[i]);
        stack := stack + [(b, indices[i])];
        i := i + 1;
      }
    }

    /** Moves past the current entry. */
    method NextEntry()
      requires Valid()
      modifies this`stack
      ensures Ready()
      ensures Rest() == old(RestAfter(tables, root, places, stack))
      ensures stack != [] ==>
        && old(stack) != []
        && StartPage(tables, root, places, stack) >= old(StartPage(tables, root, places, stack)) + Span(|old(stack)| - 1)
      decreases |stack|
    {
      hide WellFormed, StartPage, Regions, EntryRegions, Remaining, RestAfter, EndsBy;
      if stack != [] {
        var n := |stack| - 1;
        var (table, index) := stack[n];
        if index + 1 >= 512 {
          Pop(tables, root, places, stack);
          stack := stack[..n];
          NextEntry();
        } else {
          Advance(tables, root, places, stack);
          stack := stack[n := (table, index + 1)];
        }
        ghost var skipped := FollowTree([0, 0, 0]);
      } else {
        EmptyRest(tables, root, places);
      }
    }

    /** `move_to_next_valid_map_entry`: skips invalid entries; no region is skipped. */
    method MoveToNextValidMapEntry()
      requires Ready()
      modifies this`stack
      ensures Ready()
      ensures Rest() == old(Rest())
      ensures stack != [] ==> TopEntry(tables, root, places, stack).valid
    {
      hide WellFormed, Before, Regions;
      while stack != [] && !tables[stack[|stack| - 1].0][stack[|stack| - 1].1].valid
        invariant Ready()
        invariant Rest() == old(Rest())
        decreases if stack == [] then 0 else PAGES - StartPage(tables, root, places, stack)
      {
        StartPageBound(tables, root, places, stack);
        NextEntry();
        if stack != [] { StartPageBound(tables, root, places, stack); }
      }
    }

    /** `Iterator::next`: yields the first of the remaining regions, or nothing if none is left.
        The mapping of a region is never missing. */
    method Next() returns (r: Option<MappedRegion>)
      requires Ready()
      modifies this`stack
      ensures Ready()
      ensures old(Rest()) == [] ==> r == None && Rest() == []
      ensures old(Rest()) != [] ==> r == Some(old(Rest())[0]) && Rest() == old(Rest())[1..]
    {
      hide WellFormed, Before, Regions, FromParts, VirtualPage;
      MoveToNextValidMapEntry();
      if stack == [] {
        return None;
      }
      var level := |stack| - 1;
      var entry := tables[stack[level].0][stack[level].1];
      SettledLeaf(tables, root, places, stack);
      CurrentPage(tables, root, places, stack, tag);
      r := Some(MappedRegion(VirtualPage(FromParts(CurrentParts(tag, stack)).value), entry.BaseAddress(level).value, Span(level)));
      NextEntry();
    }
  }

  lemma EverythingEndsAfterZero(ts: Tables, root: nat)
    ensures EndingAfter(AllRegions(ts, root), 0) == AllRegions(ts, root)
  {
    hide Regions;
    RegionsOrdered(ts, root, 0, 0, 0);
  }

  /** Running a fresh iterator to its end yields every region of the table, in order, and then
      nothing. */
  method Collect(pt: PageTable) returns (regions: seq<MappedRegion>)
    requires pt.Valid()
    ensures regions == AllRegions(pt.tables, pt.root)
  {
    hide *;
    var it := new PageTableIter.StartingAt(pt, [0, 0, 0, 0]);
    SpellsZero();
    EverythingEndsAfterZero(pt.tables, pt.root);
    regions := [];
    var r := it.Next();
    while r.Some?
      invariant it.Ready()
      invariant r.Some? ==> AllRegions(pt.tables, pt.root) == regions + [r.value] + it.Rest()
      invariant r.None? ==> AllRegions(pt.tables, pt.root) == regions
      decreases if r.None? then 0 else 1 + |it.Rest()|
    {
      regions := regions + [r.value];
      ghost var rest := it.Rest();
      r := it.Next();
      assert rest != [] ==> [rest[0]] + rest[1..] == rest;
    }
  }

  lemma SpellsZero()
    ensures SpelledPage([0, 0, 0, 0]) == 0
  {
  }
}
