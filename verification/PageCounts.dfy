/** How many pages an allocation takes, and how many free pages make it succeed. */
module PageCounts {
  import opened Addresses
  import opened PhysicalMemory
  import opened PageTableTree
  import opened PageTable
  import opened ProcessPages
  import opened LiveMemory
  import opened TableCounts

  ghost predicate FrameFree(bits: seq<bool>, base: nat, f: nat) { base <= f < base + |bits| && !bits[f - base] }

  ghost function FreeFrames(bits: seq<bool>, base: nat): set<nat> {
    set f: nat | f < base + |bits| && FrameFree(bits, base, f)
  }

  function FreeCount(bits: seq<bool>): nat {
    if bits == [] then 0 else FreeCount(bits[..|bits| - 1]) + if bits[|bits| - 1] then 0 else 1
  }

  lemma {:induction false} FreeFramesSize(bits: seq<bool>, base: nat)
    ensures |FreeFrames(bits, base)| == FreeCount(bits)
  {
    if bits == [] {
      assert FreeFrames(bits, base) == {};
    } else {
      var n := |bits| - 1;
      FreeFramesSize(bits[..n], base);
      forall f: nat ensures FrameFree(bits, base, f) <==> FrameFree(bits[..n], base, f) || (f == base + n && !bits[n]) {
      }
      assert FreeFrames(bits, base) == FreeFrames(bits[..n], base) + if bits[n] then {} else {base + n};
    }
  }

  lemma {:induction false} FrameSetSize(frames: seq<nat>)
    requires NoRepeats(frames)
    ensures |FrameSet(frames)| == |frames|
  {
    if frames == [] {
    } else {
      var front, last := frames[..|frames| - 1], frames[|frames| - 1];
      FrameSetSize(front);
      assert frames == front + [last];
      assert FrameSet(frames) == FrameSet(front) + {last};
    }
  }

  ghost function TableFrames(keys: set<nat>): set<nat> { set t | t in keys :: t / PAGE_SIZE }

  lemma {:induction false} TableFramesSize(keys: set<nat>)
    requires forall t :: t in keys ==> t % PAGE_SIZE == 0
    ensures |TableFrames(keys)| == |keys|
    decreases |keys|
  {
    if keys == {} {
    } else {
      var t :| t in keys;
      TableFramesSize(keys - {t});
      assert t / PAGE_SIZE !in TableFrames(keys - {t});
      forall f ensures f in TableFrames(keys) <==> f in TableFrames(keys - {t}) || f == t / PAGE_SIZE {
        if f in TableFrames(keys) {
          var u :| u in keys && u / PAGE_SIZE == f;
          assert u != t ==> u in keys - {t};
        }
        if f in TableFrames(keys - {t}) {
          var u :| u in keys - {t} && u / PAGE_SIZE == f;
          assert u in keys;
        }
      }
      assert TableFrames(keys) == TableFrames(keys - {t}) + {t / PAGE_SIZE};
    }
  }

  /** A page that was free is still free, or became a frame, or became a table. */
  lemma FreePage(g: Snapshot, ts: Tables, bits: seq<bool>, frames: seq<nat>, f: nat)
    requires Taking(g, ts, bits, frames) && TablesInUse(ts.Keys, bits, g.base * PAGE_SIZE)
    ensures var free, added := f in FreeFrames(bits, g.base), f in TableFrames(ts.Keys - g.before.Keys);
            && (f in FreeFrames(g.bits, g.base) <==> free || f in frames || added)
            && !(free && f in frames) && !(free && added) && !(f in frames && added)
  {
    hide Taking, TableFrames, TablesInUse;
    TakingLength(g, ts, bits, frames);
    TableFrame(ts.Keys, g.before.Keys, bits, g.base, f);
    if g.base <= f < g.base + |bits| { AccountPage(g, ts, bits, frames, f - g.base); }
    if f in frames { TakenFrame(g, ts, bits, frames, f); }
  }

  lemma FreePagesSplit(g: Snapshot, ts: Tables, bits: seq<bool>, frames: seq<nat>)
    requires Taking(g, ts, bits, frames) && TablesInUse(ts.Keys, bits, g.base * PAGE_SIZE)
    ensures var added := TableFrames(ts.Keys - g.before.Keys);
            && FreeFrames(g.bits, g.base) == FreeFrames(bits, g.base) + FrameSet(frames) + added
            && FreeFrames(bits, g.base) !! FrameSet(frames) && FreeFrames(bits, g.base) + FrameSet(frames) !! added
  {
    hide Taking, FreeFrames, TableFrames, TablesInUse;
    var added := TableFrames(ts.Keys - g.before.Keys);
    forall f: nat
      ensures f in FreeFrames(g.bits, g.base) <==> f in FreeFrames(bits, g.base) || f in FrameSet(frames) || f in added
      ensures !(f in FreeFrames(bits, g.base) && f in FrameSet(frames))
      ensures !(f in added && (f in FreeFrames(bits, g.base) || f in FrameSet(frames)))
    {
      FreePage(g, ts, bits, frames, f);
    }
  }

  lemma TableFrame(keys: set<nat>, keys0: set<nat>, bits: seq<bool>, base: nat, f: nat)
    requires TablesInUse(keys, bits, base * PAGE_SIZE)
    ensures f in TableFrames(keys - keys0) <==> f * PAGE_SIZE in keys - keys0
    ensures f in TableFrames(keys - keys0) ==> base <= f < base + |bits|
  {
    if f * PAGE_SIZE in keys - keys0 { assert f * PAGE_SIZE / PAGE_SIZE == f; }
    if f in TableFrames(keys - keys0) {
      var t :| t in keys - keys0 && t / PAGE_SIZE == f;
      assert (t - base * PAGE_SIZE) % PAGE_SIZE == 0 && t == f * PAGE_SIZE;
    }
  }

  /** Pages are conserved: what was free is still free, or is one of the frames, or holds a new table. */
  lemma PagesConserved(g: Snapshot, ts: Tables, bits: seq<bool>, frames: seq<nat>)
    requires Taking(g, ts, bits, frames) && TablesInUse(ts.Keys, bits, g.base * PAGE_SIZE)
    ensures FreeCount(g.bits) == FreeCount(bits) + |frames| + (|ts.Keys| - |g.before.Keys|)
  {
    hide Taking, FreeFrames, FrameSet, TableFrames, FreeCount, TablesInUse, NoRepeats;
    var keys := ts.Keys - g.before.Keys;
    FreePagesSplit(g, ts, bits, frames);
    FreeFramesSize(g.bits, g.base);
    FreeFramesSize(bits, g.base);
    TakingNoRepeats(g, ts, bits, frames);
    FrameSetSize(frames);
    TablesAligned(ts.Keys, g.before.Keys, bits, g.base);
    TableFramesSize(keys);
    DisjointSizes(FreeFrames(bits, g.base), FrameSet(frames), TableFrames(keys));
    SubsetSize(g.before.Keys, ts.Keys);
  }

  lemma DisjointSizes(a: set<nat>, b: set<nat>, c: set<nat>)
    requires a !! b && a + b !! c
    ensures |a + b + c| == |a| + |b| + |c|
  {
    assert |a + b| == |a| + |b|;
  }

  lemma SubsetSize(a: set<nat>, b: set<nat>)
    requires a <= b
    ensures |b - a| == |b| - |a|
  {
    assert b == (b - a) + a;
  }

  lemma TablesAligned(keys: set<nat>, keys0: set<nat>, bits: seq<bool>, base: nat)
    requires TablesInUse(keys, bits, base * PAGE_SIZE)
    ensures forall t :: t in keys - keys0 ==> t % PAGE_SIZE == 0
  {
  }

  lemma TakingNoRepeats(g: Snapshot, ts: Tables, bits: seq<bool>, frames: seq<nat>)
    requires Taking(g, ts, bits, frames)
    ensures NoRepeats(frames) && g.before.Keys <= ts.Keys
  {
  }

  lemma {:induction false} SuffixCount(bits: seq<bool>, s: nat)
    requires s <= |bits| && forall j :: 0 <= j < s ==> bits[j]
    ensures FreeCount(bits) <= |bits| - s
  {
    if s < |bits| { SuffixCount(bits[..|bits| - 1], s); } else if bits != [] { SuffixCount(bits[..|bits| - 1], s - 1); }
  }

  /** Memory is out of pages only if fewer pages are free than are needed. */
  lemma CannotServeCount(bits: seq<bool>, left: nat)
    requires !CanServe(bits, left) && 0 < left
    ensures FreeCount(bits) < left
  {
    hide FreeCount;
    if x: nat :| x < |bits| && !bits[x] {
      var s := FirstFreeUpTo(bits, x);
      assert !FreeRun(bits, s, left) && !UsedAfter(bits, s);
      SuffixCount(bits, s);
    } else {
      SuffixCount(bits, |bits|);
    }
  }

  lemma {:induction false} FirstFreeUpTo(bits: seq<bool>, x: nat) returns (s: nat)
    requires x < |bits| && !bits[x]
    ensures FirstFree(bits, s)
  {
    if j: nat :| j < x && !bits[j] {
      s := FirstFreeUpTo(bits, j);
    } else {
      s := x;
    }
  }

  /** An allocation that `try_alloc_contig` refuses: there were fewer free pages than frames and tables
      may be needed. */
  lemma RefusedCount(g: Snapshot, ts: Tables, bits: seq<bool>, frames: seq<nat>, pageCount: nat)
    requires Taking(g, ts, bits, frames) && TablesInUse(ts.Keys, bits, g.base * PAGE_SIZE)
    requires |frames| < pageCount && !CanServe(bits, pageCount - |frames|) && |ts| <= |g.before| + TablesNeeded(g.v0, pageCount)
    ensures FreeCount(g.bits) < pageCount + TablesNeeded(g.v0, pageCount)
  {
    hide Taking, TablesInUse, CanServe, FreeCount, TablesNeeded;
    PagesConserved(g, ts, bits, frames);
    CannotServeCount(bits, pageCount - |frames|);
  }

  /** An allocation that finds no page for a table: likewise. */
  lemma FullCount(g: Snapshot, ts: Tables, bits: seq<bool>, frames: seq<nat>, pageCount: nat)
    requires Taking(g, ts, bits, frames) && TablesInUse(ts.Keys, bits, g.base * PAGE_SIZE)
    requires |frames| <= pageCount && AllUsed(bits) && |ts| < |g.before| + TablesNeeded(g.v0, pageCount)
    ensures FreeCount(g.bits) < pageCount + TablesNeeded(g.v0, pageCount)
  {
    hide Taking, TablesInUse, FreeCount, AllUsed, TablesNeeded;
    PagesConserved(g, ts, bits, frames);
    AllUsedCount(bits);
  }

  lemma AllUsedCount(bits: seq<bool>)
    requires AllUsed(bits)
    ensures FreeCount(bits) == 0
  {
    SuffixCount(bits, |bits|);
  }

  /** The tables of a page table that has grown only for a range. */
  lemma TablesBound(ts: Tables, root: nat, pl: Places, pl0: Places, before: Tables, lo: nat, n: nat)
    requires WellFormed(ts, root, pl) && PlacesGrow(pl0, pl, lo, n) && before.Keys == pl0.Keys
    ensures |ts| <= |before| + TablesNeeded(lo, n)
    ensures TableMissing(pl, lo, n) ==> |ts| < |before| + TablesNeeded(lo, n)
  {
    hide PlacesGrow, TableMissing, TablesNeeded, PlacesOk;
    NewTablesBound(pl0, pl, root, lo, n);
    assert |ts.Keys| == |pl.Keys| && |before.Keys| == |pl0.Keys|;
  }
}
