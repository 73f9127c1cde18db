/** The memory a process holds: every allocation that has not been freed, by its first virtual page,
    with the physical frames behind its pages in order. */
module LiveMemory {
  import opened Wrappers
  import opened Addresses
  import opened VirtualRanges
  import opened PageTableTree
  import opened PageTable
  import opened ProcessPages

  type Live = map<nat, seq<nat>>

  /** Page `i` of an allocation maps to its frame by a leaf of the allocation; the frame is in use and
      holds no table. */
  ghost predicate PageHeld(ts: Tables, root: nat, bits: seq<bool>, base: nat, v0: nat, frames: seq<nat>, i: nat)
    requires i < |frames|
  {
    && Translate(ts, root, v0 + i) == Some(Mapping(frames[i], USER_OPTIONS))
    && LeafInside(ts, root, v0, v0 + |frames|, v0 + i)
    && base <= frames[i] < base + |bits| && bits[frames[i] - base]
    && frames[i] * PAGE_SIZE !in ts
  }

  ghost predicate Held(ts: Tables, root: nat, bits: seq<bool>, base: nat, v0: nat, frames: seq<nat>) {
    && 0 < |frames| && v0 + |frames| <= PAGES
    && forall i :: 0 <= i < |frames| ==> PageHeld(ts, root, bits, base, v0, frames, i)
  }

  predicate RangesApart(u: nat, n: nat, v: nat, m: nat) { n == 0 || m == 0 || u + n <= v || v + m <= u }

  predicate FramesApart(a: seq<nat>, b: seq<nat>) { forall f :: f in a ==> f !in b }

  predicate NoRepeats(a: seq<nat>) { forall i, j :: 0 <= i < j < |a| ==> a[i] != a[j] }

  /** No two allocations share a page or a frame, and none uses a frame twice. */
  ghost predicate Apart(live: Live) {
    && (forall v :: v in live ==> NoRepeats(live[v]))
    && forall u, v :: u in live && v in live && u != v ==>
      RangesApart(u, |live[u]|, v, |live[v]|) && FramesApart(live[u], live[v])
  }

  ghost predicate AllHeld(live: Live, ts: Tables, root: nat, bits: seq<bool>, base: nat) {
    forall v :: v in live ==> Held(ts, root, bits, base, v, live[v])
  }

  /** The addresses of live allocations are not free. */
  ghost predicate AllReserved(live: Live, list: seq<FreeBlock>) {
    forall v :: v in live ==> NotFree(list, v * PAGE_SIZE, |live[v]|)
  }

  ghost predicate LiveOk(live: Live, ts: Tables, root: nat, bits: seq<bool>, base: nat, list: seq<FreeBlock>) {
    Apart(live) && AllHeld(live, ts, root, bits, base) && AllReserved(live, list)
  }

  // ---- Allocating beside live allocations ----

  /** A range that was free shares no page with one that was not. */
  lemma FreeRangeApart(list: seq<FreeBlock>, u: nat, n: nat, v: nat, m: nat)
    requires NotFree(list, u * PAGE_SIZE, n) && forall a :: InPages(a, v * PAGE_SIZE, m) ==> IsFree(list, a)
    ensures RangesApart(u, n, v, m)
  {
    hide IsFree;
    var w := if u <= v then v else u;
    assert w < u + n ==> InPages(w * PAGE_SIZE, u * PAGE_SIZE, n);
    assert w < v + m ==> InPages(w * PAGE_SIZE, v * PAGE_SIZE, m);
  }

  /** What changed outside the pages and frames of an allocation leaves it as it was. */
  lemma HeldKept(before: Tables, ts: Tables, root: nat, bits: seq<bool>, bits': seq<bool>, base: nat, u: nat,
                 frames: seq<nat>)
    requires Held(before, root, bits, base, u, frames) && |bits'| == |bits|
    requires forall w: nat :: u <= w < u + |frames| ==> LeafAt(ts, root, w) == LeafAt(before, root, w)
    requires forall i :: 0 <= i < |bits| && bits[i] && base + i in frames ==>
      bits'[i] && (base + i) * PAGE_SIZE !in ts.Keys - before.Keys
    ensures Held(ts, root, bits', base, u, frames)
  {
    hide LeafAt;
    forall i | 0 <= i < |frames| ensures PageHeld(ts, root, bits', base, u, frames, i) {
      assert PageHeld(before, root, bits, base, u, frames, i);
      var k := frames[i] - base;
      assert bits[k] && base + k == frames[i];
    }
  }

  /** Taking free frames and mapping a free range keeps every live allocation. */
  lemma AllHeldKept(live: Live, g: Snapshot, ts: Tables, bits: seq<bool>, frames: seq<nat>, list: seq<FreeBlock>, n: nat)
    requires AllHeld(live, g.before, g.root, g.bits, g.base) && AllReserved(live, list)
    requires Taking(g, ts, bits, frames) && OutsideKept(g.before, ts, g.root, g.v0, n)
    requires forall a :: InPages(a, g.v0 * PAGE_SIZE, n) ==> IsFree(list, a)
    ensures AllHeld(live, ts, g.root, bits, g.base)
  {
    hide FramesTaken, FramesAreNotTables, IsFree, InPages, LeafAt, PageHeld, NotFree;
    forall u | u in live ensures Held(ts, g.root, bits, g.base, u, live[u]) {
      FreeRangeApart(list, u, |live[u]|, g.v0, n);
      assert Held(g.before, g.root, g.bits, g.base, u, live[u]);
      HeldKept(g.before, ts, g.root, g.bits, bits, g.base, u, live[u]);
    }
  }

  lemma StillReserved(live: Live, list: seq<FreeBlock>, list': seq<FreeBlock>, v: nat, n: nat)
    requires AllReserved(live, list) && Removed(list, list', v, n)
    ensures AllReserved(live, list')
  {
    hide IsFree, InPages;
    forall u | u in live ensures NotFree(list', u * PAGE_SIZE, |live[u]|) {
      assert NotFree(list, u * PAGE_SIZE, |live[u]|);
    }
  }

  /** A failed allocation keeps what is live. */
  lemma LiveKept(live: Live, g: Snapshot, ts: Tables, bits: seq<bool>, frames: seq<nat>,
                 list: seq<FreeBlock>, list': seq<FreeBlock>, n: nat)
    requires LiveOk(live, g.before, g.root, g.bits, g.base, list)
    requires Taking(g, ts, bits, frames) && OutsideKept(g.before, ts, g.root, g.v0, n)
    requires Removed(list, list', g.v0 * PAGE_SIZE, n)
    requires forall a :: InPages(a, g.v0 * PAGE_SIZE, n) ==> IsFree(list, a)
    ensures LiveOk(live, ts, g.root, bits, g.base, list')
  {
    hide *;
    LiveMeans(live, g.before, g.root, g.bits, g.base, list);
    AllHeldKept(live, g, ts, bits, frames, list, n);
    StillReserved(live, list, list', g.v0 * PAGE_SIZE, n);
    LiveIs(live, ts, g.root, bits, g.base, list');
  }

  lemma LiveMeans(live: Live, ts: Tables, root: nat, bits: seq<bool>, base: nat, list: seq<FreeBlock>)
    requires LiveOk(live, ts, root, bits, base, list)
    ensures Apart(live) && AllHeld(live, ts, root, bits, base) && AllReserved(live, list)
  {
  }

  lemma LiveIs(live: Live, ts: Tables, root: nat, bits: seq<bool>, base: nat, list: seq<FreeBlock>)
    requires Apart(live) && AllHeld(live, ts, root, bits, base) && AllReserved(live, list)
    ensures LiveOk(live, ts, root, bits, base, list)
  {
  }

  /** The pages that an allocation returns. */
  lemma NewHeld(g: Snapshot, ts: Tables, bits: seq<bool>, frames: seq<nat>)
    requires Allocating(g, ts, bits, frames) && 0 < |frames| && g.v0 + |frames| <= PAGES
    ensures Held(ts, g.root, bits, g.base, g.v0, frames) && NoRepeats(frames)
  {
    hide LeafInside, Translate, BitsExplained, TablesWereFree, LeafAt;
    forall i | 0 <= i < |frames| ensures PageHeld(ts, g.root, bits, g.base, g.v0, frames, i) {
      assert PageAllocated(g, ts, frames, g.v0 + i);
    }
  }

  /** New frames were free, so no live allocation has them. */
  lemma NewApart(live: Live, g: Snapshot, ts: Tables, bits: seq<bool>, frames: seq<nat>, list: seq<FreeBlock>)
    requires Apart(live) && AllHeld(live, g.before, g.root, g.bits, g.base) && AllReserved(live, list)
    requires Taking(g, ts, bits, frames) && NoRepeats(frames) && 0 < |frames|
    requires forall a :: InPages(a, g.v0 * PAGE_SIZE, |frames|) ==> IsFree(list, a)
    ensures g.v0 !in live && Apart(live[g.v0 := frames])
  {
    hide Taking, IsFree, InPages, NotFree, NoRepeats, LeafInside, Translate;
    forall u | u in live
      ensures RangesApart(u, |live[u]|, g.v0, |frames|) && FramesApart(live[u], frames)
      ensures FramesApart(frames, live[u]) && u != g.v0
    {
      FreeRangeApart(list, u, |live[u]|, g.v0, |frames|);
      assert Held(g.before, g.root, g.bits, g.base, u, live[u]);
      forall f | f in live[u] ensures f !in frames {
        var i :| 0 <= i < |live[u]| && live[u][i] == f;
        assert PageHeld(g.before, g.root, g.bits, g.base, u, live[u], i);
        if f in frames { TakenFrame(g, ts, bits, frames, f); }
      }
    }
  }

  /** A successful allocation joins the live ones. */
  lemma LiveGrows(live: Live, g: Snapshot, ts: Tables, bits: seq<bool>, frames: seq<nat>,
                  list: seq<FreeBlock>, list': seq<FreeBlock>)
    requires LiveOk(live, g.before, g.root, g.bits, g.base, list)
    requires Allocating(g, ts, bits, frames) && 0 < |frames| && g.v0 + |frames| <= PAGES
    requires OutsideKept(g.before, ts, g.root, g.v0, |frames|)
    requires Removed(list, list', g.v0 * PAGE_SIZE, |frames|)
    requires forall a :: InPages(a, g.v0 * PAGE_SIZE, |frames|) ==> IsFree(list, a)
    ensures g.v0 !in live && LiveOk(live[g.v0 := frames], ts, g.root, bits, g.base, list')
  {
    hide *;
    AllocatingMeans(g, ts, bits, frames);
    LiveMeans(live, g.before, g.root, g.bits, g.base, list);
    NewHeld(g, ts, bits, frames);
    NewApart(live, g, ts, bits, frames, list);
    AllHeldKept(live, g, ts, bits, frames, list, |frames|);
    StillReserved(live, list, list', g.v0 * PAGE_SIZE, |frames|);
    RemovedNotFree(list, list', g.v0 * PAGE_SIZE, |frames|);
    AddLive(live, ts, g.root, bits, g.base, list', g.v0, frames);
  }

  lemma AllocatingMeans(g: Snapshot, ts: Tables, bits: seq<bool>, frames: seq<nat>)
    requires Allocating(g, ts, bits, frames)
    ensures Taking(g, ts, bits, frames)
  {
  }

  lemma AddLive(live: Live, ts: Tables, root: nat, bits: seq<bool>, base: nat, list: seq<FreeBlock>, v0: nat,
                frames: seq<nat>)
    requires AllHeld(live, ts, root, bits, base) && AllReserved(live, list) && Apart(live[v0 := frames])
    requires Held(ts, root, bits, base, v0, frames) && forall a :: InPages(a, v0 * PAGE_SIZE, |frames|) ==> !IsFree(list, a)
    ensures LiveOk(live[v0 := frames], ts, root, bits, base, list)
  {
    hide Held, IsFree, InPages, Apart;
  }

  // ---- Freeing beside live allocations ----

  /** A live allocation is tiled by its own leaves, and its frames are data. */
  lemma HeldIsTiled(ts: Tables, root: nat, bits: seq<bool>, base: nat, v0: nat, frames: seq<nat>)
    requires Held(ts, root, bits, base, v0, frames)
    ensures RangeTiled(ts, root, v0, v0 + |frames|) && DataFrames(ts, root, v0, v0 + |frames|, base, |bits|)
  {
    hide LeafInside, Translate;
    var hi := v0 + |frames|;
    forall w: nat | v0 <= w < hi ensures LeafInside(ts, root, v0, hi, w) {
      assert PageHeld(ts, root, bits, base, v0, frames, w - v0);
    }
    forall w: nat | v0 <= w < v0 + |frames| && Translate(ts, root, w).Some?
      ensures var f := Translate(ts, root, w).value.frame;
              base <= f < base + |bits| && f * PAGE_SIZE !in ts
    {
      assert PageHeld(ts, root, bits, base, v0, frames, w - v0);
    }
  }

  lemma HeldMapsTo(ts: Tables, root: nat, bits: seq<bool>, base: nat, v0: nat, frames: seq<nat>, f: nat)
    requires Held(ts, root, bits, base, v0, frames)
    ensures MapsTo(ts, root, v0, v0 + |frames|, f) <==> f in frames
  {
    hide LeafInside, Translate;
    if f in frames {
      var i :| 0 <= i < |frames| && frames[i] == f;
      assert PageHeld(ts, root, bits, base, v0, frames, i);
      assert Translate(ts, root, v0 + i).value.frame == f;
    }
    if MapsTo(ts, root, v0, v0 + |frames|, f) {
      var w: nat :| v0 <= w < v0 + |frames| && Translate(ts, root, w).Some? && Translate(ts, root, w).value.frame == f;
      assert PageHeld(ts, root, bits, base, v0, frames, w - v0);
    }
  }

  /** The allocation has no page in the range, and no page of the range maps to one of its frames. */
  ghost predicate Untouched(ts: Tables, root: nat, lo: nat, n: nat, u: nat, frames: seq<nat>) {
    RangesApart(u, |frames|, lo, n) && forall f :: f in frames ==> !MapsTo(ts, root, lo, lo + n, f)
  }

  /** The allocations that freeing a range leaves alone. */
  ghost function Remaining(live: Live, ts: Tables, root: nat, lo: nat, n: nat): (r: Live)
    ensures r.Keys <= live.Keys
    ensures forall u :: u in r ==> r[u] == live[u] && Untouched(ts, root, lo, n, u, live[u])
  {
    map u | u in live && Untouched(ts, root, lo, n, u, live[u]) :: live[u]
  }

  lemma RemainingHeld(live: Live, before: Tables, ts: Tables, root: nat, bits: seq<bool>, bits': seq<bool>,
                      base: nat, lo: nat, n: nat)
    requires AllHeld(live, before, root, bits, base) && before.Keys == ts.Keys
    requires RangeCleared(before, ts, root, lo, lo + n) && RangeFreed(before, root, bits, bits', base, lo, lo + n)
    ensures AllHeld(Remaining(live, before, root, lo, n), ts, root, bits', base)
  {
    hide LeafAt, MapsTo, PageHeld;
    var rest := Remaining(live, before, root, lo, n);
    forall u | u in rest ensures Held(ts, root, bits', base, u, rest[u]) {
      assert Held(before, root, bits, base, u, live[u]) && Untouched(before, root, lo, n, u, live[u]);
      HeldKept(before, ts, root, bits, bits', base, u, live[u]);
    }
  }

  lemma RemainingReserved(live: Live, ts: Tables, root: nat, list: seq<FreeBlock>, list': seq<FreeBlock>, lo: nat, n: nat)
    requires AllReserved(live, list) && Added(list, list', lo * PAGE_SIZE, n)
    ensures AllReserved(Remaining(live, ts, root, lo, n), list')
  {
    hide IsFree, MapsTo;
    var rest := Remaining(live, ts, root, lo, n);
    forall u | u in rest ensures NotFree(list', u * PAGE_SIZE, |rest[u]|) {
      assert NotFree(list, u * PAGE_SIZE, |live[u]|) && Untouched(ts, root, lo, n, u, live[u]);
    }
  }

  lemma RemainingApart(live: Live, ts: Tables, root: nat, lo: nat, n: nat)
    requires Apart(live)
    ensures Apart(Remaining(live, ts, root, lo, n))
  {
    hide NoRepeats, Untouched, FramesApart;
  }

  /** Freeing a range keeps every allocation it does not touch. */
  lemma LiveShrinks(live: Live, before: Tables, ts: Tables, root: nat, bits: seq<bool>, bits': seq<bool>, base: nat,
                    list: seq<FreeBlock>, list': seq<FreeBlock>, lo: nat, n: nat)
    requires LiveOk(live, before, root, bits, base, list) && before.Keys == ts.Keys
    requires RangeCleared(before, ts, root, lo, lo + n) && RangeFreed(before, root, bits, bits', base, lo, lo + n)
    requires Added(list, list', lo * PAGE_SIZE, n)
    ensures LiveOk(Remaining(live, before, root, lo, n), ts, root, bits', base, list')
  {
    hide *;
    LiveMeans(live, before, root, bits, base, list);
    RemainingApart(live, before, root, lo, n);
    RemainingHeld(live, before, ts, root, bits, bits', base, lo, n);
    RemainingReserved(live, before, root, list, list', lo, n);
    LiveIs(Remaining(live, before, root, lo, n), ts, root, bits', base, list');
  }

  /** Freeing a live allocation ends that one and touches no other. */
  lemma OthersRemain(live: Live, ts: Tables, root: nat, bits: seq<bool>, base: nat, v0: nat)
    requires Apart(live) && AllHeld(live, ts, root, bits, base) && v0 in live
    ensures Remaining(live, ts, root, v0, |live[v0]|) == live - {v0}
  {
    hide Held, MapsTo, NoRepeats;
    forall u | u in live ensures Untouched(ts, root, v0, |live[v0]|, u, live[u]) <==> u != v0 {
      assert Held(ts, root, bits, base, v0, live[v0]);
      HeldNotEmpty(ts, root, bits, base, v0, live[v0]);
      forall f ensures MapsTo(ts, root, v0, v0 + |live[v0]|, f) <==> f in live[v0] {
        HeldMapsTo(ts, root, bits, base, v0, live[v0], f);
      }
    }
  }

  lemma HeldNotEmpty(ts: Tables, root: nat, bits: seq<bool>, base: nat, v0: nat, frames: seq<nat>)
    requires Held(ts, root, bits, base, v0, frames)
    ensures 0 < |frames| && v0 + |frames| <= PAGES
  {
  }

  /** The frames freed with a live allocation are its own. */
  lemma OwnFramesFreed(ts: Tables, root: nat, bits: seq<bool>, bits': seq<bool>, base: nat, v0: nat, frames: seq<nat>)
    requires Held(ts, root, bits, base, v0, frames) && RangeFreed(ts, root, bits, bits', base, v0, v0 + |frames|)
    ensures FramesReturned(bits, bits', base, frames)
  {
    hide Held, MapsTo;
    forall i | 0 <= i < |bits| ensures bits'[i] <==> bits[i] && base + i !in frames {
      HeldMapsTo(ts, root, bits, base, v0, frames, base + i);
    }
  }

  // ---- Where every page in use belongs ----

  ghost predicate InLive(live: Live, f: nat) { exists v :: v in live && f in live[v] }

  /** Page `i` is in use if it belongs to others, to a live allocation, to a table or to what failed
      allocations lost, and it belongs to one of them only. */
  ghost predicate PageAccounted(other: seq<bool>, bits: seq<bool>, base: nat, live: Live, keys: set<nat>,
                                leaked: set<nat>, i: nat)
    requires i < |other| == |bits|
  {
    var f := base + i;
    && (bits[i] <==> other[i] || InLive(live, f) || f * PAGE_SIZE in keys || f in leaked)
    && (other[i] ==> !InLive(live, f) && f * PAGE_SIZE !in keys && f !in leaked)
    && (InLive(live, f) ==> f * PAGE_SIZE !in keys && f !in leaked)
    && (f * PAGE_SIZE in keys ==> f !in leaked)
  }

  ghost predicate Accounted(other: seq<bool>, bits: seq<bool>, base: nat, live: Live, keys: set<nat>, leaked: set<nat>) {
    |other| == |bits| && forall i :: 0 <= i < |bits| ==> PageAccounted(other, bits, base, live, keys, leaked, i)
  }

  /** What is in use and is neither live nor a table. */
  ghost function Others(bits: seq<bool>, base: nat, live: Live, keys: set<nat>): (r: seq<bool>)
    ensures |r| == |bits|
    ensures forall i :: 0 <= i < |bits| ==> (r[i] <==> bits[i] && !InLive(live, base + i) && (base + i) * PAGE_SIZE !in keys)
  {
    seq(|bits|, i requires 0 <= i < |bits| => bits[i] && !InLive(live, base + i) && (base + i) * PAGE_SIZE !in keys)
  }

  lemma AccountStarts(ts: Tables, root: nat, bits: seq<bool>, base: nat, live: Live)
    requires AllHeld(live, ts, root, bits, base) && TablesInUse(ts.Keys, bits, base * PAGE_SIZE)
    ensures Accounted(Others(bits, base, live, ts.Keys), bits, base, live, ts.Keys, {})
  {
    hide InLive, Translate, LeafInside;
    forall i | 0 <= i < |bits| ensures PageAccounted(Others(bits, base, live, ts.Keys), bits, base, live, ts.Keys, {}, i) {
      if InLive(live, base + i) { LiveFrame(ts, root, bits, base, live, base + i); }
      assert ((base + i) * PAGE_SIZE - base * PAGE_SIZE) / PAGE_SIZE == i;
    }
  }

  lemma LiveFrame(ts: Tables, root: nat, bits: seq<bool>, base: nat, live: Live, f: nat)
    requires AllHeld(live, ts, root, bits, base) && InLive(live, f)
    ensures base <= f < base + |bits| && bits[f - base] && f * PAGE_SIZE !in ts
  {
    hide Translate, LeafInside;
    var v :| v in live && f in live[v];
    assert Held(ts, root, bits, base, v, live[v]);
    var i :| 0 <= i < |live[v]| && live[v][i] == f;
    assert PageHeld(ts, root, bits, base, v, live[v], i);
  }

  lemma InLiveAdded(live: Live, v0: nat, frames: seq<nat>, f: nat)
    requires v0 !in live
    ensures InLive(live[v0 := frames], f) <==> InLive(live, f) || f in frames
  {
    var more := live[v0 := frames];
    if InLive(live, f) {
      var v :| v in live && f in live[v];
      assert v in more && f in more[v];
    }
    if f in frames { assert v0 in more && f in more[v0]; }
  }

  lemma InLiveDropped(live: Live, v0: nat, f: nat)
    requires Apart(live) && v0 in live
    ensures InLive(live - {v0}, f) <==> InLive(live, f) && f !in live[v0]
  {
    hide RangesApart, NoRepeats;
    if InLive(live, f) && f !in live[v0] {
      var v :| v in live && f in live[v];
      assert v in live - {v0} && f in (live - {v0})[v];
    }
    if InLive(live - {v0}, f) {
      var v :| v in live - {v0} && f in (live - {v0})[v];
      assert v in live && f in live[v] && FramesApart(live[v], live[v0]);
    }
  }

  lemma AccountPage(g: Snapshot, ts: Tables, bits: seq<bool>, frames: seq<nat>, i: nat)
    requires Taking(g, ts, bits, frames) && i < |bits|
    ensures |bits| == |g.bits|
    ensures bits[i] <==> g.bits[i] || g.base + i in frames || (g.base + i) * PAGE_SIZE in ts.Keys - g.before.Keys
    ensures (g.base + i) * PAGE_SIZE in ts.Keys - g.before.Keys ==> !g.bits[i]
    ensures g.base + i in frames ==> !g.bits[i] && (g.base + i) * PAGE_SIZE !in ts.Keys
    ensures g.before.Keys <= ts.Keys
  {
    hide FramesTaken, FramesAreNotTables;
    if g.base + i in frames { TakenFrame(g, ts, bits, frames, g.base + i); }
  }

  /** Frames of a successful allocation become live. */
  lemma AccountAlloc(other: seq<bool>, live: Live, leaked: set<nat>, g: Snapshot, ts: Tables, bits: seq<bool>,
                     frames: seq<nat>)
    requires Accounted(other, g.bits, g.base, live, g.before.Keys, leaked)
    requires Taking(g, ts, bits, frames) && g.v0 !in live
    ensures Accounted(other, bits, g.base, live[g.v0 := frames], ts.Keys, leaked)
  {
    hide Taking, InLive;
    TakingLength(g, ts, bits, frames);
    var live' := live[g.v0 := frames];
    forall i | 0 <= i < |bits| ensures PageAccounted(other, bits, g.base, live', ts.Keys, leaked, i) {
      AccountPage(g, ts, bits, frames, i);
      InLiveAdded(live, g.v0, frames, g.base + i);
      assert PageAccounted(other, g.bits, g.base, live, g.before.Keys, leaked, i);
    }
  }

  lemma TakingLength(g: Snapshot, ts: Tables, bits: seq<bool>, frames: seq<nat>)
    requires Taking(g, ts, bits, frames)
    ensures |bits| == |g.bits|
  {
  }

  ghost function FrameSet(frames: seq<nat>): set<nat> { set f | f in frames }

  /** Frames of a failed allocation are lost. */
  lemma AccountLeak(other: seq<bool>, live: Live, leaked: set<nat>, g: Snapshot, ts: Tables, bits: seq<bool>,
                    frames: seq<nat>)
    requires Accounted(other, g.bits, g.base, live, g.before.Keys, leaked) && Taking(g, ts, bits, frames)
    ensures Accounted(other, bits, g.base, live, ts.Keys, leaked + FrameSet(frames))
  {
    hide Taking, InLive;
    TakingLength(g, ts, bits, frames);
    forall i | 0 <= i < |bits| ensures PageAccounted(other, bits, g.base, live, ts.Keys, leaked + FrameSet(frames), i) {
      AccountPage(g, ts, bits, frames, i);
      assert PageAccounted(other, g.bits, g.base, live, g.before.Keys, leaked, i);
    }
  }

  /** Freeing a live allocation takes its frames out of the account. */
  lemma AccountFree(other: seq<bool>, bits: seq<bool>, bits': seq<bool>, base: nat, live: Live, keys: set<nat>,
                    leaked: set<nat>, v0: nat)
    requires Accounted(other, bits, base, live, keys, leaked) && Apart(live) && v0 in live
    requires FramesReturned(bits, bits', base, live[v0])
    ensures Accounted(other, bits', base, live - {v0}, keys, leaked)
  {
    hide InLive, Apart;
    forall i | 0 <= i < |bits| ensures PageAccounted(other, bits', base, live - {v0}, keys, leaked, i) {
      InLiveDropped(live, v0, base + i);
      assert PageAccounted(other, bits, base, live, keys, leaked, i);
      if base + i in live[v0] { LiveHas(live, v0, base + i); }
    }
  }

  lemma LiveHas(live: Live, v0: nat, f: nat)
    requires v0 in live && f in live[v0]
    ensures InLive(live, f)
  {
  }
}
