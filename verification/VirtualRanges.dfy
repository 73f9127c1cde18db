/** The allocator of virtual address ranges: a list of free blocks, not necessarily sorted.
    Addresses are in bytes, sizes in pages; blocks end below the top of the address space. */
module VirtualRanges {
  import opened Addresses
  import opened PhysicalMemory

  datatype FreeBlock = FreeBlock(address: nat, size: nat)
  {
    function End(): nat { address + PAGE_SIZE * size }

    predicate Contains(a: int) { address <= a < End() }
  }

  ghost predicate IsFree(list: seq<FreeBlock>, a: int) {
    exists i :: 0 <= i < |list| && list[i].Contains(a)
  }

  /** No address is in two blocks. */
  ghost predicate Disjoint(list: seq<FreeBlock>) {
    forall i, j, a :: 0 <= i < j < |list| && list[i].Contains(a) ==> !list[j].Contains(a)
  }

  ghost predicate Aligned(list: seq<FreeBlock>) {
    forall i :: 0 <= i < |list| ==> list[i].address % PAGE_SIZE == 0
  }

  ghost predicate Sorted(list: seq<FreeBlock>) {
    forall i, j :: 0 <= i < j < |list| ==> list[i].End() <= list[j].address
  }

  predicate InPages(a: int, start: nat, pages: nat) { start <= a < start + PAGE_SIZE * pages }

  /** `after` is free exactly where `before` was, without the range. */
  ghost predicate Removed(before: seq<FreeBlock>, after: seq<FreeBlock>, start: nat, pages: nat) {
    forall a :: IsFree(after, a) <==> IsFree(before, a) && !InPages(a, start, pages)
  }

  /** `after` is free exactly where `before` was, and in the range. */
  ghost predicate Added(before: seq<FreeBlock>, after: seq<FreeBlock>, start: nat, pages: nat) {
    forall a :: IsFree(after, a) <==> IsFree(before, a) || InPages(a, start, pages)
  }

  lemma FreeAt(list: seq<FreeBlock>, i: nat, a: int)
    requires i < |list| && list[i].Contains(a)
    ensures IsFree(list, a)
  {
  }

  /** Replacing block `k` by a part of it frees exactly the rest less. */
  lemma Shrink(list: seq<FreeBlock>, k: nat, b: FreeBlock)
    requires k < |list| && Disjoint(list)
    requires forall a :: b.Contains(a) ==> list[k].Contains(a)
    ensures Disjoint(list[k := b])
    ensures forall a :: IsFree(list[k := b], a) <==> IsFree(list, a) && (list[k].Contains(a) ==> b.Contains(a))
  {
    var after := list[k := b];
    forall a ensures IsFree(after, a) <==> IsFree(list, a) && (list[k].Contains(a) ==> b.Contains(a)) {
      if IsFree(after, a) {
        var i :| 0 <= i < |after| && after[i].Contains(a);
        assert list[i].Contains(a);
        if i != k && list[k].Contains(a) { assert false; }
      }
      if IsFree(list, a) && (list[k].Contains(a) ==> b.Contains(a)) {
        var i :| 0 <= i < |list| && list[i].Contains(a);
        assert after[i].Contains(a);
      }
    }
  }

  lemma RemoveBlock(list: seq<FreeBlock>, k: nat)
    requires k < |list| && Disjoint(list)
    ensures Disjoint(list[..k] + list[k + 1..])
    ensures forall a :: IsFree(list[..k] + list[k + 1..], a) <==> IsFree(list, a) && !list[k].Contains(a)
  {
    var after := list[..k] + list[k + 1..];
    forall a ensures IsFree(after, a) <==> IsFree(list, a) && !list[k].Contains(a) {
      if IsFree(after, a) {
        var i :| 0 <= i < |after| && after[i].Contains(a);
        FreeAt(list, if i < k then i else i + 1, a);
        assert !list[k].Contains(a);
      }
      if IsFree(list, a) && !list[k].Contains(a) {
        var i :| 0 <= i < |list| && list[i].Contains(a);
        FreeAt(after, if i < k then i else i - 1, a);
      }
    }
  }

  /** No address of the range is free. */
  ghost predicate NotFree(list: seq<FreeBlock>, start: nat, pages: nat) {
    forall a :: InPages(a, start, pages) ==> !IsFree(list, a)
  }

  /** Replacing block `k` by one that also covers an adjacent range. */
  lemma Grow(list: seq<FreeBlock>, k: nat, b: FreeBlock, start: nat, pages: nat)
    requires k < |list| && Disjoint(list)
    requires forall a :: b.Contains(a) <==> list[k].Contains(a) || InPages(a, start, pages)
    requires forall a :: InPages(a, start, pages) ==> !list[k].Contains(a)
    ensures Added(list, list[k := b], start, pages)
    ensures Disjoint(list[k := b]) <==> NotFree(list, start, pages)
  {
    var after := list[k := b];
    forall a ensures IsFree(after, a) <==> IsFree(list, a) || InPages(a, start, pages) {
      if IsFree(after, a) {
        var i :| 0 <= i < |after| && after[i].Contains(a);
        assert list[i].Contains(a) || i == k;
      }
      if IsFree(list, a) {
        var i :| 0 <= i < |list| && list[i].Contains(a);
        assert after[i].Contains(a);
      }
      if InPages(a, start, pages) { assert after[k].Contains(a); }
    }
    if NotFree(list, start, pages) {
      forall i, j, a | 0 <= i < j < |after| && after[i].Contains(a) ensures !after[j].Contains(a) {
        assert InPages(a, start, pages) ==> !list[i].Contains(a) && !list[j].Contains(a);
      }
    }
    if Disjoint(after) {
      forall a | InPages(a, start, pages) ensures !IsFree(list, a) {
        assert after[k].Contains(a);
        forall i | 0 <= i < |list| ensures !list[i].Contains(a) {
          assert i != k ==> after[i] == list[i];
        }
      }
    }
  }

  lemma Append(list: seq<FreeBlock>, start: nat, pages: nat)
    requires Disjoint(list)
    ensures Added(list, list + [FreeBlock(start, pages)], start, pages)
    ensures Disjoint(list + [FreeBlock(start, pages)]) <==> NotFree(list, start, pages)
  {
    var b := FreeBlock(start, pages);
    var after := list + [b];
    assert forall a :: b.Contains(a) <==> InPages(a, start, pages);
    forall a ensures IsFree(after, a) <==> IsFree(list, a) || b.Contains(a) {
      if IsFree(list, a) {
        var i :| 0 <= i < |list| && list[i].Contains(a);
        assert after[i].Contains(a);
      }
      if b.Contains(a) { assert after[|list|].Contains(a); }
    }
    if NotFree(list, start, pages) {
      forall i, j, a | 0 <= i < j < |after| && after[i].Contains(a) ensures !after[j].Contains(a) {
        if j == |list| { FreeAt(list, i, a); }
      }
    }
    if Disjoint(after) {
      forall a | InPages(a, start, pages) ensures !IsFree(list, a) {
        assert after[|list|].Contains(a);
        forall i | 0 <= i < |list| ensures !list[i].Contains(a) {
          assert after[i] == list[i];
        }
      }
    }
  }

  lemma InsertAfter(list: seq<FreeBlock>, k: nat, b: FreeBlock)
    requires k < |list| && Disjoint(list)
    requires forall a :: b.Contains(a) ==> !IsFree(list, a)
    ensures Disjoint(list[..k + 1] + [b] + list[k + 1..])
    ensures forall a :: IsFree(list[..k + 1] + [b] + list[k + 1..], a) <==> IsFree(list, a) || b.Contains(a)
  {
    var after := list[..k + 1] + [b] + list[k + 1..];
    forall i, j, a | 0 <= i < j < |after| && after[i].Contains(a) ensures !after[j].Contains(a) {
      if j == k + 1 { FreeAt(list, i, a); }
      if i == k + 1 { assert after[j] == list[j - 1]; }
    }
    forall a ensures IsFree(after, a) <==> IsFree(list, a) || b.Contains(a) {
      if IsFree(after, a) {
        var i :| 0 <= i < |after| && after[i].Contains(a);
        if i != k + 1 { FreeAt(list, if i <= k then i else i - 1, a); }
      }
      if IsFree(list, a) {
        var i :| 0 <= i < |list| && list[i].Contains(a);
        FreeAt(after, if i <= k then i else i + 1, a);
      }
      if b.Contains(a) { FreeAt(after, k + 1, a); }
    }
  }

  /** The block whose front part `[block.address, block.address + PAGE_SIZE * pages)` is
      reserved, moved by `pages` bytes. */
  lemma ReserveFront(list: seq<FreeBlock>, k: nat, pages: nat)
    requires k < |list| && Disjoint(list) && pages < list[k].size
    ensures var start := list[k].address;
            Disjoint(list[k := FreeBlock(start + pages, list[k].size - pages)])
    ensures var start := list[k].address;
            var after := list[k := FreeBlock(start + pages, list[k].size - pages)];
            Removed(list, after, start, pages) <==> pages == 0
  {
    var start := list[k].address;
    var rest := FreeBlock(start + pages, list[k].size - pages);
    Shrink(list, k, rest);
    var after := list[k := rest];
    if pages > 0 {
      FreeAt(after, k, start + pages);
      assert InPages(start + pages, start, pages);
    }
  }

  lemma ReserveBack(list: seq<FreeBlock>, k: nat, start: nat, pages: nat)
    requires k < |list| && Disjoint(list) && list[k].address < start
    requires start + PAGE_SIZE * pages == list[k].End()
    ensures pages <= list[k].size
    ensures Disjoint(list[k := FreeBlock(list[k].address, list[k].size - pages)])
    ensures Removed(list, list[k := FreeBlock(list[k].address, list[k].size - pages)], start, pages)
  {
    var rest := FreeBlock(list[k].address, list[k].size - pages);
    Shrink(list, k, rest);
  }

  lemma WholePages(a: nat, b: nat)
    requires a <= b && a % PAGE_SIZE == 0 && b % PAGE_SIZE == 0
    ensures a + PAGE_SIZE * ((b - a + PAGE_SIZE - 1) / PAGE_SIZE) == b
  {
  }

  lemma ReserveMiddle(list: seq<FreeBlock>, k: nat, start: nat, pages: nat)
    requires k < |list| && Disjoint(list) && list[k].address < start
    requires start % PAGE_SIZE == 0 && list[k].address % PAGE_SIZE == 0
    requires start + PAGE_SIZE * pages < list[k].End()
    ensures var end := start + PAGE_SIZE * pages;
            var front := FreeBlock(list[k].address, (start - list[k].address + PAGE_SIZE - 1) / PAGE_SIZE);
            var back := FreeBlock(end, (list[k].End() - end + PAGE_SIZE - 1) / PAGE_SIZE);
            var after := list[..k] + [front, back] + list[k + 1..];
            Disjoint(after) && Removed(list, after, start, pages)
  {
    hide Disjoint, IsFree;
    var end := start + PAGE_SIZE * pages;
    var front := FreeBlock(list[k].address, (start - list[k].address + PAGE_SIZE - 1) / PAGE_SIZE);
    var back := FreeBlock(end, (list[k].End() - end + PAGE_SIZE - 1) / PAGE_SIZE);
    WholePages(list[k].address, start);
    WholePages(end, list[k].End());
    SplitBlock(list, k, front, back);
  }

  /** Replacing a block by its two ends frees exactly what is between them less. */
  lemma SplitBlock(list: seq<FreeBlock>, k: nat, front: FreeBlock, back: FreeBlock)
    requires k < |list| && Disjoint(list) && front.address == list[k].address && back.End() == list[k].End()
    requires front.End() <= back.address
    ensures var after := list[..k] + [front, back] + list[k + 1..];
            && Disjoint(after)
            && forall a :: IsFree(after, a) <==> IsFree(list, a) && !(front.End() <= a < back.address)
  {
    Shrink(list, k, front);
    var mid := list[k := front];
    forall a | back.Contains(a) ensures !IsFree(mid, a) && IsFree(list, a) {
      FreeAt(list, k, a);
    }
    InsertAfter(mid, k, back);
    assert mid[..k + 1] + [back] + mid[k + 1..] == list[..k] + [front, back] + list[k + 1..];
    hide Disjoint;
    forall a | front.End() <= a < back.address ensures !IsFree(mid, a) {
    }
  }

  /** The list after the range has been cut out of block `k`, as the code cuts it. */
  function Reserved(list: seq<FreeBlock>, k: nat, start: nat, pages: nat): seq<FreeBlock>
    requires k < |list| && list[k].address <= start && start + PAGE_SIZE * pages <= list[k].End()
  {
    var block := list[k];
    var end := start + PAGE_SIZE * pages;
    if block.address == start then
      if block.size == pages then list[..k] + list[k + 1..]
      else list[k := FreeBlock(block.address + pages, block.size - pages)]
    else if block.End() == end then
      list[k := FreeBlock(block.address, block.size - pages)]
    else
      var front := FreeBlock(block.address, (start - block.address + PAGE_SIZE - 1) / PAGE_SIZE);
      var back := FreeBlock(end, (block.End() - end + PAGE_SIZE - 1) / PAGE_SIZE);
      list[..k] + [front, back] + list[k + 1..]
  }

  /** When the cut takes exactly the range out: the range is page aligned and does not start a larger
      block, or it is empty and rounding up the rest of the block adds only what is free already. */
  ghost predicate CutRight(list: seq<FreeBlock>, k: nat, start: nat, pages: nat)
    requires k < |list|
  {
    if start % PAGE_SIZE == 0 then list[k].address == start ==> list[k].size == pages || pages == 0
    else pages == 0 && IsFree(list, list[k].End())
  }

  /** Where the range starts a larger block, the code moves the block by `pages` bytes instead of
      pages, and where it is not page aligned the two ends are rounded up; the cut is right exactly
      when neither happens. */
  lemma ReservedExact(list: seq<FreeBlock>, k: nat, start: nat, pages: nat)
    requires k < |list| && list[k].address <= start && start + PAGE_SIZE * pages <= list[k].End()
    requires Disjoint(list) && Aligned(list)
    ensures Removed(list, Reserved(list, k, start, pages), start, pages) <==> CutRight(list, k, start, pages)
    ensures start % PAGE_SIZE == 0 ==> Disjoint(Reserved(list, k, start, pages))
    ensures start % PAGE_SIZE == 0 && CutRight(list, k, start, pages) ==> Aligned(Reserved(list, k, start, pages))
  {
    if list[k].address == start {
      if list[k].size == pages {
        RemoveBlock(list, k);
      } else {
        ReserveFront(list, k, pages);
      }
    } else if list[k].End() == start + PAGE_SIZE * pages {
      ReserveBack(list, k, start, pages);
    } else if start % PAGE_SIZE == 0 {
      ReserveMiddle(list, k, start, pages);
    } else {
      ReserveUnaligned(list, k, start, pages);
    }
  }

  lemma RoundedUp(a: nat, b: nat)
    requires a <= b && (b - a) % PAGE_SIZE != 0
    ensures b < a + PAGE_SIZE * ((b - a + PAGE_SIZE - 1) / PAGE_SIZE) < b + PAGE_SIZE
  {
  }

  /** An aligned block that contains the first byte of a page contains the page. */
  lemma WholePageFree(list: seq<FreeBlock>, e: nat, a: int)
    requires Aligned(list) && e % PAGE_SIZE == 0 && IsFree(list, e) && e <= a < e + PAGE_SIZE
    ensures IsFree(list, a)
  {
    var i :| 0 <= i < |list| && list[i].Contains(e);
    assert list[i].End() % PAGE_SIZE == 0;
    FreeAt(list, i, a);
  }

  lemma ReserveUnaligned(list: seq<FreeBlock>, k: nat, start: nat, pages: nat)
    requires k < |list| && Disjoint(list) && Aligned(list) && start % PAGE_SIZE != 0
    requires list[k].address < start && start + PAGE_SIZE * pages < list[k].End()
    ensures Removed(list, Reserved(list, k, start, pages), start, pages) <==> CutRight(list, k, start, pages)
  {
    var end, after := start + PAGE_SIZE * pages, Reserved(list, k, start, pages);
    var front := FreeBlock(list[k].address, (start - list[k].address + PAGE_SIZE - 1) / PAGE_SIZE);
    var back := FreeBlock(end, (list[k].End() - end + PAGE_SIZE - 1) / PAGE_SIZE);
    assert after == list[..k] + [front, back] + list[k + 1..] && after[k] == front && after[k + 1] == back;
    RoundedUp(list[k].address, start);
    RoundedUp(end, list[k].End());
    if pages > 0 {
      FreeAt(after, k, start);
      assert InPages(start, start, pages);
    } else {
      FreeAt(after, k + 1, list[k].End());
      if IsFree(list, list[k].End()) {
        forall a ensures IsFree(after, a) <==> IsFree(list, a) {
          if IsFree(list, a) { UnalignedKeeps(list, k, front, back, a); }
          if IsFree(after, a) { UnalignedAdds(list, k, front, back, a); }
        }
      }
    }
  }

  /** The cut block and its two parts around an empty unaligned range. */
  ghost predicate CutParts(b: FreeBlock, front: FreeBlock, back: FreeBlock) {
    && front.address == b.address <= back.address <= front.End() <= back.End()
    && b.End() < back.End() < b.End() + PAGE_SIZE
  }

  lemma UnalignedKeeps(list: seq<FreeBlock>, k: nat, front: FreeBlock, back: FreeBlock, a: int)
    requires k < |list| && CutParts(list[k], front, back) && IsFree(list, a)
    ensures IsFree(list[..k] + [front, back] + list[k + 1..], a)
  {
    var after := list[..k] + [front, back] + list[k + 1..];
    var i :| 0 <= i < |list| && list[i].Contains(a);
    if i == k {
      assert after[k] == front && after[k + 1] == back;
      FreeAt(after, if front.Contains(a) then k else k + 1, a);
    } else {
      FreeAt(after, if i < k then i else i + 1, a);
    }
  }

  lemma UnalignedAdds(list: seq<FreeBlock>, k: nat, front: FreeBlock, back: FreeBlock, a: int)
    requires k < |list| && Aligned(list) && IsFree(list, list[k].End()) && CutParts(list[k], front, back)
    requires IsFree(list[..k] + [front, back] + list[k + 1..], a)
    ensures IsFree(list, a)
  {
    var after := list[..k] + [front, back] + list[k + 1..];
    var i :| 0 <= i < |after| && after[i].Contains(a);
    if i < k || i > k + 1 {
      FreeAt(list, if i < k then i else i - 1, a);
    } else if a < list[k].End() {
      FreeAt(list, k, a);
    } else {
      assert list[k].End() % PAGE_SIZE == 0;
      WholePageFree(list, list[k].End(), a);
    }
  }

  /** The first block that is large enough starts at this address. */
  ghost predicate FirstFit(list: seq<FreeBlock>, pages: nat, address: nat) {
    exists k :: 0 <= k < |list| && list[k].address == address && list[k].size >= pages &&
                forall i :: 0 <= i < k ==> list[i].size < pages
  }

  class VirtualAddressAllocator {
    var freeList: seq<FreeBlock>

    ghost predicate Valid()
      reads this
    {
      Disjoint(freeList) && Aligned(freeList)
    }

    constructor (start: nat, pages: nat)
      requires start % PAGE_SIZE == 0
      ensures Valid() && forall a :: IsFree(freeList, a) <==> InPages(a, start, pages)
    {
      freeList := [FreeBlock(start, pages)];
      new;
      forall a ensures IsFree(freeList, a) <==> InPages(a, start, pages) {
        assert freeList[0].Contains(a) <==> InPages(a, start, pages);
      }
    }

    /** First fit. The returned range was free and is exactly what stops being free; the call
        fails only if every block is too small. */
    method Alloc(pageCount: nat) returns (r: Allocated<nat>)
      requires Valid()
      modifies this
      ensures Valid()
      ensures r.Granted? ==>
        && r.value % PAGE_SIZE == 0
        && FirstFit(old(freeList), pageCount, r.value)
        && (forall a :: InPages(a, r.value, pageCount) ==> IsFree(old(freeList), a))
        && Removed(old(freeList), freeList, r.value, pageCount)
      ensures r.Refused? ==>
        && r.error == OutOfMemory && freeList == old(freeList)
        && forall i :: 0 <= i < |freeList| ==> freeList[i].size < pageCount
    {
      var cur := 0;
      while cur < |freeList|
        invariant 0 <= cur <= |freeList|
        invariant freeList == old(freeList)
        invariant forall i :: 0 <= i < cur ==> freeList[i].size < pageCount
      {
        var block := freeList[cur];
        if block.size >= pageCount {
          assert FirstFit(freeList, pageCount, block.address);
          forall a | InPages(a, block.address, pageCount) ensures IsFree(freeList, a) {
            FreeAt(freeList, cur, a);
          }
          if block.size == pageCount {
            RemoveBlock(freeList, cur);
            freeList := freeList[..cur] + freeList[cur + 1..];
          } else {
            var rest := FreeBlock(block.address + PAGE_SIZE * pageCount, block.size - pageCount);
            Shrink(freeList, cur, rest);
            freeList := freeList[cur := rest];
          }
          return Granted(block.address);
        }
        cur := cur + 1;
      }
      return Refused(OutOfMemory);
    }

    /** Returns a range to the pool: exactly it becomes free as well. The blocks stay disjoint exactly
        when no address of it was free. */
    method Free(address: nat, pageCount: nat)
      requires Valid()
      modifies this
      ensures Added(old(freeList), freeList, address, pageCount)
      ensures Disjoint(freeList) <==> NotFree(old(freeList), address, pageCount)
      ensures address % PAGE_SIZE == 0 ==> Aligned(freeList)
    {
      hide Disjoint, Added, NotFree, IsFree;
      var end := address + PAGE_SIZE * pageCount;
      var cur := 0;
      while cur < |freeList|
        invariant 0 <= cur <= |freeList|
        invariant freeList == old(freeList)
      {
        var block := freeList[cur];
        if end == block.address {
          var grown := FreeBlock(address, block.size + pageCount);
          Grow(freeList, cur, grown, address, pageCount);
          freeList := freeList[cur := grown];
          return;
        } else if address == block.End() {
          var grown := FreeBlock(block.address, block.size + pageCount);
          Grow(freeList, cur, grown, address, pageCount);
          freeList := freeList[cur := grown];
          return;
        } else if block.address > address {
          break;
        }
        cur := cur + 1;
      }
      Append(freeList, address, pageCount);
      freeList := freeList + [FreeBlock(address, pageCount)];
    }

    /** Takes a given range out of the pool; see `ReservedExact` for when it is taken out right.
        The early exit of the loop relies on a sorted list, which `Free` does not maintain. */
    method Reserve(start: nat, pageCount: nat) returns (ok: bool, ghost k: nat)
      requires Valid()
      modifies this
      ensures start % PAGE_SIZE == 0 ==> Disjoint(freeList)
      ensures !ok ==> freeList == old(freeList)
      ensures !ok && Sorted(freeList) && pageCount > 0 ==>
        forall i :: 0 <= i < |freeList| ==>
          !(freeList[i].address <= start && start + PAGE_SIZE * pageCount <= freeList[i].End())
      ensures ok ==>
        && k < |old(freeList)|
        && old(freeList)[k].address <= start && start + PAGE_SIZE * pageCount <= old(freeList)[k].End()
        && freeList == Reserved(old(freeList), k, start, pageCount)
        && (Removed(old(freeList), freeList, start, pageCount) <==> CutRight(old(freeList), k, start, pageCount))
      ensures ok && start % PAGE_SIZE == 0 && CutRight(old(freeList), k, start, pageCount) ==> Valid()
    {
      hide Disjoint, Aligned, Removed, CutRight;
      var end := start + PAGE_SIZE * pageCount;
      var cur := 0;
      k := 0;
      while cur < |freeList|
        invariant 0 <= cur <= |freeList|
        invariant freeList == old(freeList)
        invariant forall i :: 0 <= i < cur ==>
          !(freeList[i].address <= start && freeList[i].End() >= end)
      {
        var block := freeList[cur];
        var blockEnd := block.End();
        if block.address <= start && blockEnd >= end {
          k := cur;
          ReservedExact(freeList, cur, start, pageCount);
          if block.address == start {
            if block.size == pageCount {
              freeList := freeList[..cur] + freeList[cur + 1..];
            } else {
              freeList := freeList[cur := FreeBlock(block.address + pageCount, block.size - pageCount)];
            }
          } else if blockEnd == end {
            freeList := freeList[cur := FreeBlock(block.address, block.size - pageCount)];
          } else {
            var front := FreeBlock(block.address, (start - block.address + PAGE_SIZE - 1) / PAGE_SIZE);
            var back := FreeBlock(end, (blockEnd - end + PAGE_SIZE - 1) / PAGE_SIZE);
            freeList := freeList[..cur] + [front, back] + freeList[cur + 1..];
          }
          return true, k;
        }
        if block.address >= end {
          break;
        }
        cur := cur + 1;
      }
      ok := false;
    }
  }

  /** A page that does not start on a page boundary stays partly free when it is reserved. */
  lemma ReserveUnalignedFails()
    ensures var list := [FreeBlock(0, 4)];
            IsFree(Reserved(list, 0, 100, 1), 200) && InPages(200, 100, 1)
  {
    assert Reserved([FreeBlock(0, 4)], 0, 100, 1)[0].Contains(200);
  }

  /** A concrete failure: reserving the first page of a two-page block leaves it free. */
  lemma ReserveFrontFails()
    ensures var list := [FreeBlock(0, 2)];
            IsFree(Reserved(list, 0, 0, 1), 1) && InPages(1, 0, 1)
  {
    assert Reserved([FreeBlock(0, 2)], 0, 0, 1)[0].Contains(1);
  }
}
