/** The kernel heap: first-fit allocation from the in-place free list. The physical pages that
    back the heap are granted by the environment. */
module Heap {
  import opened Wrappers
  import opened Bits
  import opened Addresses
  import opened HeapBlocks
  import opened HeapList

  const INIT_PAGES: nat := 8
  const ALLOC_HEADER: nat := 8
  const SIZE_FIELD: nat := 0x100_0000_0000_0000  // the size is in bits 55..0, the padding above

  // ---- The header of an allocated block ----

  /** `AllocatedBlockHeader::new`; the padding is cut to eight bits. */
  function PackHeader(size: nat, padding: nat): nat { padding % 256 * SIZE_FIELD + size % SIZE_FIELD }

  function HeaderSize(w: nat): nat { w % SIZE_FIELD }

  function HeaderPadding(w: nat): nat { w / SIZE_FIELD % 256 }

  /** The size always comes back; the padding comes back exactly when it is below 256. */
  lemma HeaderRoundTrip(size: nat, padding: nat)
    requires size < SIZE_FIELD
    ensures HeaderSize(PackHeader(size, padding)) == size
    ensures HeaderPadding(PackHeader(size, padding)) == padding <==> padding < 256
  {
  }

  /** A padding that does not come back. */
  lemma HeaderLosesPadding()
    ensures HeaderPadding(PackHeader(4096, 504)) == 248
  {
  }

  // ---- Alignment ----

  ghost predicate IsPowerOfTwo(n: nat) { exists k: nat :: n == Pow2(k) }

  lemma PowerOfTwoCases(k: nat)
    ensures var n := Pow2(k); n == 1 || n == 2 || n == 4 || n % 8 == 0
  {
    if k >= 3 {
      assert Pow2(k) == 2 * Pow2(k - 1) && Pow2(k - 1) == 2 * Pow2(k - 2) && Pow2(k - 2) == 2 * Pow2(k - 3);
    }
  }

  /** The padding in front of a header: a multiple of eight, below the alignment. */
  lemma PaddingFacts(address: nat, align: nat)
    requires address % 8 == 0 && IsPowerOfTwo(align)
    ensures align > 0
    ensures var p := AlignOffset(address, align); p % 8 == 0 && (align <= 256 ==> p <= 248)
  {
    var k: nat :| align == Pow2(k);
    PowerOfTwoCases(k);
    hide Pow2, AlignOffset;
    if align > 4 {
      WidePadding(address, align);
    } else if align > 1 {
      SmallPadding(address, align);
    }
  }

  lemma WidePadding(address: nat, align: nat)
    requires address % 8 == 0 && align > 0 && align % 8 == 0
    ensures var p := AlignOffset(address, align); p % 8 == 0 && (align <= 256 ==> p <= 248)
  {
    hide AlignOffset;
    var p := AlignOffset(address, align);
    MultipleOfEight(address + p, align);
    EightApart(address, p);
  }

  lemma EightApart(x: nat, p: nat)
    requires x % 8 == 0 && (x + p) % 8 == 0
    ensures p % 8 == 0
  {
  }

  lemma SmallPadding(address: nat, align: nat)
    requires address % 8 == 0 && (align == 2 || align == 4)
    ensures AlignOffset(address, align) == 0
  {
    if align == 2 {
      assert address % 2 == 0;
    } else {
      assert address % 4 == 0;
    }
  }

  lemma MultipleOfEight(x: nat, align: nat)
    requires align > 0 && align % 8 == 0 && x % align == 0
    ensures x % 8 == 0
  {
    var q, m := x / align, align / 8;
    assert x == q * align == q * (8 * m);
    assert q * (8 * m) == 8 * (q * m);
  }

  function Max(x: nat, y: nat): nat { if x < y then y else x }

  /** Bytes that a block must have to serve a request. */
  function RequiredSize(b: Block, size: nat, align: nat): nat
    requires align > 0
  {
    size + ALLOC_HEADER + AlignOffset(b.address + ALLOC_HEADER, align)
  }

  /** Bytes that the request takes from the front of the block. */
  function TakenSize(b: Block, size: nat, align: nat): nat
    requires align > 0
  {
    var padding := AlignOffset(b.address + ALLOC_HEADER, align);
    var taken := Max(ALLOC_HEADER + padding + size, HEADER);
    taken + AlignOffset(b.address + taken, 8)
  }

  /** A block that is large enough for the request is large enough for what is taken, so the
      subtraction in `alloc` does not underflow; what is left over is again a block. */
  lemma TakenFits(b: Block, size: nat, align: nat)
    requires b.Ok() && align > 0 && RequiredSize(b, size, align) <= b.size
    ensures HEADER <= TakenSize(b, size, align) <= b.size && TakenSize(b, size, align) % 8 == 0
    ensures ALLOC_HEADER + AlignOffset(b.address + ALLOC_HEADER, align) + size <= TakenSize(b, size, align)
  {
    hide AlignOffset;
    var taken := Max(ALLOC_HEADER + AlignOffset(b.address + ALLOC_HEADER, align) + size, HEADER);
    EightPadding(b.address, taken);
  }

  lemma EightPadding(address: nat, taken: nat)
    requires address % 8 == 0
    ensures var r := taken + AlignOffset(address + taken, 8); r % 8 == 0 && taken <= r < taken + 8
  {
  }

  // ---- Live allocations ----

  /** An allocation: its block, the padding before its header, and the bytes that were asked for. */
  datatype Live = Live(block: Block, padding: nat, size: nat)

  /** The data of allocation `l` starts at `p`, right behind its header, and lies inside its block. */
  ghost predicate LiveOk(mem: Memory, used: set<Block>, p: nat, l: Live) {
    && l.block in used && l.padding % 8 == 0
    && p == l.block.address + l.padding + ALLOC_HEADER && p + l.size <= l.block.End()
    && p - ALLOC_HEADER in mem && mem[p - ALLOC_HEADER] == PackHeader(l.block.size, l.padding)
  }

  ghost predicate LivesOk(mem: Memory, used: set<Block>, live: map<nat, Live>) {
    && (forall p :: p in live ==> LiveOk(mem, used, p, live[p]))
    && (forall p, q :: p in live && q in live && p != q ==> live[p].block != live[q].block)
  }

  /** Every used block belongs to an allocation. */
  ghost predicate NothingLost(used: set<Block>, live: map<nat, Live>) {
    forall b :: b in used ==> exists p :: p in live && live[p].block == b
  }

  lemma LivesKept(mem: Memory, mem': Memory, used: set<Block>, live: map<nat, Live>)
    requires LivesOk(mem, used, live) && UsedKept(mem, mem', used)
    ensures LivesOk(mem', used, live)
  {
    forall p | p in live ensures LiveOk(mem', used, p, live[p]) {
      assert LiveOk(mem, used, p, live[p]);
      assert live[p].block.Contains(p - ALLOC_HEADER);
    }
  }

  /** Pages that `increase_heap_size` asks for. */
  function NewPages(heapSize: nat, size: nat): nat {
    (Max(heapSize + heapSize / 2, size) + (PAGE_SIZE - 1)) / PAGE_SIZE
  }

  function Grown(heapSize: nat, size: nat): nat { heapSize + NewPages(heapSize, size) * PAGE_SIZE }

  /** The size of the heap after `k` growths for the same request. */
  function GrownTimes(heapSize: nat, size: nat, k: nat): nat
    decreases k
  {
    if k == 0 then heapSize else GrownTimes(Grown(heapSize, size), size, k - 1)
  }

  /** The first free block that is large enough starts at this address. */
  ghost predicate FirstFit(blocks: seq<Block>, size: nat, align: nat, address: nat)
    requires align > 0
  {
    exists k :: 0 <= k < |blocks| && blocks[k].address == address && RequiredSize(blocks[k], size, align) <= blocks[k].size &&
                forall j :: 0 <= j < k ==> RequiredSize(blocks[j], size, align) > blocks[j].size
  }

  /** One growth of a heap of this size gives a block that serves the request wherever it lies. */
  ghost predicate Ample(heapSize: nat, size: nat, align: nat) {
    size + ALLOC_HEADER + align <= heapSize + heapSize / 2
  }

  lemma NewPagesFacts(heapSize: nat, size: nat)
    requires heapSize > 0
    ensures var n := NewPages(heapSize, size) * PAGE_SIZE;
            n >= heapSize + heapSize / 2 && n >= size && n % PAGE_SIZE == 0 && n >= PAGE_SIZE && n % 8 == 0
  {
  }

  lemma AmpleAfterGrowth(heapSize: nat, size: nat, align: nat)
    requires heapSize >= INIT_PAGES * PAGE_SIZE
    ensures align <= INIT_PAGES * PAGE_SIZE ==> Ample(Grown(heapSize, size), size, align)
    ensures Ample(heapSize, size, align) ==> Ample(Grown(heapSize, size), size, align)
    ensures Grown(Grown(heapSize, size), size) <= MAX_HEAP ==> Grown(heapSize, size) <= MAX_HEAP
  {
    NewPagesFacts(heapSize, size);
    hide NewPages;
  }

  lemma FitsAfterGrowth(heapSize: nat, size: nat, align: nat, blocks: seq<Block>)
    requires heapSize > 0 && align > 0 && Ample(heapSize, size, align)
    requires exists i :: 0 <= i < |blocks| && blocks[i].address <= HEAP_START + heapSize &&
                         HEAP_START + Grown(heapSize, size) <= blocks[i].End()
    ensures exists i :: 0 <= i < |blocks| && RequiredSize(blocks[i], size, align) <= blocks[i].size
  {
    NewPagesFacts(heapSize, size);
    hide NewPages;
    var i :| 0 <= i < |blocks| && blocks[i].address <= HEAP_START + heapSize &&
             HEAP_START + Grown(heapSize, size) <= blocks[i].End();
    assert RequiredSize(blocks[i], size, align) <= blocks[i].size;
  }

  /** The words of new pages: whatever the pages held. */
  method ReadPages(b: Block) returns (pages: Memory)
    ensures forall a: nat :: a in pages <==> b.address <= a < b.End() && a % 8 == 0
  {
    var contents: nat -> nat := *;
    pages := map a: nat | b.address <= a < b.End() && a % 8 == 0 :: contents(a);
  }

  lemma BackedMore(mem: Memory, pages: Memory, b: Block, heapSize: nat)
    requires Backed(mem, heapSize) && b.address == HEAP_START + heapSize
    requires forall a: nat :: a in pages <==> b.address <= a < b.End() && a % 8 == 0
    ensures Backed(pages + mem, heapSize + b.size)
  {
  }

  lemma BackedWord(mem: Memory, heapSize: nat, a: nat)
    requires Backed(mem, heapSize) && HEAP_START <= a < HEAP_START + heapSize && a % 8 == 0
    ensures a in mem
  {
  }

  lemma UsedInHeap(blocks: seq<Block>, used: set<Block>, heapSize: nat, b: Block)
    requires HeapOk(blocks, used, heapSize) && b in used
    ensures b.Ok() && b.End() <= HEAP_START + heapSize
  {
    assert b in Elements(blocks) + used;
    BlockInHeap(Elements(blocks) + used, heapSize, b);
  }

  lemma UsedApart(blocks: seq<Block>, used: set<Block>, heapSize: nat, b: Block, c: Block)
    requires HeapOk(blocks, used, heapSize) && b in used && c in used && b != c
    ensures Apart(b, c)
  {
    assert b in Elements(blocks) + used && c in Elements(blocks) + used;
  }

  lemma AlignedData(address: nat, align: nat)
    requires address % 8 == 0 && IsPowerOfTwo(align) && align > 0
    ensures var p := AlignOffset(address + ALLOC_HEADER, align);
            p % 8 == 0 && (align <= 256 ==> p < 256) && (address + p + ALLOC_HEADER) % align == 0
  {
    PaddingFacts(address + ALLOC_HEADER, align);
    hide AlignOffset;
    var p := AlignOffset(address + ALLOC_HEADER, align);
    assert address + ALLOC_HEADER + p == address + p + ALLOC_HEADER;
  }

  /** A new allocation beside the live ones. */
  lemma NewLive(mem: Memory, mem': Memory, blocks: seq<Block>, heapSize: nat, used: set<Block>, live: map<nat,
                Live>, p: nat, l: Live)
    requires HeapOk(blocks, used + {l.block}, heapSize)
    requires LivesOk(mem, used, live) && NothingLost(used, live) && UsedKept(mem, mem', used)
    requires LiveOk(mem', used + {l.block}, p, l) && l.block !in used
    ensures p !in live && LivesOk(mem', used + {l.block}, live[p := l]) && NothingLost(used + {l.block}, live[p := l])
  {
    if p in live {
      assert LiveOk(mem, used, p, live[p]);
      UsedApart(blocks, used + {l.block}, heapSize, live[p].block, l.block);
      assert false;
    }
    hide HeapOk;
    LivesKept(mem, mem', used, live);
    var live' := live[p := l];
    forall q | q in live' ensures LiveOk(mem', used + {l.block}, q, live'[q]) {
      assert q != p ==> LiveOk(mem', used, q, live[q]);
    }
    forall b | b in used + {l.block} ensures exists q :: q in live' && live'[q].block == b {
      if b == l.block {
        assert live'[p].block == b;
      } else {
        var q :| q in live && live[q].block == b;
        assert live'[q].block == b;
      }
    }
  }

  /** What `dealloc` reads from the header in front of the data is the block of the allocation
      exactly when the padding fitted in its eight bits. */
  lemma RecoverBlock(mem: Memory, blocks: seq<Block>, used: set<Block>, heapSize: nat, p: nat, l: Live)
    requires HeapOk(blocks, used, heapSize) && heapSize <= MAX_HEAP && LiveOk(mem, used, p, l)
    ensures var w := mem[p - ALLOC_HEADER];
            && HeaderSize(w) == l.block.size
            && (p - ALLOC_HEADER - HeaderPadding(w) == l.block.address <==> l.padding < 256)
            && l.block.address <= p - ALLOC_HEADER
    ensures l.size <= l.block.size && l.block.Ok()
  {
    UsedInHeap(blocks, used, heapSize, l.block);
    HeaderRoundTrip(l.block.size, l.padding);
    hide HeapOk, HeaderSize, HeaderPadding, PackHeader;
  }

  lemma LiveGone(mem: Memory, mem': Memory, used: set<Block>, live: map<nat, Live>, p: nat)
    requires LivesOk(mem, used, live) && NothingLost(used, live) && p in live
    requires UsedKept(mem, mem', used - {live[p].block})
    ensures LivesOk(mem', used - {live[p].block}, live - {p}) && NothingLost(used - {live[p].block}, live - {p})
  {
    var used', live' := used - {live[p].block}, live - {p};
    forall q | q in live' ensures LiveOk(mem', used', q, live'[q]) {
      assert LiveOk(mem, used, q, live[q]);
      assert live[q].block.Contains(q - ALLOC_HEADER);
    }
    forall b | b in used' ensures exists q :: q in live' && live'[q].block == b {
      var q :| q in live && live[q].block == b;
      assert q in live';
    }
  }

  lemma DataWrite(mem: Memory, used: set<Block>, live: map<nat, Live>, p: nat, a: nat, w: nat)
    requires LivesOk(mem, used, live) && p in live && p <= a < p + live[p].size
    requires UsedKept(mem, mem[a := w], used - {live[p].block})
    ensures LivesOk(mem[a := w], used, live)
  {
    forall q | q in live ensures LiveOk(mem[a := w], used, q, live[q]) {
      assert LiveOk(mem, used, q, live[q]) && LiveOk(mem, used, p, live[p]);
      assert live[q].block.Contains(q - ALLOC_HEADER);
    }
  }

  /** The data of different allocations does not overlap, nor does it overlap a free block. */
  lemma DataApart(mem: Memory, blocks: seq<Block>, used: set<Block>, heapSize: nat, live: map<nat, Live>,
                  p: nat, q: nat)
    requires HeapOk(blocks, used, heapSize) && LivesOk(mem, used, live) && p in live && q in live && p != q
    ensures p + live[p].size <= q || q + live[q].size <= p
    ensures forall i :: 0 <= i < |blocks| ==> p + live[p].size <= blocks[i].address || blocks[i].End() <= p
  {
    assert LiveOk(mem, used, p, live[p]) && LiveOk(mem, used, q, live[q]);
    UsedApart(blocks, used, heapSize, live[p].block, live[q].block);
    forall i | 0 <= i < |blocks| ensures p + live[p].size <= blocks[i].address || blocks[i].End() <= p {
      FreeUsedApart(blocks, used, heapSize, i, live[p].block);
    }
  }

  /** The used blocks determine which addresses are free: what an allocation took is free again
      when it has been returned, whatever was merged on the way. */
  lemma FreeSpaceDetermined(blocks: seq<Block>, blocks': seq<Block>, used: set<Block>, heapSize: nat, a: int)
    requires HeapOk(blocks, used, heapSize) && HeapOk(blocks', used, heapSize)
    ensures Covered(Elements(blocks), a) <==> Covered(Elements(blocks'), a)
  {
    FreeIsUnused(blocks, used, heapSize, a);
    FreeIsUnused(blocks', used, heapSize, a);
  }

  lemma FreeIsUnused(blocks: seq<Block>, used: set<Block>, heapSize: nat, a: int)
    requires HeapOk(blocks, used, heapSize)
    ensures Covered(Elements(blocks), a) <==> HEAP_START <= a < HEAP_START + heapSize && !Covered(used, a)
  {
    var all := Elements(blocks) + used;
    assert HEAP_START <= a < HEAP_START + heapSize <==> Covered(all, a);
    if Covered(Elements(blocks), a) {
      var b :| b in Elements(blocks) && b.Contains(a);
      assert b in all;
      forall c | c in used ensures !c.Contains(a) {
        assert c in all && c != b;
        assert Apart(b, c);
      }
    }
  }

  lemma InitialHeap(heapSize: nat)
    requires heapSize % 8 == 0 && heapSize >= HEADER
    ensures HeapOk([Block(HEAP_START, heapSize)], {}, heapSize)
  {
    var b := Block(HEAP_START, heapSize);
    var all := {b};
    assert Elements([b]) + {} == all by { assert b in [b]; }
    forall a ensures HEAP_START <= a < HEAP_START + heapSize <==> Covered(all, a) {
      assert b in all && (HEAP_START <= a < HEAP_START + heapSize <==> b.Contains(a));
    }
  }

  class KernelHeap {
    var head: nat
    var tail: nat
    var heapSize: nat
    var mem: Memory
    ghost var blocks: seq<Block>
    ghost var used: set<Block>
    ghost var live: map<nat, Live>

    /** The list is intact and, with the used blocks, tiles the heap. */
    ghost predicate ListValid()
      reads this
    {
      && HeapOk(blocks, used, heapSize)
      && Linked(mem, head, tail, blocks)
      && Backed(mem, heapSize)
      && heapSize % PAGE_SIZE == 0 && INIT_PAGES * PAGE_SIZE <= heapSize <= MAX_HEAP
    }

    ghost predicate Valid()
      reads this
    {
      ListValid() && LivesOk(mem, used, live) && NothingLost(used, live)
    }

    /** `init`: the pages at the start of the heap region are one free block. */
    constructor ()
      ensures Valid() && live == map[] && blocks == [Block(HEAP_START, INIT_PAGES * PAGE_SIZE)]
    {
      var size := INIT_PAGES * PAGE_SIZE;
      var pages := ReadPages(Block(HEAP_START, size));
      head, tail, heapSize := HEAP_START, HEAP_START, size;
      mem := pages[HEAP_START := size][HEAP_START + 8 := 0][HEAP_START + 16 := 0];
      blocks, used, live := [Block(HEAP_START, size)], {}, map[];
      InitialHeap(size);
    }

    /** `remove_current`: unlinks block `k` and moves the cursor to the block behind it. */
    method RemoveCurrent(current: nat, ghost k: nat) returns (removed: Block, next: nat)
      requires ListValid() && k < |blocks| && current == blocks[k].address
      modifies this`head, this`tail, this`mem, this`blocks, this`used
      ensures ListValid() && removed == old(blocks)[k]
      ensures blocks == Without(old(blocks), k) && used == old(used) + {removed}
      ensures next == AddressAt(blocks, k) && UsedKept(old(mem), mem, used)
    {
      hide HeapOk, Linked, UsedKept, Without, AddressAt, Backed, Spread;
      HeapIsSpread(blocks, used, heapSize);
      ReadNode(mem, head, tail, blocks, k);
      UnlinkedIsLinked(mem, head, tail, blocks, k);
      UnlinkedKeeps(mem, blocks, used, heapSize, k);
      TakeBlock(blocks, used, heapSize, k);
      WithoutAddress(blocks, k, k);
      WithoutAddress(blocks, k, 0);
      removed := Block(current, mem[current]);
      var nextPtr, prevPtr := mem[current + 8], mem[current + 16];
      if prevPtr != 0 {
        if nextPtr != 0 {
          assert mem[nextPtr + 16] == current;
          mem := mem[nextPtr + 16 := prevPtr];
        }
        mem := mem[prevPtr + 8 := nextPtr];
        next := mem[prevPtr + 8];
        if tail == current {
          tail := prevPtr;
        }
      } else {
        head := nextPtr;
        if head != 0 {
          assert mem[head + 16] == current;
          mem := mem[head + 16 := 0];
        }
        next := head;
        if tail == current {
          tail := head;
        }
      }
      assert mem == Unlinked(old(mem), nextPtr, prevPtr);
      BackedKept(old(mem), mem, heapSize);
      used := used + {blocks[k]};
      blocks := Without(blocks, k);
    }

    /** `insert_before_current`: links used block `b` in front of block `k`, or at the end. */
    method InsertBeforeCurrent(current: nat, b: Block, ghost k: nat)
      requires ListValid() && k <= |blocks| && current == AddressAt(blocks, k) && b in used
      requires k > 0 ==> blocks[k - 1].address < b.address
      requires k < |blocks| ==> b.address < blocks[k].address
      modifies this`head, this`tail, this`mem, this`blocks, this`used
      ensures ListValid() && blocks == With(old(blocks), k, b) && used == old(used) - {b}
      ensures UsedKept(old(mem), mem, used)
    {
      hide HeapOk, Linked, UsedKept, With, AddressAt, Backed, Spread;
      ghost var next, prev := AddressAt(blocks, k), AddressAt(blocks, k - 1);
      PutBlock(blocks, used, heapSize, k, b);
      HeapIsSpread(With(blocks, k, b), used - {b}, heapSize);
      InsertedIsLinked(mem, head, tail, blocks, k, b);
      InsertedKeeps(mem, blocks, used, heapSize, k, b);
      HeapIsSpread(blocks, used, heapSize);
      ReadEnds(mem, head, tail, blocks, k, b);
      if current == head {
        mem := mem[b.address := b.size];
        mem := mem[b.address + 8 := head];
        mem := mem[b.address + 16 := 0];
        if head != 0 {
          mem := mem[head + 16 := b.address];
        }
        if tail == 0 {
          tail := b.address;
        }
        head := b.address;
        assert mem == Inserted(old(mem), b.address, b.size, next, prev);
      } else if current != 0 {
        mem := mem[b.address := b.size];
        var before := mem[current + 16];
        mem := mem[b.address + 8 := current];
        mem := mem[b.address + 16 := before];
        if before != 0 {
          mem := mem[before + 8 := b.address];
        }
        mem := mem[current + 16 := b.address];
        assert mem == Inserted(old(mem), b.address, b.size, next, prev);
      } else {
        mem := mem[b.address := b.size];
        assert tail != 0 && mem[tail + 8] == 0;
        mem := mem[tail + 8 := b.address];
        mem := mem[b.address + 8 := 0];
        mem := mem[b.address + 16 := tail];
        tail := b.address;
        assert mem == Inserted(old(mem), b.address, b.size, next, prev);
      }
      BackedKept(old(mem), mem, heapSize);
      used := used - {b};
      blocks := With(blocks, k, b);
    }

    /** `extend_current`: the used block `b` right behind block `k` joins it. */
    method ExtendCurrent(current: nat, b: Block, ghost k: nat)
      requires ListValid() && k < |blocks| && current == blocks[k].address && b in used
      requires blocks[k].End() == b.address
      modifies this`mem, this`blocks, this`used
      ensures ListValid() && used == old(used) - {b}
      ensures blocks == old(blocks)[k := Block(current, old(blocks)[k].size + b.size)]
      ensures UsedKept(old(mem), mem, used)
    {
      hide HeapOk, Linked, UsedKept, AddressAt, Backed, Spread;
      HeapIsSpread(blocks, used, heapSize);
      ReadNode(mem, head, tail, blocks, k);
      ExtendedIsLinked(mem, head, tail, blocks, k, blocks[k].size + b.size);
      ExtendedKeeps(mem, blocks, used, heapSize, k, blocks[k].size + b.size);
      MergeAfter(blocks, used, heapSize, k, b);
      UsedKeptLess(mem, mem[current := mem[current] + b.size], used, used - {b});
      BackedKept(mem, mem[current := mem[current] + b.size], heapSize);
      blocks := blocks[k := Block(current, mem[current] + b.size)];
      mem := mem[current := mem[current] + b.size];
      used := used - {b};
    }

    /** The used block `b` and the free block `k` right behind it become one free block: the old
        block is unlinked and the joined one is linked in its place. */
    method MergeInFront(current: nat, b: Block, ghost k: nat)
      requires ListValid() && k < |blocks| && current == blocks[k].address && b in used
      requires b.End() == blocks[k].address && (k > 0 ==> blocks[k - 1].address < b.address)
      modifies this`head, this`tail, this`mem, this`blocks, this`used
      ensures ListValid() && used == old(used) - {b} && UsedKept(old(mem), mem, used) && HasFree(b)
      ensures |blocks| == |old(blocks)|
    {
      hide HeapOk, Linked, UsedKept, AddressAt, Backed, Spread;
      FreeUsedApart(blocks, used, heapSize, k, b);
      NextAfter(blocks, used, heapSize, k);
      var removed, next := RemoveCurrent(current, k);
      ghost var used1, mem1 := used, mem;
      var merged := Block(b.address, b.size + removed.size);
      MergeUsed(blocks, used, heapSize, b, removed);
      used := used - {b, removed} + {merged};
      assert k > 0 ==> blocks[k - 1] == old(blocks)[k - 1];
      assert k < |blocks| ==> blocks[k] == old(blocks)[k + 1];
      InsertBeforeCurrent(next, merged, k);
      assert With(Without(old(blocks), k), k, merged)[k] == merged;
      assert used == old(used) - {b};
      UsedKeptTwice(old(mem), mem1, mem, used1, used, used);
    }

    /** The free list has a block that contains all of `b`. */
    ghost predicate HasFree(b: Block)
      reads this
    {
      exists i :: 0 <= i < |blocks| && blocks[i].address <= b.address && b.End() <= blocks[i].End()
    }

    /** `add_free_block`: merges the block with the free block behind or in front of it, or links
        it in at its place. The list stays sorted, and exactly the block becomes free. */
    method AddFreeBlock(newBlock: Block)
      requires ListValid() && newBlock in used
      modifies this`head, this`tail, this`mem, this`blocks, this`used
      ensures ListValid() && used == old(used) - {newBlock}
      ensures UsedKept(old(mem), mem, used) && HasFree(newBlock)
      ensures |blocks| == |old(blocks)| + if AdjoinsOne(old(blocks), newBlock) then 0 else 1
    {
      hide HeapOk, Linked, UsedKept, AddressAt, Backed, Spread, Apart, AdjoinsOne;
      var current := head;
      ghost var k := 0;
      HeadAddress(mem, head, tail, blocks);
      while current != 0
        invariant 0 <= k <= |blocks| && current == AddressAt(blocks, k)
        invariant ListValid() && blocks == old(blocks) && used == old(used) && mem == old(mem) && head == old(head) && tail == old(tail)
        invariant k > 0 ==> blocks[k - 1].End() < newBlock.address && blocks[k - 1].size > 0
        decreases |blocks| - k
      {
        CursorAddress(blocks, used, heapSize, k);
        AddressOf(blocks, k);
        HeapIsSpread(blocks, used, heapSize);
        ReadNode(mem, head, tail, blocks, k);
        FreeUsedApart(blocks, used, heapSize, k, newBlock);
        var block := Block(current, mem[current]);
        if newBlock.End() == block.address {
          Adjoin(blocks, newBlock, k);
          MergeInFront(current, newBlock, k);
          return;
        } else if newBlock.address == block.End() {
          Adjoin(blocks, newBlock, k);
          ExtendCurrent(current, newBlock, k);
          assert blocks[k].address <= newBlock.address && newBlock.End() <= blocks[k].End();
          return;
        } else if newBlock.address < block.address {
          break;
        }
        ApartAfter(block, newBlock);
        current := mem[current + 8];
        k := k + 1;
      }
      CursorAddress(blocks, used, heapSize, k);
      if k < |blocks| {
        AddressOf(blocks, k);
        FreeUsedApart(blocks, used, heapSize, k, newBlock);
      }
      AdjoinNone(blocks, used, heapSize, newBlock, k);
      InsertBeforeCurrent(current, newBlock, k);
      assert With(old(blocks), k, newBlock)[k] == newBlock;
    }

    /** Some free block is large enough for the request. */
    ghost predicate Fits(size: nat, align: nat)
      requires align > 0
      reads this
    {
      exists i :: 0 <= i < |blocks| && RequiredSize(blocks[i], size, align) <= blocks[i].size
    }

    /** `find_suitable_free_block`: takes the first free block that is large enough. */
    method FindSuitable(size: nat, align: nat) returns (r: Option<Block>, ghost k: nat)
      requires ListValid() && align > 0
      modifies this`head, this`tail, this`mem, this`blocks, this`used
      ensures ListValid() && k <= |old(blocks)|
      ensures forall j :: 0 <= j < k ==> RequiredSize(old(blocks)[j], size, align) > old(blocks)[j].size
      ensures r.None? <==> k == |old(blocks)|
      ensures r.None? ==> unchanged(this)
      ensures r.Some? ==>
        && r.value == old(blocks)[k] && RequiredSize(r.value, size, align) <= r.value.size
        && r.value !in old(used) && used == old(used) + {r.value} && blocks == Without(old(blocks), k)
        && UsedKept(old(mem), mem, used)
    {
      hide HeapOk, Linked, UsedKept, AddressAt, Backed, Spread, RequiredSize;
      var current := head;
      k := 0;
      HeadAddress(mem, head, tail, blocks);
      while current != 0
        invariant 0 <= k <= |blocks| && current == AddressAt(blocks, k)
        invariant unchanged(this)
        invariant forall j :: 0 <= j < k ==> RequiredSize(blocks[j], size, align) > blocks[j].size
        decreases |blocks| - k
      {
        CursorAddress(blocks, used, heapSize, k);
        AddressOf(blocks, k);
        HeapIsSpread(blocks, used, heapSize);
        ReadNode(mem, head, tail, blocks, k);
        var block := Block(current, mem[current]);
        if block.size >= RequiredSize(block, size, align) {
          NextAfter(blocks, used, heapSize, k);
          var removed, _ := RemoveCurrent(current, k);
          r := Some(removed);
          return;
        }
        current := mem[current + 8];
        k := k + 1;
      }
      CursorAddress(blocks, used, heapSize, k);
      r := None;
    }

    /** `increase_heap_size`: half as much again as the heap holds, or what was asked for, is added
        at the end. It fails when the heap would run past the top of the address space. */
    method Grow(size: nat) returns (ok: bool)
      requires ListValid()
      modifies this`head, this`tail, this`mem, this`blocks, this`used, this`heapSize
      ensures ListValid() && ok == (Grown(old(heapSize), size) <= MAX_HEAP)
      ensures !ok ==> unchanged(this)
      ensures ok ==> heapSize == Grown(old(heapSize), size) && used == old(used) && UsedKept(old(mem), mem, used)
      ensures ok ==> HasFree(Block(HEAP_START + old(heapSize), Grown(old(heapSize), size) - old(heapSize)))
    {
      hide HeapOk, Linked, UsedKept, AddressAt, Backed, Spread;
      var pages := NewPages(heapSize, size);
      NewPagesFacts(heapSize, size);
      if heapSize + pages * PAGE_SIZE > MAX_HEAP {
        return false;
      }
      var newBlock := Block(HEAP_START + heapSize, pages * PAGE_SIZE);
      GrowHeap(blocks, used, heapSize, newBlock);
      var contents := ReadPages(newBlock);
      BackedMore(mem, contents, newBlock, heapSize);
      mem := contents + mem;
      MoreMemory(old(mem), mem, head, tail, blocks, used);
      heapSize := heapSize + pages * PAGE_SIZE;
      used := used + {newBlock};
      ghost var mem1 := mem;
      AddFreeBlock(newBlock);
      UsedKeptTwice(old(mem), mem1, mem, old(used), used, used);
      ok := true;
    }

    /** Writes the header of an allocation behind the padding; its data starts right behind that. */
    method WriteHeader(b: Block, padding: nat) returns (p: nat)
      requires ListValid() && b in used && padding % 8 == 0 && padding + ALLOC_HEADER <= b.size
      modifies this`mem
      ensures ListValid() && p == b.address + padding + ALLOC_HEADER && UsedKept(old(mem), mem, used - {b})
      ensures LiveOk(mem, used, p, Live(b, padding, b.size - padding - ALLOC_HEADER))
    {
      hide HeapOk, Linked, UsedKept, Backed, PackHeader;
      UsedInHeap(blocks, used, heapSize, b);
      BackedWord(mem, heapSize, b.address + padding);
      UsedWrite(mem, head, tail, blocks, used, heapSize, b, b.address + padding, PackHeader(b.size, padding));
      mem := mem[b.address + padding := PackHeader(b.size, padding)];
      p := b.address + padding + ALLOC_HEADER;
    }

    /** Cuts what is not taken from a used block and gives it back, when it is more than a header. */
    method SplitOff(b: Block, taken: nat) returns (front: Block)
      requires ListValid() && b in used && HEADER <= taken <= b.size && taken % 8 == 0
      modifies this`head, this`tail, this`mem, this`blocks, this`used
      ensures ListValid() && front == Block(b.address, if b.size - taken > HEADER then taken else b.size)
      ensures front !in old(used) - {b} && used == old(used) - {b} + {front}
      ensures UsedKept(old(mem), mem, old(used) - {b})
    {
      hide HeapOk, Linked, UsedKept, Backed;
      UsedInHeap(blocks, used, heapSize, b);
      front := b;
      if b.size - taken > HEADER {
        front := Block(b.address, taken);
        var rest := Block(b.address + taken, b.size - taken);
        SplitUsed(blocks, used, heapSize, b, front, rest);
        used := used - {b} + {front, rest};
        AddFreeBlock(rest);
        assert used == old(used) - {b} + {front};
        UsedKeptLess(old(mem), mem, used, old(used) - {b});
      } else {
        UsedKeptSame(mem, used - {b});
        assert used == old(used) - {b} + {front};
      }
    }

    /** The block is cut when more than a header is left over, and the header of the
        allocation is written. */
    method Carve(b: Block, size: nat, align: nat) returns (p: nat, ghost l: Live)
      requires ListValid() && b in used && IsPowerOfTwo(align) && align > 0
      requires RequiredSize(b, size, align) <= b.size
      modifies this`head, this`tail, this`mem, this`blocks, this`used
      ensures ListValid() && p % align == 0 && l.size == size && (align <= 256 ==> l.padding < 256)
      ensures l.block.address == b.address && l.block !in old(used) - {b} && used == old(used) - {b} + {l.block}
      ensures l.block.size == if b.size - TakenSize(b, size, align) > HEADER then TakenSize(b, size, align) else b.size
      ensures l.padding == AlignOffset(b.address + ALLOC_HEADER, align)
      ensures LiveOk(mem, used, p, l) && UsedKept(old(mem), mem, old(used) - {b})
    {
      hide HeapOk, Linked, UsedKept, AddressAt, Backed, Spread, RequiredSize, TakenSize, IsPowerOfTwo, AlignOffset;
      UsedInHeap(blocks, used, heapSize, b);
      TakenFits(b, size, align);
      AlignedData(b.address, align);
      var padding := AlignOffset(b.address + ALLOC_HEADER, align);
      var front := SplitOff(b, TakenSize(b, size, align));
      ghost var mem1 := mem;
      p := WriteHeader(front, padding);
      UsedKeptTwice(old(mem), mem1, mem, old(used) - {b}, used - {front}, old(used) - {b});
      l := Live(front, padding, size);
    }

    /** `alloc`, when the environment grants `grants` growths of the heap. The data is aligned and
        lies in a block of its own, no word of another allocation changes, and two growths are
        always enough for alignments up to the initial heap size. */
    method Alloc(size: nat, align: nat, grants: nat) returns (r: Option<nat>, growths: nat)
      requires Valid() && IsPowerOfTwo(align) && align > 0
      modifies this
      ensures Valid() && UsedKept(old(mem), mem, old(used)) && growths <= grants
      ensures heapSize == GrownTimes(old(heapSize), size, growths)
      ensures r.None? ==> live == old(live)
      ensures r.Some? ==>
        && r.value !in old(live) && r.value in live && live == old(live)[r.value := live[r.value]]
        && r.value % align == 0 && live[r.value].size == size && (align <= 256 ==> live[r.value].padding < 256)
        && live[r.value].padding == AlignOffset(live[r.value].block.address + ALLOC_HEADER, align)
      ensures old(Fits(size, align)) ==>
        && r.Some? && growths == 0
        && FirstFit(old(blocks), size, align, live[r.value].block.address)
      ensures Ample(old(heapSize), size, align) ==>
        && growths <= 1
        && (grants >= 1 && Grown(old(heapSize), size) <= MAX_HEAP ==> r.Some?)
      ensures align <= INIT_PAGES * PAGE_SIZE ==>
        && growths <= 2
        && (grants >= 2 && Grown(Grown(old(heapSize), size), size) <= MAX_HEAP ==> r.Some?)
      decreases grants
    {
      hide HeapOk, Linked, UsedKept, AddressAt, Backed, Spread, RequiredSize, TakenSize, IsPowerOfTwo,
        LiveOk, LivesOk, NothingLost, Grown, Ample, AlignOffset;
      AmpleAfterGrowth(heapSize, size, align);
      var found, k := FindSuitable(size, align);
      growths := 0;
      if found.Some? {
        assert FirstFit(old(blocks), size, align, found.value.address);
        ghost var mem1 := mem;
        var p, l := Carve(found.value, size, align);
        assert used == old(used) + {l.block};
        UsedKeptTwice(old(mem), mem1, mem, old(used) + {found.value}, old(used), old(used));
        NewLive(old(mem), mem, blocks, heapSize, old(used), live, p, l);
        live := live[p := l];
        r := Some(p);
      } else if grants == 0 {
        UsedKeptSame(mem, used);
        r := None;
      } else {
        assert !Fits(size, align);
        var ok := Grow(size);
        if ok {
          LivesKept(old(mem), mem, used, live);
          if Ample(old(heapSize), size, align) {
            FitsAfterGrowth(old(heapSize), size, align, blocks);
          }
          ghost var mem1 := mem;
          r, growths := Alloc(size, align, grants - 1);
          growths := growths + 1;
          UsedKeptTwice(old(mem), mem1, mem, old(used), old(used), old(used));
        } else {
          UsedKeptSame(mem, used);
          r := None;
        }
      }
    }

    /** `dealloc`: the block is found again from the header, and goes back to the free list. A null
        pointer is ignored. */
    method Dealloc(p: nat)
      requires Valid() && (p == 0 || (p in live && live[p].padding < 256))
      modifies this`head, this`tail, this`mem, this`blocks, this`used, this`live
      ensures Valid()
      ensures p == 0 ==> unchanged(this)
      ensures p != 0 ==>
        && live == old(live) - {p} && used == old(used) - {old(live)[p].block}
        && UsedKept(old(mem), mem, used) && HasFree(old(live)[p].block)
    {
      if p == 0 {
        return;
      }
      ghost var l := live[p];
      assert LiveOk(mem, used, p, l);
      RecoverBlock(mem, blocks, used, heapSize, p, l);
      hide HeapOk, Linked, UsedKept, Backed, LivesOk, NothingLost, HeaderSize, HeaderPadding;
      var header := p - ALLOC_HEADER;
      var block := Block(header - HeaderPadding(mem[header]), HeaderSize(mem[header]));
      assert block.size >= l.size;
      AddFreeBlock(block);
      LiveGone(old(mem), mem, old(used), live, p);
      live := live - {p};
    }

    /** The owner of an allocation writes a word of its data. */
    method Store(p: nat, a: nat, w: nat)
      requires Valid() && p in live && a % 8 == 0 && p <= a && a + 8 <= p + live[p].size
      modifies this`mem
      ensures Valid() && mem == old(mem)[a := w]
    {
      ghost var l := live[p];
      assert LiveOk(mem, used, p, l);
      UsedWrite(mem, head, tail, blocks, used, heapSize, l.block, a, w);
      DataWrite(mem, used, live, p, a, w);
      hide HeapOk, Linked, UsedKept, Backed, LivesOk, NothingLost;
      mem := mem[a := w];
    }
  }

  /** In a new heap: an allocation with alignment 512 has a padding of 504, and the block that is read
      back from its header is not the one it was given. */
  method WideAlignmentLosesBlock() returns (p: nat, found: Block, ghost l: Live)
    ensures l.block.address == HEAP_START && l.padding == 504 && p == HEAP_START + 512
    ensures found == Block(HEAP_START + 256, l.block.size)
  {
    var heap := new KernelHeap();
    NewHeapFits();
    assert heap.blocks[0] == Block(HEAP_START, INIT_PAGES * PAGE_SIZE);
    assert heap.Fits(8, 512);
    assert IsPowerOfTwo(512) by { assert Pow2(9) == 512 by { Constants(); } }
    ghost var blocks := heap.blocks;
    var r, _ := heap.Alloc(8, 512, 0);
    assert FirstFit(blocks, 8, 512, heap.live[r.value].block.address);
    p := r.value;
    l := heap.live[p];
    assert LiveOk(heap.mem, heap.used, p, l);
    RecoverBlock(heap.mem, heap.blocks, heap.used, heap.heapSize, p, l);
    var w := heap.mem[p - ALLOC_HEADER];
    found := Block(p - ALLOC_HEADER - HeaderPadding(w), HeaderSize(w));
  }

  lemma NewHeapFits()
    ensures AlignOffset(HEAP_START + ALLOC_HEADER, 512) == 504
    ensures RequiredSize(Block(HEAP_START, INIT_PAGES * PAGE_SIZE), 8, 512) <= INIT_PAGES * PAGE_SIZE
  {
  }

  /** Some free block starts where `b` ends or ends where it starts. */
  ghost predicate AdjoinsOne(blocks: seq<Block>, b: Block) {
    exists i :: 0 <= i < |blocks| && (b.End() == blocks[i].address || blocks[i].End() == b.address)
  }

  lemma Adjoin(blocks: seq<Block>, b: Block, i: nat)
    requires i < |blocks| && (b.End() == blocks[i].address || blocks[i].End() == b.address)
    ensures AdjoinsOne(blocks, b)
  {
  }

  /** Between the blocks in front of `k`, which end before `b`, and those from `k` on, which start
      behind it, nothing adjoins. */
  lemma AdjoinNone(blocks: seq<Block>, used: set<Block>, heapSize: nat, b: Block, k: nat)
    requires HeapOk(blocks, used, heapSize) && b in used && k <= |blocks|
    requires k > 0 ==> blocks[k - 1].End() < b.address
    requires k < |blocks| ==> b.End() != blocks[k].address && b.address < blocks[k].address
    ensures !AdjoinsOne(blocks, b)
  {
    forall i | 0 <= i < |blocks| ensures b.End() != blocks[i].address && blocks[i].End() != b.address {
      FreeUsedApart(blocks, used, heapSize, i, b);
      if i < k - 1 { SortedEnds(blocks, used, heapSize, i, k - 1); }
      if k < i {
        SortedEnds(blocks, used, heapSize, k, i);
        FreeUsedApart(blocks, used, heapSize, k, b);
      }
    }
  }

  lemma NextAfter(blocks: seq<Block>, used: set<Block>, heapSize: nat, k: nat)
    requires HeapOk(blocks, used, heapSize) && k < |blocks|
    ensures k + 1 < |blocks| ==> blocks[k].address < blocks[k + 1].address
    ensures blocks[k] !in used
  {
    assert blocks[k] in Elements(blocks);
  }

  lemma ApartAfter(b: Block, c: Block)
    requires Apart(b, c) && b.Ok() && c.Ok() && c.address >= b.address
    ensures b.End() <= c.address
  {
  }

  lemma UsedKeptLess(m0: Memory, m1: Memory, used: set<Block>, less: set<Block>)
    requires UsedKept(m0, m1, used) && less <= used
    ensures UsedKept(m0, m1, less)
  {
  }

  lemma HeadAddress(mem: Memory, head: nat, tail: nat, blocks: seq<Block>)
    requires Linked(mem, head, tail, blocks)
    ensures head == AddressAt(blocks, 0)
  {
  }

  lemma AddressOf(blocks: seq<Block>, k: nat)
    requires k < |blocks|
    ensures AddressAt(blocks, k) == blocks[k].address
  {
  }
}
