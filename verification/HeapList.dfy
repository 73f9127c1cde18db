/** The free list of the kernel heap, stored in the memory it manages: the header of a free block
    is three words at its address (size, next, prev; zero is the null pointer). */
module HeapList {
  import opened HeapBlocks

  /** Words of heap memory by address. */
  type Memory = map<nat, nat>

  ghost function AddressAt(blocks: seq<Block>, i: int): nat {
    if 0 <= i < |blocks| then blocks[i].address else 0
  }

  ghost predicate HeaderAt(mem: Memory, a: nat, size: nat, next: nat, prev: nat) {
    && a in mem && a + 8 in mem && a + 16 in mem
    && mem[a] == size && mem[a + 8] == next && mem[a + 16] == prev
  }

  /** Head, tail and the headers in memory spell the sequence of free blocks, both ways. */
  ghost predicate Linked(mem: Memory, head: nat, tail: nat, blocks: seq<Block>) {
    && head == AddressAt(blocks, 0) && tail == AddressAt(blocks, |blocks| - 1)
    && forall i :: 0 <= i < |blocks| ==> NodeOk(mem, blocks, i)
  }

  ghost predicate NodeOk(mem: Memory, blocks: seq<Block>, i: nat)
    requires i < |blocks|
  {
    HeaderAt(mem, blocks[i].address, blocks[i].size, AddressAt(blocks, i + 1), AddressAt(blocks, i - 1))
  }

  /** Headers of different free blocks do not overlap, and no free block is at address zero. */
  ghost predicate Spread(blocks: seq<Block>) {
    && (forall i :: 0 <= i < |blocks| ==> blocks[i].address > 0)
    && (forall i, j :: 0 <= i < j < |blocks| ==> blocks[i].address + HEADER <= blocks[j].address)
  }

  lemma HeapIsSpread(blocks: seq<Block>, used: set<Block>, heapSize: nat)
    requires HeapOk(blocks, used, heapSize)
    ensures Spread(blocks)
  {
    forall i | 0 <= i < |blocks| ensures blocks[i].address > 0 {
      assert blocks[i] in Elements(blocks) + used;
    }
    forall i, j | 0 <= i < j < |blocks| ensures blocks[i].address + HEADER <= blocks[j].address {
      SortedEnds(blocks, used, heapSize, i, j);
    }
  }

  /** The words of used blocks are as they were. */
  ghost predicate UsedKept(before: Memory, mem: Memory, used: set<Block>) {
    && before.Keys <= mem.Keys
    && forall b, a :: b in used && b.Contains(a) && a in before && a in mem ==> mem[a] == before[a]
  }

  ghost predicate Backed(mem: Memory, heapSize: nat) {
    forall a: nat :: HEAP_START <= a < HEAP_START + heapSize && a % 8 == 0 ==> a in mem
  }

  /** Unlinking block `k`: its neighbours point to each other. */
  ghost function Unlinked(mem: Memory, next: nat, prev: nat): Memory {
    var m := if next != 0 then mem[next + 16 := prev] else mem;
    if prev != 0 then m[prev + 8 := next] else m
  }

  lemma WithoutAddress(blocks: seq<Block>, k: nat, i: int)
    requires k < |blocks|
    ensures AddressAt(Without(blocks, k), i) == AddressAt(blocks, if i < k then i else i + 1)
  {
  }

  lemma UnlinkedNode(mem: Memory, blocks: seq<Block>, k: nat, i: nat)
    requires Spread(blocks) && k < |blocks| && i < |blocks| - 1 && NodeOk(mem, blocks, if i < k then i else i + 1)
    ensures NodeOk(Unlinked(mem, AddressAt(blocks, k + 1), AddressAt(blocks, k - 1)), Without(blocks, k), i)
  {
    WithoutAddress(blocks, k, i + 1);
    WithoutAddress(blocks, k, i - 1);
    var j := if i < k then i else i + 1;
    assert Without(blocks, k)[i] == blocks[j];
    if j == k - 1 || j == k + 1 {
    } else if j < k - 1 {
      assert k + 1 < |blocks| ==> blocks[j].address + HEADER <= blocks[k + 1].address;
      assert blocks[j].address + HEADER <= blocks[k - 1].address;
    } else {
      assert blocks[k + 1].address + HEADER <= blocks[j].address;
      assert k > 0 ==> blocks[k - 1].address + HEADER <= blocks[j].address;
    }
  }

  lemma UnlinkedIsLinked(mem: Memory, head: nat, tail: nat, blocks: seq<Block>, k: nat)
    requires Linked(mem, head, tail, blocks) && Spread(blocks) && k < |blocks|
    ensures var next, prev := AddressAt(blocks, k + 1), AddressAt(blocks, k - 1);
            Linked(Unlinked(mem, next, prev), if prev == 0 then next else head,
                   if tail == blocks[k].address then prev else tail, Without(blocks, k))
  {
    hide NodeOk, Unlinked;
    var next, prev := AddressAt(blocks, k + 1), AddressAt(blocks, k - 1);
    var mem', rest := Unlinked(mem, next, prev), Without(blocks, k);
    forall i | 0 <= i < |rest| ensures NodeOk(mem', rest, i) {
      UnlinkedNode(mem, blocks, k, i);
    }
    WithoutAddress(blocks, k, 0);
    WithoutAddress(blocks, k, |rest| - 1);
  }

  /** Linking a block at `a` in front of the block that was at index `k`. */
  ghost function Inserted(mem: Memory, a: nat, size: nat, next: nat, prev: nat): Memory {
    var m := mem[a := size][a + 8 := next][a + 16 := prev];
    var m1 := if prev != 0 then m[prev + 8 := a] else m;
    if next != 0 then m1[next + 16 := a] else m1
  }

  lemma InsertedIsLinked(mem: Memory, head: nat, tail: nat, blocks: seq<Block>, k: nat, b: Block)
    requires Linked(mem, head, tail, blocks) && k <= |blocks| && Spread(With(blocks, k, b))
    ensures var next, prev := AddressAt(blocks, k), AddressAt(blocks, k - 1);
            Linked(Inserted(mem, b.address, b.size, next, prev), if k == 0 then b.address else head,
                   if k == |blocks| then b.address else tail, With(blocks, k, b))
  {
    var next, prev := AddressAt(blocks, k), AddressAt(blocks, k - 1);
    var mem', more := Inserted(mem, b.address, b.size, next, prev), With(blocks, k, b);
    forall i | 0 <= i < |more| ensures NodeOk(mem', more, i) {
      if i == k {
        assert k < |blocks| ==> more[k + 1] == blocks[k];
        assert k > 0 ==> more[k - 1] == blocks[k - 1];
      } else {
        var j := if i < k then i else i - 1;
        assert more[i] == blocks[j];
        assert NodeOk(mem, blocks, j);
        assert more[k] == b;
        assert k < |blocks| ==> more[k + 1] == blocks[k];
        assert k > 0 ==> more[k - 1] == blocks[k - 1];
      }
    }
  }

  lemma ExtendedIsLinked(mem: Memory, head: nat, tail: nat, blocks: seq<Block>, k: nat, size: nat)
    requires Linked(mem, head, tail, blocks) && Spread(blocks) && k < |blocks|
    ensures Linked(mem[blocks[k].address := size], head, tail, blocks[k := Block(blocks[k].address, size)])
  {
    var a := blocks[k].address;
    var mem', after := mem[a := size], blocks[k := Block(a, size)];
    forall i | 0 <= i < |after| ensures NodeOk(mem', after, i) {
      assert NodeOk(mem, blocks, i);
    }
  }

  /** A word of a free block header is not in a used block. */
  lemma HeaderNotUsed(blocks: seq<Block>, used: set<Block>, heapSize: nat, i: nat, b: Block, a: nat)
    requires HeapOk(blocks, used, heapSize) && i < |blocks| && b in used
    requires blocks[i].address <= a < blocks[i].address + HEADER
    ensures !b.Contains(a)
  {
    var all := Elements(blocks) + used;
    assert blocks[i] in all && b in all;
    assert Apart(blocks[i], b);
  }

  lemma UnlinkedKeeps(mem: Memory, blocks: seq<Block>, used: set<Block>, heapSize: nat, k: nat)
    requires HeapOk(blocks, used, heapSize) && k < |blocks|
    ensures UsedKept(mem, Unlinked(mem, AddressAt(blocks, k + 1), AddressAt(blocks, k - 1)), used + {blocks[k]})
  {
    var next, prev := AddressAt(blocks, k + 1), AddressAt(blocks, k - 1);
    var mem' := Unlinked(mem, next, prev);
    forall b, a | b in used + {blocks[k]} && b.Contains(a) && a in mem && a in mem' ensures mem'[a] == mem[a] {
      if k + 1 < |blocks| {
        SortedEnds(blocks, used, heapSize, k, k + 1);
        if b in used && a == next + 16 { HeaderNotUsed(blocks, used, heapSize, k + 1, b, a); }
      }
      if k > 0 {
        SortedEnds(blocks, used, heapSize, k - 1, k);
        if b in used && a == prev + 8 { HeaderNotUsed(blocks, used, heapSize, k - 1, b, a); }
      }
    }
  }

  lemma InsertedKeeps(mem: Memory, blocks: seq<Block>, used: set<Block>, heapSize: nat, k: nat, b: Block)
    requires HeapOk(blocks, used, heapSize) && k <= |blocks| && b in used
    ensures UsedKept(mem, Inserted(mem, b.address, b.size, AddressAt(blocks, k), AddressAt(blocks, k - 1)), used - {b})
  {
    var next, prev := AddressAt(blocks, k), AddressAt(blocks, k - 1);
    var mem' := Inserted(mem, b.address, b.size, next, prev);
    forall c, a | c in used - {b} && c.Contains(a) && a in mem && a in mem' ensures mem'[a] == mem[a] {
      assert b in Elements(blocks) + used && c in Elements(blocks) + used;
      assert Apart(b, c);
      if k < |blocks| && a == next + 16 { HeaderNotUsed(blocks, used, heapSize, k, c, a); }
      if k > 0 && a == prev + 8 { HeaderNotUsed(blocks, used, heapSize, k - 1, c, a); }
    }
  }

  lemma ExtendedKeeps(mem: Memory, blocks: seq<Block>, used: set<Block>, heapSize: nat, k: nat, size: nat)
    requires HeapOk(blocks, used, heapSize) && k < |blocks|
    ensures UsedKept(mem, mem[blocks[k].address := size], used)
  {
    var mem' := mem[blocks[k].address := size];
    forall b, a | b in used && b.Contains(a) && a in mem && a in mem' ensures mem'[a] == mem[a] {
      if a == blocks[k].address { HeaderNotUsed(blocks, used, heapSize, k, b, a); }
    }
  }

  /** What the headers of a block and its neighbours say. */
  lemma ReadNode(mem: Memory, head: nat, tail: nat, blocks: seq<Block>, k: nat)
    requires Linked(mem, head, tail, blocks) && k < |blocks| && Spread(blocks)
    ensures HeaderAt(mem, blocks[k].address, blocks[k].size, AddressAt(blocks, k + 1), AddressAt(blocks, k - 1))
    ensures head == AddressAt(blocks, 0) && tail == AddressAt(blocks, |blocks| - 1)
    ensures AddressAt(blocks, k + 1) != 0 ==>
      AddressAt(blocks, k + 1) + 16 in mem && mem[AddressAt(blocks, k + 1) + 16] == blocks[k].address
    ensures AddressAt(blocks, k - 1) != 0 ==>
      AddressAt(blocks, k - 1) + 8 in mem && mem[AddressAt(blocks, k - 1) + 8] == blocks[k].address
    ensures AddressAt(blocks, k - 1) == 0 <==> k == 0
    ensures tail == blocks[k].address <==> AddressAt(blocks, k + 1) == 0
  {
    assert NodeOk(mem, blocks, k);
    assert k > 0 ==> NodeOk(mem, blocks, k - 1);
    assert k + 1 < |blocks| ==> NodeOk(mem, blocks, k + 1);
  }

  lemma BackedKept(mem: Memory, mem': Memory, heapSize: nat)
    requires Backed(mem, heapSize) && mem.Keys <= mem'.Keys
    ensures Backed(mem', heapSize)
  {
  }

  /** The cursor walks from block to block. */
  lemma CursorAddress(blocks: seq<Block>, used: set<Block>, heapSize: nat, k: nat)
    requires HeapOk(blocks, used, heapSize) && k <= |blocks|
    ensures AddressAt(blocks, k) == 0 <==> k == |blocks|
    ensures k < |blocks| ==> blocks[k].Ok() && blocks[k].End() <= HEAP_START + heapSize
  {
    HeapIsSpread(blocks, used, heapSize);
    if k < |blocks| {
      assert blocks[k] in Elements(blocks) + used;
      BlockInHeap(Elements(blocks) + used, heapSize, blocks[k]);
    }
  }

  /** What the list says around the place where block `b` goes in. */
  lemma ReadEnds(mem: Memory, head: nat, tail: nat, blocks: seq<Block>, k: nat, b: Block)
    requires Linked(mem, head, tail, blocks) && k <= |blocks| && Spread(blocks) && Spread(With(blocks, k, b))
    ensures var next, prev := AddressAt(blocks, k), AddressAt(blocks, k - 1);
            && (next == head <==> k == 0) && (prev == 0 <==> k == 0)
            && (next == 0 <==> k == |blocks|) && (tail == 0 <==> blocks == [])
            && (k == |blocks| ==> tail == prev)
            && (next != 0 ==> next + 16 in mem && mem[next + 16] == prev && next + HEADER > next && b.address + HEADER <= next)
            && (prev != 0 ==> prev + 8 in mem && mem[prev + 8] == next && prev + HEADER <= b.address)
  {
    assert With(blocks, k, b)[k] == b;
    if k < |blocks| {
      assert With(blocks, k, b)[k + 1] == blocks[k];
      assert NodeOk(mem, blocks, k);
    }
    if k > 0 {
      assert With(blocks, k, b)[k - 1] == blocks[k - 1];
      assert NodeOk(mem, blocks, k - 1);
    }
  }

  lemma UsedKeptTwice(m0: Memory, m1: Memory, m2: Memory, used1: set<Block>, used2: set<Block>, used: set<Block>)
    requires UsedKept(m0, m1, used1) && UsedKept(m1, m2, used2) && used <= used1 && used <= used2
    ensures UsedKept(m0, m2, used)
  {
  }

  lemma UsedKeptSame(mem: Memory, used: set<Block>)
    ensures UsedKept(mem, mem, used)
  {
  }

  /** Writing a word of used block `b` touches neither the list nor the other used blocks. */
  lemma UsedWrite(mem: Memory, head: nat, tail: nat, blocks: seq<Block>, used: set<Block>, heapSize: nat,
                  b: Block, a: nat, w: nat)
    requires HeapOk(blocks, used, heapSize) && Linked(mem, head, tail, blocks) && Backed(mem, heapSize)
    requires b in used && b.Contains(a)
    ensures Linked(mem[a := w], head, tail, blocks) && Backed(mem[a := w], heapSize)
    ensures UsedKept(mem, mem[a := w], used - {b})
  {
    var mem' := mem[a := w];
    forall i | 0 <= i < |blocks| ensures NodeOk(mem', blocks, i) {
      assert NodeOk(mem, blocks, i);
      FreeUsedApart(blocks, used, heapSize, i, b);
    }
    forall c, x | c in used - {b} && c.Contains(x) && x in mem && x in mem' ensures mem'[x] == mem[x] {
      assert b in Elements(blocks) + used && c in Elements(blocks) + used;
      assert Apart(b, c);
    }
  }

  /** More memory changes nothing in the memory that was there. */
  lemma MoreMemory(mem: Memory, mem': Memory, head: nat, tail: nat, blocks: seq<Block>, used: set<Block>)
    requires Linked(mem, head, tail, blocks) && mem.Keys <= mem'.Keys
    requires forall a :: a in mem ==> mem'[a] == mem[a]
    ensures Linked(mem', head, tail, blocks) && UsedKept(mem, mem', used)
  {
    forall i | 0 <= i < |blocks| ensures NodeOk(mem', blocks, i) {
      assert NodeOk(mem, blocks, i);
    }
  }
}
