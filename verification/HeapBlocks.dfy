/** Blocks of the kernel heap: free blocks in address order and used blocks, which together cover
    the heap exactly. */
module HeapBlocks {

  const HEADER: nat := 24       // a free block header: size, next, prev
  const HEAP_START: nat := 0xffff_ff00_0000_0000
  const MAX_HEAP: nat := 0x100_0000_0000  // the heap region ends at the top of the address space

  datatype Block = Block(address: nat, size: nat)
  {
    function End(): nat { address + size }

    ghost predicate Contains(a: int) { address <= a < End() }

    /** What every block satisfies: it can hold a free block header. */
    ghost predicate Ok() {
      address % 8 == 0 && size % 8 == 0 && size >= HEADER && HEAP_START <= address
    }
  }

  ghost predicate Apart(a: Block, b: Block) { a.End() <= b.address || b.End() <= a.address }

  /** The blocks tile the heap: no two overlap and together they cover it exactly. */
  ghost predicate Tiling(all: set<Block>, heapSize: nat) {
    && (forall b :: b in all ==> b.Ok())
    && (forall b, c :: b in all && c in all && b != c ==> Apart(b, c))
    && (forall a :: HEAP_START <= a < HEAP_START + heapSize <==> Covered(all, a))
  }

  ghost predicate Covered(all: set<Block>, a: int) {
    exists b :: b in all && b.Contains(a)
  }

  /** The free list is in increasing order of addresses. */
  ghost predicate Sorted(blocks: seq<Block>) {
    forall i, j :: 0 <= i < j < |blocks| ==> blocks[i].address < blocks[j].address
  }

  ghost function Elements(blocks: seq<Block>): set<Block> {
    set b | b in blocks
  }

  /** Free blocks in order and used blocks make up the heap. */
  ghost predicate HeapOk(blocks: seq<Block>, used: set<Block>, heapSize: nat) {
    && Sorted(blocks) && Elements(blocks) !! used
    && Tiling(Elements(blocks) + used, heapSize)
  }

  lemma BlockInHeap(all: set<Block>, heapSize: nat, b: Block)
    requires Tiling(all, heapSize) && b in all
    ensures HEAP_START <= b.address && b.End() <= HEAP_START + heapSize
  {
    assert b.Contains(b.address) && b.Contains(b.End() - 1);
    assert Covered(all, b.address) && Covered(all, b.End() - 1);
  }

  /** Cutting a block in two. */
  lemma SplitTiling(all: set<Block>, heapSize: nat, b: Block, front: Block, back: Block)
    requires Tiling(all, heapSize) && b in all && front.Ok() && back.Ok()
    requires front.address == b.address && front.End() == back.address && back.End() == b.End()
    ensures front !in all && back !in all
    ensures Tiling(all - {b} + {front, back}, heapSize)
  {
    assert front in all ==> Apart(front, b);
    assert back in all ==> Apart(back, b);
    var all' := all - {b} + {front, back};
    forall c | c in all && c != b ensures Apart(c, front) && Apart(c, back) && Apart(front, c) && Apart(back, c) {
      assert Apart(c, b);
    }
    forall a ensures Covered(all', a) <==> Covered(all, a) {
      if Covered(all, a) {
        var c :| c in all && c.Contains(a);
        assert c == b ==> front.Contains(a) || back.Contains(a);
        assert c != b ==> c in all';
      }
      if Covered(all', a) {
        var c :| c in all' && c.Contains(a);
        assert c in all || b.Contains(a);
      }
    }
  }

  /** Joining two adjacent blocks. */
  lemma MergeTiling(all: set<Block>, heapSize: nat, front: Block, back: Block)
    requires Tiling(all, heapSize) && front in all && back in all && front.End() == back.address
    ensures var b := Block(front.address, front.size + back.size);
            b !in all - {front, back} && Tiling(all - {front, back} + {b}, heapSize)
  {
    var b := Block(front.address, front.size + back.size);
    var all' := all - {front, back} + {b};
    forall c | c in all && c != front && c != back ensures Apart(c, b) && Apart(b, c) {
      assert Apart(c, front) && Apart(c, back);
      MergeApart(c, front, back);
    }
    forall a ensures Covered(all', a) <==> Covered(all, a) {
      if Covered(all, a) {
        var c :| c in all && c.Contains(a);
        assert c == front || c == back ==> b.Contains(a);
        assert c != front && c != back ==> c in all';
      }
      if Covered(all', a) {
        var c :| c in all' && c.Contains(a);
        assert c in all || front.Contains(a) || back.Contains(a);
      }
    }
  }

  lemma MergeApart(c: Block, front: Block, back: Block)
    requires Apart(c, front) && Apart(c, back) && front.End() == back.address && c.Ok() && front.Ok() && back.Ok()
    ensures Apart(c, Block(front.address, front.size + back.size))
  {
  }

  /** Adding pages at the end of the heap. */
  lemma GrowTiling(all: set<Block>, heapSize: nat, b: Block)
    requires Tiling(all, heapSize) && b.Ok() && b.address == HEAP_START + heapSize
    ensures b !in all && Tiling(all + {b}, heapSize + b.size)
  {
    if b in all { BlockInHeap(all, heapSize, b); }
    var all' := all + {b};
    forall c | c in all ensures Apart(c, b) && Apart(b, c) {
      BlockInHeap(all, heapSize, c);
    }
    forall a ensures HEAP_START <= a < HEAP_START + heapSize + b.size <==> Covered(all', a) {
      if Covered(all, a) {
        var c :| c in all && c.Contains(a);
        assert c in all';
      }
      if b.Contains(a) { assert b in all'; }
      if Covered(all', a) {
        var c :| c in all' && c.Contains(a);
        assert c == b || Covered(all, a);
      }
    }
  }

  // ---- The free list as a sequence ----

  ghost function Without(blocks: seq<Block>, k: nat): seq<Block>
    requires k < |blocks|
  {
    blocks[..k] + blocks[k + 1..]
  }

  ghost function With(blocks: seq<Block>, k: nat, b: Block): seq<Block>
    requires k <= |blocks|
  {
    blocks[..k] + [b] + blocks[k..]
  }

  lemma WithoutElements(blocks: seq<Block>, k: nat)
    requires Sorted(blocks) && k < |blocks|
    ensures Sorted(Without(blocks, k)) && Elements(Without(blocks, k)) == Elements(blocks) - {blocks[k]}
  {
    WithoutSorted(blocks, k);
    var rest := Without(blocks, k);
    forall b ensures b in rest <==> b in blocks && b != blocks[k] {
      WithoutHas(blocks, k, b);
    }
  }

  lemma WithoutSorted(blocks: seq<Block>, k: nat)
    requires Sorted(blocks) && k < |blocks|
    ensures Sorted(Without(blocks, k))
  {
    var rest := Without(blocks, k);
    forall i, j | 0 <= i < j < |rest| ensures rest[i].address < rest[j].address {
      assert rest[i] == blocks[if i < k then i else i + 1] && rest[j] == blocks[if j < k then j else j + 1];
    }
  }

  lemma WithoutHas(blocks: seq<Block>, k: nat, b: Block)
    requires Sorted(blocks) && k < |blocks|
    ensures b in Without(blocks, k) <==> b in blocks && b != blocks[k]
  {
    var rest := Without(blocks, k);
    if b in blocks && b != blocks[k] {
      var i :| 0 <= i < |blocks| && blocks[i] == b;
      assert rest[if i < k then i else i - 1] == b;
    }
    if b in rest {
      var i :| 0 <= i < |rest| && rest[i] == b;
      assert rest[i] == blocks[if i < k then i else i + 1];
    }
  }

  lemma WithElements(blocks: seq<Block>, k: nat, b: Block)
    requires Sorted(blocks) && k <= |blocks|
    requires k > 0 ==> blocks[k - 1].address < b.address
    requires k < |blocks| ==> b.address < blocks[k].address
    ensures Sorted(With(blocks, k, b)) && Elements(With(blocks, k, b)) == Elements(blocks) + {b}
  {
    WithSorted(blocks, k, b);
    var more := With(blocks, k, b);
    forall c ensures c in more <==> c in blocks || c == b {
      WithHas(blocks, k, b, c);
    }
  }

  lemma WithSorted(blocks: seq<Block>, k: nat, b: Block)
    requires Sorted(blocks) && k <= |blocks|
    requires k > 0 ==> blocks[k - 1].address < b.address
    requires k < |blocks| ==> b.address < blocks[k].address
    ensures Sorted(With(blocks, k, b))
  {
    var more := With(blocks, k, b);
    forall i, j | 0 <= i < j < |more| ensures more[i].address < more[j].address {
      assert i != k ==> more[i] == blocks[if i < k then i else i - 1];
      assert j != k ==> more[j] == blocks[if j < k then j else j - 1];
    }
  }

  lemma WithHas(blocks: seq<Block>, k: nat, b: Block, c: Block)
    requires k <= |blocks|
    ensures c in With(blocks, k, b) <==> c in blocks || c == b
  {
    var more := With(blocks, k, b);
    assert more[k] == b;
    if c in blocks {
      var i :| 0 <= i < |blocks| && blocks[i] == c;
      assert more[if i < k then i else i + 1] == c;
    }
  }

  /** Free blocks do not overlap either: each ends before the next begins. */
  lemma SortedEnds(blocks: seq<Block>, used: set<Block>, heapSize: nat, i: nat, j: nat)
    requires HeapOk(blocks, used, heapSize) && i < j < |blocks|
    ensures blocks[i].End() <= blocks[j].address && blocks[i].Ok() && blocks[j].Ok()
  {
    assert blocks[i] in Elements(blocks) + used && blocks[j] in Elements(blocks) + used;
    assert Apart(blocks[i], blocks[j]);
  }

  /** A free block that is taken becomes a used block. */
  lemma TakeBlock(blocks: seq<Block>, used: set<Block>, heapSize: nat, k: nat)
    requires HeapOk(blocks, used, heapSize) && k < |blocks|
    ensures HeapOk(Without(blocks, k), used + {blocks[k]}, heapSize)
  {
    WithoutElements(blocks, k);
    assert Elements(Without(blocks, k)) + (used + {blocks[k]}) == Elements(blocks) + used;
  }

  /** A used block that is inserted becomes a free block. */
  lemma PutBlock(blocks: seq<Block>, used: set<Block>, heapSize: nat, k: nat, b: Block)
    requires HeapOk(blocks, used, heapSize) && b in used && k <= |blocks|
    requires k > 0 ==> blocks[k - 1].address < b.address
    requires k < |blocks| ==> b.address < blocks[k].address
    ensures HeapOk(With(blocks, k, b), used - {b}, heapSize)
  {
    WithElements(blocks, k, b);
    assert Elements(With(blocks, k, b)) + (used - {b}) == Elements(blocks) + used;
  }

  lemma UpdateElements(blocks: seq<Block>, k: nat, b: Block)
    requires Sorted(blocks) && k < |blocks|
    requires k > 0 ==> blocks[k - 1].address < b.address
    requires b.address <= blocks[k].address
    ensures Sorted(blocks[k := b]) && Elements(blocks[k := b]) == Elements(blocks) - {blocks[k]} + {b}
  {
    var after := blocks[k := b];
    forall c | c in blocks && c != blocks[k] ensures c in after {
      var i :| 0 <= i < |blocks| && blocks[i] == c;
      assert after[i] == c;
    }
    assert after[k] == b;
    forall i | 0 <= i < |after| && i != k ensures after[i] in blocks && after[i] != blocks[k] {
      assert after[i] == blocks[i];
    }
  }

  /** A used block joins the free block in front of it. */
  lemma MergeAfter(blocks: seq<Block>, used: set<Block>, heapSize: nat, k: nat, b: Block)
    requires HeapOk(blocks, used, heapSize) && b in used && k < |blocks| && blocks[k].End() == b.address
    ensures HeapOk(blocks[k := Block(blocks[k].address, blocks[k].size + b.size)], used - {b}, heapSize)
  {
    var merged := Block(blocks[k].address, blocks[k].size + b.size);
    var all := Elements(blocks) + used;
    MergeTiling(all, heapSize, blocks[k], b);
    UpdateElements(blocks, k, merged);
    assert Elements(blocks[k := merged]) + (used - {b}) == all - {blocks[k], b} + {merged};
    assert merged !in used - {b} by { assert blocks[k] !in used; }
  }

  /** A used block is cut in two used blocks. */
  lemma SplitUsed(blocks: seq<Block>, used: set<Block>, heapSize: nat, b: Block, front: Block, back: Block)
    requires HeapOk(blocks, used, heapSize) && b in used && front.Ok() && back.Ok()
    requires front.address == b.address && front.End() == back.address && back.End() == b.End()
    ensures front !in used && back !in used
    ensures HeapOk(blocks, used - {b} + {front, back}, heapSize)
  {
    var all := Elements(blocks) + used;
    SplitTiling(all, heapSize, b, front, back);
    assert Elements(blocks) + (used - {b} + {front, back}) == all - {b} + {front, back};
  }

  /** New pages at the end of the heap. */
  lemma GrowHeap(blocks: seq<Block>, used: set<Block>, heapSize: nat, b: Block)
    requires HeapOk(blocks, used, heapSize) && b.Ok() && b.address == HEAP_START + heapSize
    ensures b !in used && HeapOk(blocks, used + {b}, heapSize + b.size)
  {
    var all := Elements(blocks) + used;
    GrowTiling(all, heapSize, b);
    assert Elements(blocks) + (used + {b}) == all + {b};
  }

  /** Two adjacent used blocks are joined. */
  lemma MergeUsed(blocks: seq<Block>, used: set<Block>, heapSize: nat, front: Block, back: Block)
    requires HeapOk(blocks, used, heapSize) && front in used && back in used && front.End() == back.address
    ensures HeapOk(blocks, used - {front, back} + {Block(front.address, front.size + back.size)}, heapSize)
    ensures Block(front.address, front.size + back.size) !in used - {front, back}
  {
    var merged := Block(front.address, front.size + back.size);
    var all := Elements(blocks) + used;
    MergeTiling(all, heapSize, front, back);
    assert Elements(blocks) + (used - {front, back} + {merged}) == all - {front, back} + {merged};
    assert merged !in Elements(blocks) by { assert front !in Elements(blocks) && back !in Elements(blocks); }
  }

  /** Where a used block lies relative to a free block. */
  lemma FreeUsedApart(blocks: seq<Block>, used: set<Block>, heapSize: nat, k: nat, b: Block)
    requires HeapOk(blocks, used, heapSize) && k < |blocks| && b in used
    ensures Apart(blocks[k], b) && b.Ok() && blocks[k].Ok()
  {
    assert blocks[k] in Elements(blocks) + used && b in Elements(blocks) + used;
  }
}
