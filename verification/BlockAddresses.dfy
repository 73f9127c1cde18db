/** Block addresses of the block cache, which are three bit fields side by side. */
module BlockAddresses {
  import opened Wrappers
  import opened Bits
  import opened Addresses

  /** The block and chunk sizes that the cache was made with. A chunk is one page. */
  datatype Geometry = Geometry(blockSize: nat, offsetBits: nat, idBits: nat, numChunks: nat)
  {
    ghost predicate Ok() {
      && offsetBits >= 1 && blockSize * Pow2(offsetBits) == PAGE_SIZE
      && Pow2(idBits) <= numChunks && idBits + offsetBits < 64
    }
  }

  datatype Place = Place(tag: nat, id: nat, offset: nat)

  const ADDRESSES: nat := 0x1_0000_0000_0000_0000

  /** `decompose_address`; `None` where one of its assertions fails. */
  function Decompose(g: Geometry, address: nat): Option<Place>
    requires g.idBits + g.offsetBits < 64
  {
    var low := g.idBits + g.offsetBits;
    var tag := Field(address, low, 64 - low);
    var id := if g.idBits == 0 then 0 else Field(address, g.offsetBits, g.idBits);
    var offset := Field(address, 0, g.offsetBits);
    if id < g.numChunks && offset < g.blockSize then Some(Place(tag, id, offset)) else None
  }

  /** `compose_address` */
  function ComposeAddress(g: Geometry, tag: nat, id: nat): nat {
    Or(Shl(tag, g.idBits + g.offsetBits), Shl(id, g.offsetBits))
  }

  /** The number of the chunk that has this tag and id. */
  function ChunkNumber(g: Geometry, tag: nat, id: nat): nat { tag * Pow2(g.idBits) + id }

  lemma DivDiv(x: nat, a: nat, b: nat)
    requires a > 0 && b > 0
    ensures a * b > 0 && x / (a * b) == x / a / b
  {
    var q, r := x / a / b, x / a % b;
    assert x / a == q * b + r && x == x / a * a + x % a;
    assert (q * b + r) * a == q * (a * b) + r * a;
    MulLess(r, b, a);
    assert a * b == b * a;
    DivModUnique(x, a * b, q, r * a + x % a);
  }

  lemma MulLess(r: nat, b: nat, a: nat)
    requires r < b && a > 0
    ensures r * a + a <= b * a
  {
    assert (b - r - 1) * a >= 0;
    assert (b - r - 1) * a == b * a - r * a - a;
  }

  lemma AddressSpace()
    ensures Pow2(64) == ADDRESSES
  {
    Constants();
    hide Pow2;
    Pow2Add(16, 16);
    Pow2Add(32, 32);
  }

  /** The three fields are quotients and remainders: the block offset in the chunk, and the chunk
      number split into tag and id. */
  lemma FieldsAreDivMod(g: Geometry, address: nat)
    requires g.Ok() && address < ADDRESSES
    ensures var n, low := address / Pow2(g.offsetBits), g.idBits + g.offsetBits;
            && Field(address, 0, g.offsetBits) == address % Pow2(g.offsetBits)
            && (if g.idBits == 0 then 0 else Field(address, g.offsetBits, g.idBits)) == n % Pow2(g.idBits)
            && Field(address, low, 64 - low) == n / Pow2(g.idBits)
  {
    assert Pow2(0) == 1;
    hide Field, Pow2;
    FieldIsDivMod(address, 0, g.offsetBits);
    assert Field(address, 0, g.offsetBits) == address % Pow2(g.offsetBits);
    FieldIsDivMod(address, g.offsetBits, g.idBits);
    var n, low := address / Pow2(g.offsetBits), g.idBits + g.offsetBits;
    assert g.idBits == 0 ==> n % Pow2(g.idBits) == 0;
    TagField(g, address);
  }

  lemma TagField(g: Geometry, address: nat)
    requires g.Ok() && address < ADDRESSES
    ensures var low := g.idBits + g.offsetBits;
            Field(address, low, 64 - low) == address / Pow2(g.offsetBits) / Pow2(g.idBits)
  {
    hide Field, Pow2;
    var low := g.idBits + g.offsetBits;
    FieldIsDivMod(address, low, 64 - low);
    Pow2Add(g.offsetBits, g.idBits);
    DivDiv(address, Pow2(g.offsetBits), Pow2(g.idBits));
    AddressSpace();
    Pow2Add(64 - low, low);
    var t := address / Pow2(low);
    QuotientBound(address, Pow2(low), Pow2(64 - low));
    DivModUnique(t, Pow2(64 - low), 0, t);
  }

  lemma QuotientBound(x: nat, d: nat, m: nat)
    requires d > 0 && x < m * d
    ensures x / d < m
  {
    var t := x / d;
    assert x == t * d + x % d;
    assert t >= m ==> (t - m) * d >= 0;
    assert (t - m) * d == t * d - m * d;
  }

  lemma Regroup(t: nat, a: nat, b: nat, i: nat)
    ensures t * (a * b) + i * b == (t * a + i) * b
  {
    assert t * (a * b) == t * a * b;
    Distribute(t * a + i, i, b);
  }

  /** A composed address is the first block of the chunk. */
  lemma ComposeIsMul(g: Geometry, tag: nat, id: nat)
    requires g.Ok() && id < Pow2(g.idBits)
    ensures ComposeAddress(g, tag, id) == ChunkNumber(g, tag, id) * Pow2(g.offsetBits)
  {
    hide Pow2, Shl, Or;
    var a, b := Pow2(g.idBits), Pow2(g.offsetBits);
    ShlIsMul(tag, g.idBits + g.offsetBits);
    ShlIsMul(id, g.offsetBits);
    Pow2Add(g.idBits, g.offsetBits);
    MulLess(id, a, b);
    OrDisjoint(tag, g.idBits + g.offsetBits, Shl(id, g.offsetBits));
    assert tag * (a * b) + id * b == (tag * a + id) * b by { Regroup(tag, a, b, id); }
  }

  /** Composing the tag and id of an address gives the address without its block offset. */
  lemma ComposeOfDecompose(g: Geometry, address: nat)
    requires g.Ok() && address < ADDRESSES && Decompose(g, address).Some?
    ensures var p := Decompose(g, address).value;
            && p.id < Pow2(g.idBits) && p.offset < Pow2(g.offsetBits)
            && ChunkNumber(g, p.tag, p.id) == address / Pow2(g.offsetBits)
            && ComposeAddress(g, p.tag, p.id) + p.offset == address
  {
    FieldsAreDivMod(g, address);
    var p, n := Decompose(g, address).value, address / Pow2(g.offsetBits);
    ModSplit(n, Pow2(g.idBits));
    ModSplit(address, Pow2(g.offsetBits));
    ComposeIsMul(g, p.tag, p.id);
  }

  lemma ModSplit(x: nat, d: nat)
    requires d > 0
    ensures x == x / d * d + x % d && x % d < d && x / d >= 0
  {
  }

  /** Decomposing what was composed gives the parts back, or fails by the block offset. */
  lemma DecomposeOfCompose(g: Geometry, p: Place)
    requires g.Ok() && p.id < Pow2(g.idBits) && p.offset < Pow2(g.offsetBits)
    requires ComposeAddress(g, p.tag, p.id) + p.offset < ADDRESSES
    ensures Decompose(g, ComposeAddress(g, p.tag, p.id) + p.offset)
         == if p.offset < g.blockSize then Some(p) else None
  {
    var address := ComposeAddress(g, p.tag, p.id) + p.offset;
    ComposeIsMul(g, p.tag, p.id);
    FieldsAreDivMod(g, address);
    DivModUnique(address, Pow2(g.offsetBits), ChunkNumber(g, p.tag, p.id), p.offset);
    DivModUnique(ChunkNumber(g, p.tag, p.id), Pow2(g.idBits), p.tag, p.id);
  }

  /** The chunk id is always in range; the other assertion compares the block offset with the size
      of a block, and holds for every address exactly when a chunk has no more blocks than a block
      has bytes, that is, when a block has at least 64 bytes. */
  lemma DecomposeTotal(g: Geometry)
    requires g.Ok()
    ensures (forall address :: 0 <= address < ADDRESSES ==> Decompose(g, address).Some?) <==> g.blockSize >= 64
  {
    var b := Pow2(g.offsetBits);
    assert g.blockSize >= b <==> g.blockSize >= 64 by { SquareRoot(g.blockSize, g.offsetBits); }
    forall address | 0 <= address < ADDRESSES
      ensures Decompose(g, address).Some? <==> address % b < g.blockSize
    {
      FieldsAreDivMod(g, address);
      ModSplit(address, b);
      ModSplit(address / b, Pow2(g.idBits));
    }
    if g.blockSize < b {
      assert b <= PAGE_SIZE by { BlockCountBound(g.blockSize, b); }
      DivModUnique(g.blockSize, b, 0, g.blockSize);
      assert Decompose(g, g.blockSize).None?;
    } else {
      forall address | 0 <= address < ADDRESSES ensures Decompose(g, address).Some? {
        ModSplit(address, b);
      }
    }
  }

  /** With blocks of eight bytes the ninth block of a chunk fails the assertion. */
  lemma DecomposeFails()
    ensures var g := Geometry(8, 9, 0, 1); g.Ok() && Decompose(g, 8) == None
  {
    var g := Geometry(8, 9, 0, 1);
    Constants();
    assert Pow2(0) == 1;
    hide Pow2, Field;
    FieldsAreDivMod(g, 8);
  }

  lemma BlockCountBound(size: nat, b: nat)
    requires size * b == PAGE_SIZE
    ensures 1 <= size && b <= PAGE_SIZE
  {
    if b > PAGE_SIZE { MulLess(0, size, b); }
  }

  lemma SquareRoot(size: nat, k: nat)
    requires size * Pow2(k) == PAGE_SIZE
    ensures size >= Pow2(k) <==> size >= 64
  {
    BlockCountBound(size, Pow2(k));
    assert Pow2(6) == 64 && Pow2(12) == 4096;
    if k <= 6 {
      Pow2Monotone(k, 6);
      assert size >= 64 by { SmallFactor(size, Pow2(k)); }
    } else {
      Pow2Monotone(7, k);
      assert Pow2(7) == 128;
      LargeFactor(size, Pow2(k));
    }
  }

  lemma SmallFactor(size: nat, b: nat)
    requires size * b == PAGE_SIZE && b <= 64
    ensures size >= 64
  {
    assert size < 64 ==> (63 - size) * b >= 0;
    assert (63 - size) * b == 63 * b - size * b;
  }

  lemma LargeFactor(size: nat, b: nat)
    requires size * b == PAGE_SIZE && b >= 128
    ensures size <= 32
  {
    assert size > 32 ==> (size - 33) * b >= 0;
    assert (size - 33) * b == size * b - 33 * b;
  }

  lemma {:induction false} Pow2Monotone(j: nat, k: nat)
    requires j <= k
    ensures Pow2(j) <= Pow2(k)
    decreases k
  {
    if j < k { Pow2Monotone(j, k - 1); }
  }

  /** Byte `byteOffset` of a block is in the chunk of the block, behind the blocks before it. */
  lemma ByteInChunk(g: Geometry, address: nat, byteOffset: nat)
    requires g.Ok() && byteOffset < g.blockSize
    ensures var a, b := address * g.blockSize + byteOffset, Pow2(g.offsetBits);
            && a / PAGE_SIZE == address / b
            && a % PAGE_SIZE == address % b * g.blockSize + byteOffset
  {
    var b, size := Pow2(g.offsetBits), g.blockSize;
    var n, r := address / b, address % b;
    ModSplit(address, b);
    assert (n * b + r) * size == n * (size * b) + r * size;
    MulLess(r, b, size);
    assert b * size == size * b;
    DivModUnique(address * size + byteOffset, PAGE_SIZE, n, r * size + byteOffset);
  }
}
