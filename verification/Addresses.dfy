/** Virtual addresses, their page-table indices, and alignment. */
module Addresses {
  import opened Wrappers
  import opened Bits

  const PAGE_SIZE: nat := 4096

  datatype Parts = Parts(tag: nat, l0: nat, l1: nat, l2: nat, l3: nat, offset: nat)

  /** `((mask << shift) & v) >> shift` */
  function Masked(v: nat, mask: nat, shift: nat): nat {
    Shr(And(Shl(mask, shift), v), shift)
  }

  /** `VirtualAddress::to_parts` */
  function ToParts(v: nat): Parts {
    Parts(Masked(v, 0xffff, 48), Masked(v, 0x1ff, 39), Masked(v, 0x1ff, 30), Masked(v, 0x1ff, 21),
          Masked(v, 0x1ff, 12), And(v, 0xfff))
  }

  /** `VirtualAddress::from_parts`; `None` where one of its assertions fails. */
  function FromParts(p: Parts): Option<nat> {
    if p.tag <= 0xffff && p.l0 <= 0x1ff && p.l1 <= 0x1ff && p.l2 <= 0x1ff && p.l3 <= 0x1ff
       && p.offset <= 0x3ff
    then Some(Or(Or(Or(Or(Or(Shl(p.tag, 48), Shl(p.l0, 39)), Shl(p.l1, 30)), Shl(p.l2, 21)), Shl(p.l3, 12)), p.offset))
    else None
  }

  /** The value the six parts denote. */
  function Compose(p: Parts): nat {
    ((((p.tag * 512 + p.l0) * 512 + p.l1) * 512 + p.l2) * 512 + p.l3) * 4096 + p.offset
  }

  predicate ValidParts(p: Parts) {
    p.tag <= 0xffff && p.l0 < 512 && p.l1 < 512 && p.l2 < 512 && p.l3 < 512 && p.offset < 4096
  }

  lemma Constants()
    ensures Pow2(9) == 512 && Pow2(12) == 4096 && Pow2(16) == 0x10000
  {
  }

  lemma {:induction false} ShrAdd(x: nat, a: nat, b: nat)
    ensures Shr(x, a + b) == Shr(Shr(x, a), b)
  {
    if a != 0 { ShrAdd(x / 2, a - 1, b); }
  }

  lemma MaskedIndex(v: nat, shift: nat)
    ensures Masked(v, 0x1ff, shift) == Shr(v, shift) % 512
  {
    Constants();
    AndField(v, shift, 9);
    LowIsMod(Shr(v, shift), 9);
  }

  lemma MaskedTag(v: nat)
    ensures Masked(v, 0xffff, 48) == Shr(v, 48) % 0x10000
  {
    Constants();
    AndField(v, 48, 16);
    LowIsMod(Shr(v, 48), 16);
  }

  lemma ShrNine(v: nat, s: nat)
    ensures Shr(v, s + 9) == Shr(v, s) / 512
  {
    Constants();
    ShrAdd(v, s, 9);
    ShrIsDiv(Shr(v, s), 9);
  }

  /** The page-table indices of virtual page number `p` (the address divided by the page size). */
  function PageParts(p: nat, offset: nat): Parts {
    Parts(p / 512 / 512 / 512 / 512 % 0x10000, p / 512 / 512 / 512 % 512, p / 512 / 512 % 512,
          p / 512 % 512, p % 512, offset)
  }

  /** The masks and shifts of `to_parts` are quotients and remainders. */
  lemma ToPartsIsDivMod(v: nat)
    ensures ToParts(v) == PageParts(v / 4096, v % 4096)
  {
    Constants();
    ShrIsDiv(v, 12);
    ShrNine(v, 12); ShrNine(v, 21); ShrNine(v, 30); ShrNine(v, 39);
    MaskedTag(v);
    MaskedIndex(v, 39); MaskedIndex(v, 30); MaskedIndex(v, 21); MaskedIndex(v, 12);
    AndMask(v, 12);
    LowIsMod(v, 12);
  }

  lemma SmallQuotient(v: nat)
    requires v < 0x1_0000_0000_0000_0000
    ensures v / 4096 / 512 / 512 / 512 / 512 < 0x10000
  {
    var a := v / 4096;
    assert a < 0x10_0000_0000_0000;
    var b := a / 512;
    assert b < 0x800_0000_0000;
    var d := b / 512;
    assert d < 0x4_0000_0000;
    var e := d / 512;
    assert e < 0x200_0000;
  }

  /** `to_parts` loses nothing: the parts are in range and denote the address. */
  lemma ToPartsRoundTrip(v: nat)
    requires v < 0x1_0000_0000_0000_0000
    ensures ValidParts(ToParts(v)) && Compose(ToParts(v)) == v
  {
    ToPartsIsDivMod(v);
    SmallQuotient(v);
    PagePartsCompose(v / 4096, v % 4096);
  }

  lemma PagePartsCompose(p: nat, offset: nat)
    requires p / 512 / 512 / 512 / 512 < 0x10000
    ensures Compose(PageParts(p, offset)) == p * 4096 + offset
  {
    var a := p / 512;
    var b := a / 512;
    var d := b / 512;
    var e := d / 512;
    assert d == e * 512 + d % 512;
    assert b == d * 512 + b % 512;
    assert a == b * 512 + a % 512;
    assert p == a * 512 + p % 512;
  }

  lemma Digit(a: nat, x: nat)
    requires x < 512
    ensures (a * 512 + x) / 512 == a && (a * 512 + x) % 512 == x
  {
  }

  lemma PagePartsOfCompose(p: Parts)
    requires ValidParts(p)
    ensures PageParts(Compose(p) / 4096, Compose(p) % 4096) == p
  {
    var a := p.tag * 512 + p.l0;
    var b := a * 512 + p.l1;
    var d := b * 512 + p.l2;
    Digit(p.tag, p.l0);
    Digit(a, p.l1);
    Digit(b, p.l2);
    Digit(d, p.l3);
  }

  lemma ComposeRoundTrip(p: Parts)
    requires ValidParts(p)
    ensures ToParts(Compose(p)) == p
  {
    PagePartsOfCompose(p);
    ToPartsIsDivMod(Compose(p));
  }

  lemma OrNine(hi: nat, lo: nat, t: nat)
    requires lo < 512
    ensures Or(Shl(hi, t + 9), Shl(lo, t)) == Shl(hi * 512 + lo, t)
  {
    Constants();
    assert t + 9 == 9 + t;
    ShlAdd(hi, 9, t);
    OrShift(Shl(hi, 9), lo, t);
    OrDisjoint(hi, 9, lo);
    ShlIsMul(hi, 9);
  }

  lemma {:induction false} ShlAdd(x: nat, a: nat, b: nat)
    ensures Shl(x, a + b) == Shl(Shl(x, a), b)
  {
    if b != 0 { ShlAdd(x, a, b - 1); }
  }

  lemma {:induction false} OrShift(x: nat, y: nat, t: nat)
    ensures Or(Shl(x, t), Shl(y, t)) == Shl(Or(x, y), t)
  {
    if t != 0 { OrShift(x, y, t - 1); }
  }

  lemma OrOffset(e: nat, offset: nat)
    requires offset < 4096
    ensures Or(Shl(e, 12), offset) == e * 4096 + offset
  {
    Constants();
    OrDisjoint(e, 12, offset);
    ShlIsMul(e, 12);
  }

  /** The shifts and ors of `from_parts` compose the value. */
  lemma FromPartsComposes(p: Parts)
    requires ValidParts(p) && p.offset <= 0x3ff
    ensures FromParts(p) == Some(Compose(p))
  {
    var b := (p.tag * 512 + p.l0) * 512 + p.l1;
    OrIndices(p.tag, p.l0, p.l1, 30);
    OrIndices(b, p.l2, p.l3, 12);
    OrOffset((b * 512 + p.l2) * 512 + p.l3, p.offset);
  }

  lemma OrIndices(hi: nat, x: nat, y: nat, t: nat)
    requires x < 512 && y < 512
    ensures Or(Or(Shl(hi, t + 18), Shl(x, t + 9)), Shl(y, t)) == Shl((hi * 512 + x) * 512 + y, t)
  {
    OrNine(hi, x, t + 9);
    OrNine(hi * 512 + x, y, t);
  }

  /** Taking an address apart and putting it back gives the address exactly when its page offset
      fits the ten bits that `from_parts` allows; otherwise `from_parts` panics. */
  lemma FromPartsOfToParts(v: nat)
    requires v < 0x1_0000_0000_0000_0000
    ensures FromParts(ToParts(v)) == if v % PAGE_SIZE <= 0x3ff then Some(v) else None
  {
    ToPartsRoundTrip(v);
    ToPartsIsDivMod(v);
    if v % PAGE_SIZE <= 0x3ff { FromPartsComposes(ToParts(v)); }
  }

  /** The last byte of a page is an address that cannot be put together again. */
  lemma FromPartsFails()
    ensures FromParts(ToParts(0xfff)) == None
  {
    FromPartsOfToParts(0xfff);
  }

  lemma ToPartsOfFromParts(p: Parts)
    requires FromParts(p).Some?
    ensures ToParts(FromParts(p).value) == p
  {
    FromPartsComposes(p);
    ComposeRoundTrip(p);
  }

  /** Bytes to the next multiple of `alignment`. */
  function AlignOffset(v: nat, alignment: nat): (r: nat)
    requires alignment > 0
    ensures r < alignment
    ensures (v + r) % alignment == 0
  {
    if v % alignment == 0 then 0
    else
      AlignUp(v, alignment);
      alignment - v % alignment
  }

  lemma AlignUp(v: nat, alignment: nat)
    requires alignment > 0
    ensures (v + (alignment - v % alignment)) % alignment == 0
  {
    DivModUnique(v + (alignment - v % alignment), alignment, v / alignment + 1, 0);
  }
}
