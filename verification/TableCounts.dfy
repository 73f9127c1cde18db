/** How many tables a range of pages needs: at most one at each level below the root for every aligned
    block of pages that the range touches. */
module TableCounts {
  import opened PageTableTree
  import opened PageTable

  /** Pages that a table at the level covers. */
  function Covered(level: nat): (c: nat)
    ensures c > 0
  {
    if level == 1 then 0x800_0000 else if level == 2 then 0x4_0000 else 512
  }

  /** The index of the table at the level that covers page `w`. */
  function TableIndex(level: nat, w: nat): (i: nat)
    ensures i * Covered(level) <= w < i * Covered(level) + Covered(level)
  {
    if level == 1 then w / 0x800_0000 else if level == 2 then w / 0x4_0000 else w / 512
  }

  lemma IndexOrder(level: nat, v: nat, w: nat)
    requires v <= w
    ensures TableIndex(level, v) <= TableIndex(level, w)
  {
  }

  /** Tables at the level that cover some of the `n` pages from `lo`. */
  function Blocks(level: nat, lo: nat, n: nat): nat {
    if n == 0 then 0 else
      IndexOrder(level, lo, lo + n - 1);
      TableIndex(level, lo + n - 1) + 1 - TableIndex(level, lo)
  }

  lemma BlocksBound(level: nat, lo: nat, n: nat)
    ensures Blocks(level, lo, n) <= TableIndex(level, n) + 2 && Blocks(level, lo, n) <= n
  {
  }

  function TablesNeeded(lo: nat, n: nat): nat { Blocks(1, lo, n) + Blocks(2, lo, n) + Blocks(3, lo, n) }

  /** About one table for 512 pages, one for 512 of those, and so on; never more than three for a page. */
  lemma TablesNeededBound(lo: nat, n: nat)
    ensures TablesNeeded(lo, n) <= n / 512 + n / 0x4_0000 + n / 0x800_0000 + 6
    ensures TablesNeeded(lo, n) <= 3 * n
  {
    hide Blocks;
    BlocksBound(1, lo, n);
    BlocksBound(2, lo, n);
    BlocksBound(3, lo, n);
  }

  /** The places of the tables with indices from `lo` up to `hi` at the level. */
  ghost function Row(level: nat, lo: nat, hi: nat): set<Place>
    decreases hi
  {
    if hi <= lo then {} else Row(level, lo, hi - 1) + {Place(level, (hi - 1) * Covered(level))}
  }

  lemma {:induction false} RowSize(level: nat, lo: nat, hi: nat)
    requires lo <= hi
    ensures |Row(level, lo, hi)| <= hi - lo
    decreases hi
  {
    if lo < hi { RowSize(level, lo, hi - 1); }
  }

  lemma {:induction false} InRow(level: nat, lo: nat, hi: nat, j: nat)
    requires lo <= j < hi
    ensures Place(level, j * Covered(level)) in Row(level, lo, hi)
    decreases hi
  {
    if j < hi - 1 { InRow(level, lo, hi - 1, j); }
  }

  ghost function RowOf(level: nat, lo: nat, n: nat): set<Place>
    requires n > 0
  {
    Row(level, TableIndex(level, lo), TableIndex(level, lo + n - 1) + 1)
  }

  /** A table that covers a page of the range is in its row. */
  lemma TouchesRow(p: Place, lo: nat, n: nat)
    requires p.Valid() && p.level > 0 && Touches(p, lo, n)
    ensures n > 0 && 1 <= p.level <= 3 && p in RowOf(p.level, lo, n)
  {
    hide Row;
    var j := TableIndex(p.level, p.base);
    PlaceAligned(p);
    IndexOrder(p.level, p.base, lo + n - 1);
    assert TableIndex(p.level, lo) <= j;
    InRow(p.level, TableIndex(p.level, lo), TableIndex(p.level, lo + n - 1) + 1, j);
  }

  lemma PlaceAligned(p: Place)
    requires p.Valid() && p.level > 0
    ensures 1 <= p.level <= 3 && p.base == TableIndex(p.level, p.base) * Covered(p.level)
    ensures Offset(512, p.level) == Covered(p.level)
  {
    if p.level == 1 { Multiple(p.base, 0x4_0000, 0x800_0000); }
    if p.level == 2 { Multiple(p.base, 512, 0x4_0000); }
  }

  lemma Multiple(base: nat, unit: nat, span: nat)
    requires (unit == 0x4_0000 && span == 0x800_0000) || (unit == 512 && span == 0x4_0000)
    requires base % unit == 0 && base / unit % 512 == 0
    ensures base == base / span * span
  {
    var q := base / unit;
    assert base == q * unit && q == q / 512 * 512;
  }

  ghost function AllRows(lo: nat, n: nat): set<Place> {
    if n == 0 then {} else RowOf(1, lo, n) + RowOf(2, lo, n) + RowOf(3, lo, n)
  }

  lemma AllRowsSize(lo: nat, n: nat)
    ensures |AllRows(lo, n)| <= TablesNeeded(lo, n)
  {
    hide Row;
    if n > 0 {
      forall level | 1 <= level <= 3 ensures |RowOf(level, lo, n)| <= Blocks(level, lo, n) {
        IndexOrder(level, lo, lo + n - 1);
        RowSize(level, TableIndex(level, lo), TableIndex(level, lo + n - 1) + 1);
      }
      hide RowOf, Blocks;
      assert |RowOf(1, lo, n) + RowOf(2, lo, n)| <= |RowOf(1, lo, n)| + |RowOf(2, lo, n)|;
    }
  }

  ghost function PlacesOf(pl: Places, keys: set<nat>): set<Place>
    requires keys <= pl.Keys
  {
    set t | t in keys :: pl[t]
  }

  lemma {:induction false} PlacesOfSize(pl: Places, keys: set<nat>)
    requires keys <= pl.Keys && forall t, u :: t in pl && u in pl && t != u ==> pl[t] != pl[u]
    ensures |PlacesOf(pl, keys)| == |keys|
    decreases |keys|
  {
    if keys == {} {
    } else {
      var t :| t in keys;
      PlacesOfSize(pl, keys - {t});
      assert PlacesOf(pl, keys) == PlacesOf(pl, keys - {t}) + {pl[t]};
    }
  }

  /** A range never takes more new tables than it needs, and takes fewer while one is missing. */
  lemma NewTablesBound(pl: Places, pl': Places, root: nat, lo: nat, n: nat)
    requires PlacesGrow(pl, pl', lo, n) && PlacesOk(pl', root)
    ensures |pl'.Keys| <= |pl.Keys| + TablesNeeded(lo, n)
    ensures TableMissing(pl', lo, n) ==> |pl'.Keys| < |pl.Keys| + TablesNeeded(lo, n)
  {
    hide Row, RowOf, Touches, TablesNeeded, AllRows, Place.Valid;
    var keys := pl'.Keys - pl.Keys;
    assert pl'.Keys == keys + pl.Keys;
    var all, mine := AllRows(lo, n), PlacesOf(pl', keys);
    PlacesOfSize(pl', keys);
    AllRowsSize(lo, n);
    forall p | p in mine ensures p in all {
      TouchesAll(p, lo, n);
    }
    SubsetSize(mine, all);
    if TableMissing(pl', lo, n) {
      var p: Place :| p.Valid() && p.level > 0 && Touches(p, lo, n) && p !in pl'.Values;
      TouchesAll(p, lo, n);
      SubsetSize(mine + {p}, all);
    }
  }

  lemma TouchesAll(p: Place, lo: nat, n: nat)
    requires p.Valid() && p.level > 0 && Touches(p, lo, n)
    ensures p in AllRows(lo, n)
  {
    hide Row;
    TouchesRow(p, lo, n);
  }

  lemma SubsetSize(a: set<Place>, b: set<Place>)
    requires a <= b
    ensures |a| <= |b|
  {
    assert b == a + (b - a);
  }
}
