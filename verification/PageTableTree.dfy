/** The translation-table tree as it lies in memory: tables are pages found by their physical
    address, entries of one table point to tables of the next level. A ghost map gives every
    table its place (level and first virtual page); the tree is well formed when each table
    entry points to the table whose place is the range of that entry, so no table is shared.

    Virtual addresses are page numbers below 2^36. */
module PageTableTree {
  import opened Wrappers
  import opened PageTableEntries
  import Bits

  const PAGES: nat := 0x10_0000_0000

  type Table = t: seq<Entry> | |t| == 512 witness seq(512, _ => INVALID)

  type Tables = map<nat, Table>

  function EmptyTable(): (t: Table)
    ensures forall i :: 0 <= i < 512 ==> t[i] == INVALID
  {
    seq(512, _ => INVALID)
  }

  /** Pages under one entry of a table at the level. */
  function Span(level: nat): (s: nat)
    ensures s > 0
  {
    if level == 0 then 0x800_0000 else if level == 1 then 0x4_0000 else if level == 2 then 512 else 1
  }

  function Index(v: nat, level: nat): (i: nat)
    ensures i < 512
  {
    if level == 0 then v / 0x800_0000 % 512
    else if level == 1 then v / 0x4_0000 % 512
    else if level == 2 then v / 512 % 512
    else v % 512
  }

  /** First page of entry `i`, relative to its table. */
  function Offset(i: nat, level: nat): nat {
    if level == 0 then i * 0x800_0000
    else if level == 1 then i * 0x4_0000
    else if level == 2 then i * 512
    else i
  }

  /** The offset of page `v` inside the entry that covers it. */
  function Within(v: nat, level: nat): (d: nat)
    ensures d < Span(level)
  {
    if level == 0 then v % 0x800_0000
    else if level == 1 then v % 0x4_0000
    else if level == 2 then v % 512
    else 0
  }

  datatype Place = Place(level: nat, base: nat)
  {
    ghost predicate Valid() {
      level <= 3 && Within(base, level) == 0 && Index(base, level) == 0 && base + Offset(512, level) <= PAGES
    }

    ghost predicate Covers(v: nat) { base <= v < base + Offset(512, level) }

    /** Page `v` lies under entry `i` of the table at this place. */
    ghost predicate Under(i: nat, v: nat) { base + Offset(i, level) <= v < base + Offset(i, level) + Span(level) }
  }

  /** Digits of a page number in a table whose first page is `base`, for entries of `span` pages. */
  lemma Digits(base: nat, v: nat, span: nat, i: nat)
    requires span > 0 && base % span == 0 && base / span % 512 == 0
    requires i < 512 && base + i * span <= v < base + i * span + span
    ensures v / span % 512 == i && v % span == v - base - i * span
  {
    var k := base / span;
    Quotient(v, span, k + i, v - base - i * span);
    assert k == 512 * (k / 512);
    Quotient(k + i, 512, k / 512, i);
  }

  lemma Quotient(x: nat, d: nat, q: nat, r: nat)
    requires d > 0 && r < d && x == q * d + r
    ensures x / d == q && x % d == r
  {
    Bits.DivModUnique(x, d, q, r);
  }

  /** The index of a page is the only entry above it. */
  lemma UnderIndex(p: Place, v: nat, i: nat)
    requires p.Valid() && i < 512 && p.Under(i, v)
    ensures i == Index(v, p.level) && Within(v, p.level) == v - p.base - Offset(i, p.level)
  {
    Digits(p.base, v, Span(p.level), i);
  }

  lemma CoversIndex(p: Place, v: nat)
    requires p.Valid() && p.Covers(v)
    ensures p.Under(Index(v, p.level), v)
    ensures Within(v, p.level) == v - p.base - Offset(Index(v, p.level), p.level)
  {
    var d := v - p.base;
    var i := if p.level == 0 then d / 0x800_0000 else if p.level == 1 then d / 0x4_0000
             else if p.level == 2 then d / 512 else d;
    UnderIndex(p, v, i);
  }

  lemma Child(p: Place, i: nat)
    requires p.Valid() && p.level < 3 && i < 512
    ensures Place(p.level + 1, p.base + Offset(i, p.level)).Valid()
    ensures forall v: nat :: p.Under(i, v) <==> Place(p.level + 1, p.base + Offset(i, p.level)).Covers(v)
    ensures forall v: nat :: p.Under(i, v) ==> p.Covers(v)
  {
    var b := p.base + Offset(i, p.level);
    if p.level == 0 {
      var q := p.base / 0x800_0000 + i;
      assert b == 0x800_0000 * q == 0x4_0000 * (512 * q);
    } else if p.level == 1 {
      var q := p.base / 0x4_0000 + i;
      assert b == 0x4_0000 * q == 512 * (512 * q);
    } else {
      var q := p.base / 512 + i;
      assert b == 512 * q;
    }
  }

  type Places = map<nat, Place>

  /** Entry `i` of a table at place `p`: level 0 holds no blocks, level 3 holds pages, and a table
      entry points to the table at the place it covers. */
  ghost predicate EntryOk(ts: Tables, pl: Places, p: Place, i: nat, e: Entry) {
    && (p.level == 0 ==> e.BaseAddress(0).None?)
    && (p.level == 3 && e.valid ==> e.typeBit)
    && (e.TableRef(p.level).Some? ==>
          var b := e.TableRef(p.level).value;
          b in ts && b in pl && pl[b] == Place(p.level + 1, p.base + Offset(i, p.level)))
  }

  /** Table `t` hangs under the entry of `p` that covers it. */
  ghost predicate HangsUnder(ts: Tables, pl: Places, t: nat, p: nat) {
    && t in pl && p in pl && p in ts && pl[t].level == pl[p].level + 1 && pl[p].Covers(pl[t].base)
    && ts[p][Index(pl[t].base, pl[p].level)].TableRef(pl[p].level) == Some(t)
  }

  ghost predicate Hangs(ts: Tables, pl: Places, t: nat) {
    exists p :: HangsUnder(ts, pl, t, p)
  }

  /** Places are valid, and no two tables have the same one. */
  ghost predicate PlacesOk(pl: Places, root: nat) {
    && root in pl && pl[root] == Place(0, 0)
    && (forall t :: t in pl ==> pl[t].Valid())
    && (forall t, u :: t in pl && u in pl && t != u ==> pl[t] != pl[u])
  }

  ghost predicate WellFormed(ts: Tables, root: nat, pl: Places) {
    && ts.Keys == pl.Keys && PlacesOk(pl, root)
    && (forall t {:trigger Hangs(ts, pl, t)} :: t in pl && t != root ==> Hangs(ts, pl, t))
    && (forall t, i :: t in ts && t in pl && 0 <= i < 512 ==> EntryOk(ts, pl, pl[t], i, ts[t][i]))
  }

  /** The walk for page `v` from table `t`: level and table of the entry where it ends. */
  ghost function Stop(ts: Tables, t: nat, level: nat, v: nat): (nat, nat)
    decreases 3 - level
  {
    if level < 3 && t in ts && ts[t][Index(v, level)].TableRef(level).Some?
    then Stop(ts, ts[t][Index(v, level)].TableRef(level).value, level + 1, v)
    else (level, t)
  }

  datatype Leaf = Leaf(level: nat, entry: Entry)

  /** The block or page entry that maps page `v`. */
  ghost function LeafAt(ts: Tables, root: nat, v: nat): Option<Leaf> {
    var (level, t) := Stop(ts, root, 0, v);
    if t in ts && ts[t][Index(v, level)].BaseAddress(level).Some?
    then Some(Leaf(level, ts[t][Index(v, level)]))
    else None
  }

  datatype Mapping = Mapping(frame: nat, options: Options)

  /** Base plus offset: page `d` of a leaf maps to frame `d` after its base. */
  ghost function Translate(ts: Tables, root: nat, v: nat): Option<Mapping> {
    match LeafAt(ts, root, v)
    case None => None
    case Some(leaf) => Some(Mapping(leaf.entry.address + Within(v, leaf.level), leaf.entry.OptionsOf()))
  }

  /** The walk stays on tables that cover the page and ends at an entry that is not a table. */
  lemma {:induction false} StopCovers(ts: Tables, root: nat, pl: Places, t: nat, v: nat)
    requires WellFormed(ts, root, pl) && t in pl && pl[t].Covers(v)
    ensures var (l, u) := Stop(ts, t, pl[t].level, v);
            && u in pl && pl[u].level == l && pl[t].level <= l <= 3 && pl[u].Covers(v)
            && ts[u][Index(v, l)].TableRef(l).None?
    decreases 3 - pl[t].level
  {
    var level := pl[t].level;
    assert EntryOk(ts, pl, pl[t], Index(v, level), ts[t][Index(v, level)]);
    if level < 3 && ts[t][Index(v, level)].TableRef(level).Some? {
      CoversIndex(pl[t], v);
      Child(pl[t], Index(v, level));
      StopCovers(ts, root, pl, ts[t][Index(v, level)].TableRef(level).value, v);
    }
  }

  /** Every page under the entry where a walk ends has a walk that ends there. */
  lemma {:induction false} StopShared(ts: Tables, root: nat, pl: Places, t: nat, v: nat, w: nat)
    requires WellFormed(ts, root, pl) && t in pl && pl[t].Covers(v)
    requires var (l, u) := Stop(ts, t, pl[t].level, v); u in pl && pl[u].level == l && pl[u].Under(Index(v, l), w)
    ensures pl[t].Covers(w) && Stop(ts, t, pl[t].level, w) == Stop(ts, t, pl[t].level, v)
    ensures var (l, u) := Stop(ts, t, pl[t].level, v); Index(w, l) == Index(v, l)
    decreases 3 - pl[t].level
  {
    var level := pl[t].level;
    var i := Index(v, level);
    assert EntryOk(ts, pl, pl[t], i, ts[t][i]);
    CoversIndex(pl[t], v);
    if level < 3 && ts[t][i].TableRef(level).Some? {
      Child(pl[t], i);
      var b := ts[t][i].TableRef(level).value;
      StopShared(ts, root, pl, b, v, w);
      UnderIndex(pl[t], w, i);
    } else {
      UnderIndex(pl[t], w, i);
    }
  }

  /** `ts'` has the tables of `ts`, which differ at most in entry `i` of table `a`. */
  ghost predicate DiffersAt(ts: Tables, ts': Tables, a: nat, i: nat) {
    forall t, j :: t in ts && 0 <= j < 512 && (t != a || j != i) ==> t in ts' && ts'[t][j] == ts[t][j]
  }

  /** Walks for pages not under the changed entry do not notice. */
  lemma {:induction false} StopElsewhere(ts: Tables, root: nat, pl: Places, ts': Tables, a: nat, i: nat, t: nat, v: nat)
    requires WellFormed(ts, root, pl) && a in pl && i < 512 && DiffersAt(ts, ts', a, i)
    requires t in pl && pl[t].Covers(v) && !pl[a].Under(i, v)
    ensures Stop(ts', t, pl[t].level, v) == Stop(ts, t, pl[t].level, v)
    ensures var (l, u) := Stop(ts, t, pl[t].level, v);
            u in ts && u in ts' && ts'[u][Index(v, l)] == ts[u][Index(v, l)]
    decreases 3 - pl[t].level
  {
    var level := pl[t].level;
    var j := Index(v, level);
    assert EntryOk(ts, pl, pl[t], j, ts[t][j]);
    CoversIndex(pl[t], v);
    assert t in ts' && ts'[t][j] == ts[t][j];
    if level < 3 && ts[t][j].TableRef(level).Some? {
      Child(pl[t], j);
      StopElsewhere(ts, root, pl, ts', a, i, ts[t][j].TableRef(level).value, v);
    }
  }

  lemma LeafElsewhere(ts: Tables, root: nat, pl: Places, ts': Tables, a: nat, i: nat, w: nat)
    requires WellFormed(ts, root, pl) && a in pl && i < 512 && DiffersAt(ts, ts', a, i)
    requires w < PAGES && !pl[a].Under(i, w)
    ensures LeafAt(ts', root, w) == LeafAt(ts, root, w)
  {
    StopElsewhere(ts, root, pl, ts', a, i, root, w);
  }

  /** A walk that ended at the changed entry gets there still and goes on from there. */
  lemma {:induction false} StopThrough(ts: Tables, root: nat, pl: Places, ts': Tables, a: nat, t: nat, v: nat)
    requires WellFormed(ts, root, pl) && t in pl && pl[t].Covers(v) && a in pl
    requires Stop(ts, t, pl[t].level, v) == (pl[a].level, a)
    requires DiffersAt(ts, ts', a, Index(v, pl[a].level))
    ensures Stop(ts', t, pl[t].level, v) == Stop(ts', a, pl[a].level, v)
    decreases 3 - pl[t].level
  {
    var level := pl[t].level;
    var j := Index(v, level);
    assert EntryOk(ts, pl, pl[t], j, ts[t][j]);
    if level < 3 && ts[t][j].TableRef(level).Some? {
      CoversIndex(pl[t], v);
      Child(pl[t], j);
      var b := ts[t][j].TableRef(level).value;
      StopCovers(ts, root, pl, b, v);
      assert t != a;
      assert ts'[t][j] == ts[t][j];
      StopThrough(ts, root, pl, ts', a, b, v);
    }
  }

  /** An entry that a leaf may be written to, or cleared: level, table and walk agree. */
  ghost predicate EndsAt(ts: Tables, root: nat, pl: Places, v: nat, level: nat, a: nat) {
    v < PAGES && a in pl && pl[a].level == level && Stop(ts, root, 0, v) == (level, a)
  }

  ghost function WithEntry(ts: Tables, a: nat, i: nat, e: Entry): Tables
    requires a in ts && i < 512
  {
    ts[a := ts[a][i := e]]
  }

  /** An entry that is a leaf at the level, or invalid. */
  ghost predicate LeafOrInvalid(e: Entry, level: nat) {
    e.TableRef(level).None? && (level == 0 ==> e.BaseAddress(0).None?) && (level == 3 && e.valid ==> e.typeBit)
  }

  lemma SetEntryWellFormed(ts: Tables, root: nat, pl: Places, a: nat, i: nat, e: Entry)
    requires WellFormed(ts, root, pl) && a in pl && i < 512 && LeafOrInvalid(e, pl[a].level)
    requires ts[a][i].TableRef(pl[a].level).None?
    ensures WellFormed(WithEntry(ts, a, i, e), root, pl)
  {
    var ts' := WithEntry(ts, a, i, e);
    forall t, j | t in ts' && t in pl && 0 <= j < 512 ensures EntryOk(ts', pl, pl[t], j, ts'[t][j]) {
      assert EntryOk(ts, pl, pl[t], j, ts[t][j]);
    }
    forall t | t in pl && t != root ensures Hangs(ts', pl, t) {
      assert Hangs(ts, pl, t);
      var p :| HangsUnder(ts, pl, t, p);
      assert HangsUnder(ts', pl, t, p);
    }
  }

  /** Writing a leaf or clearing an entry changes exactly the pages under it. */
  lemma SetEntryLeaf(ts: Tables, root: nat, pl: Places, v: nat, level: nat, a: nat, e: Entry, w: nat)
    requires WellFormed(ts, root, pl) && EndsAt(ts, root, pl, v, level, a) && LeafOrInvalid(e, level)
    requires w < PAGES
    ensures var ts' := WithEntry(ts, a, Index(v, level), e);
            LeafAt(ts', root, w) ==
              if pl[a].Under(Index(v, level), w)
              then (if e.BaseAddress(level).Some? then Some(Leaf(level, e)) else None)
              else LeafAt(ts, root, w)
  {
    var i := Index(v, level);
    var ts' := WithEntry(ts, a, i, e);
    if pl[a].Under(i, w) {
      StopShared(ts, root, pl, root, v, w);
      StopThrough(ts, root, pl, ts', a, root, w);
    } else {
      LeafElsewhere(ts, root, pl, ts', a, i, w);
    }
  }

  ghost function WithTable(ts: Tables, a: nat, i: nat, e: Entry, b: nat): Tables
    requires a in ts && i < 512
  {
    ts[a := ts[a][i := e]][b := EmptyTable()]
  }

  ghost function WithPlace(pl: Places, a: nat, i: nat, b: nat): Places
    requires a in pl
  {
    pl[b := Place(pl[a].level + 1, pl[a].base + Offset(i, pl[a].level))]
  }

  /** Entry `e` links the fresh page `b` below table `a`. */
  ghost predicate Links(ts: Tables, pl: Places, a: nat, i: nat, e: Entry, b: nat) {
    && a in pl && a in ts && pl[a].level < 3 && i < 512 && b !in ts
    && e.TableRef(pl[a].level) == Some(b) && e.BaseAddress(0).None?
    && ts[a][i].TableRef(pl[a].level).None?
  }

  /** Places of one level that share a page are the same. */
  lemma SamePlace(p: Place, q: Place, v: nat)
    requires p.Valid() && q.Valid() && p.level == q.level && p.Covers(v) && q.Covers(v)
    ensures p == q
  {
    CoversIndex(p, v);
    CoversIndex(q, v);
  }

  /** No table sits at the place of an entry that is not a table. */
  lemma PlaceTaken(ts: Tables, root: nat, pl: Places, a: nat, i: nat, t: nat)
    requires WellFormed(ts, root, pl) && a in pl && pl[a].level < 3 && i < 512 && t in pl
    requires ts[a][i].TableRef(pl[a].level).None?
    ensures pl[t] != Place(pl[a].level + 1, pl[a].base + Offset(i, pl[a].level))
  {
    if pl[t] == Place(pl[a].level + 1, pl[a].base + Offset(i, pl[a].level)) {
      Child(pl[a], i);
      assert pl[a].Under(i, pl[t].base);
      UnderIndex(pl[a], pl[t].base, i);
      assert Hangs(ts, pl, t);
      var p :| HangsUnder(ts, pl, t, p);
      SamePlace(pl[a], pl[p], pl[t].base);
    }
  }

  lemma AddTableHangs(ts: Tables, root: nat, pl: Places, a: nat, i: nat, e: Entry, b: nat, t: nat)
    requires WellFormed(ts, root, pl) && Links(ts, pl, a, i, e, b)
    requires t in WithPlace(pl, a, i, b) && t != root
    ensures Hangs(WithTable(ts, a, i, e, b), WithPlace(pl, a, i, b), t)
  {
    var ts', pl' := WithTable(ts, a, i, e, b), WithPlace(pl, a, i, b);
    if t == b {
      Child(pl[a], i);
      UnderIndex(pl[a], pl'[b].base, i);
      assert HangsUnder(ts', pl', b, a);
    } else {
      assert Hangs(ts, pl, t);
      var p :| HangsUnder(ts, pl, t, p);
      assert HangsUnder(ts', pl', t, p);
    }
  }

  lemma AddTableEntries(ts: Tables, root: nat, pl: Places, a: nat, i: nat, e: Entry, b: nat, t: nat, j: nat)
    requires WellFormed(ts, root, pl) && Links(ts, pl, a, i, e, b)
    requires t in WithTable(ts, a, i, e, b) && j < 512
    ensures EntryOk(WithTable(ts, a, i, e, b), WithPlace(pl, a, i, b), WithPlace(pl, a, i, b)[t], j,
                    WithTable(ts, a, i, e, b)[t][j])
  {
    if t != b { assert EntryOk(ts, pl, pl[t], j, ts[t][j]); }
  }

  lemma AddTablePlaces(ts: Tables, root: nat, pl: Places, a: nat, i: nat, e: Entry, b: nat)
    requires WellFormed(ts, root, pl) && Links(ts, pl, a, i, e, b)
    ensures PlacesOk(WithPlace(pl, a, i, b), root)
  {
    var pl' := WithPlace(pl, a, i, b);
    Child(pl[a], i);
    forall t | t in pl ensures pl[t] != pl'[b] {
      PlaceTaken(ts, root, pl, a, i, t);
    }
  }

  /** An empty table under an entry that is not a table keeps the tree well formed. */
  lemma AddTableWellFormed(ts: Tables, root: nat, pl: Places, a: nat, i: nat, e: Entry, b: nat)
    requires WellFormed(ts, root, pl) && Links(ts, pl, a, i, e, b)
    ensures WellFormed(WithTable(ts, a, i, e, b), root, WithPlace(pl, a, i, b))
  {
    var ts', pl' := WithTable(ts, a, i, e, b), WithPlace(pl, a, i, b);
    AddTablePlaces(ts, root, pl, a, i, e, b);
    forall t, j | t in ts' && t in pl' && 0 <= j < 512 ensures EntryOk(ts', pl', pl'[t], j, ts'[t][j]) {
      AddTableEntries(ts, root, pl, a, i, e, b, t, j);
    }
    forall t | t in pl' && t != root ensures Hangs(ts', pl', t) {
      AddTableHangs(ts, root, pl, a, i, e, b, t);
    }
  }

  lemma AddTableUnder(ts: Tables, root: nat, pl: Places, v: nat, level: nat, a: nat, e: Entry, b: nat, w: nat)
    requires WellFormed(ts, root, pl) && EndsAt(ts, root, pl, v, level, a)
    requires Links(ts, pl, a, Index(v, level), e, b) && pl[a].Under(Index(v, level), w)
    ensures Stop(WithTable(ts, a, Index(v, level), e, b), root, 0, w) == (level + 1, b)
    ensures Stop(ts, root, 0, w) == (level, a) && Index(w, level) == Index(v, level)
  {
    var i := Index(v, level);
    var ts' := WithTable(ts, a, i, e, b);
    StopShared(ts, root, pl, root, v, w);
    StopThrough(ts, root, pl, ts', a, root, w);
    EmptyStop(ts', b, level + 1, w);
  }

  /** Adding an empty table under an invalid entry changes no leaf. */
  lemma AddTableLeaf(ts: Tables, root: nat, pl: Places, v: nat, level: nat, a: nat, e: Entry, b: nat, w: nat)
    requires WellFormed(ts, root, pl) && EndsAt(ts, root, pl, v, level, a)
    requires Links(ts, pl, a, Index(v, level), e, b)
    requires !ts[a][Index(v, level)].valid && w < PAGES
    ensures LeafAt(WithTable(ts, a, Index(v, level), e, b), root, w) == LeafAt(ts, root, w)
  {
    var i := Index(v, level);
    if pl[a].Under(i, w) {
      AddTableUnder(ts, root, pl, v, level, a, e, b, w);
    } else {
      LeafElsewhere(ts, root, pl, WithTable(ts, a, i, e, b), a, i, w);
    }
  }

  lemma EmptyStop(ts: Tables, b: nat, level: nat, w: nat)
    requires b in ts && ts[b] == EmptyTable()
    ensures Stop(ts, b, level, w) == (level, b) && ts[b][Index(w, level)] == INVALID
  {
  }
}
