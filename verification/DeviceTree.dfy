/** Flattened device trees: the encoding of a tree (section 5.4 of the Devicetree Specification)
    and the cursor that walks it. */
module DeviceTree {
  import opened Wrappers

  type Byte = b: int | 0 <= b < 256
  type Bytes = seq<Byte>

  const BEGIN_NODE: nat := 1
  const END_NODE: nat := 2
  const PROP: nat := 3
  const NOP: nat := 4
  const END: nat := 9
  const WORDS: nat := 0x1_0000_0000

  // ---- Trees and their items ----

  datatype Property = Property(name: Bytes, data: Bytes)

  datatype Node = Node(name: Bytes, properties: seq<Property>, children: seq<Node>)

  datatype Standard = Compatible(strings: Bytes) | AddressCells(cells: nat) | SizeCells(cells: nat)

  datatype Item =
    | StartNode(name: Bytes)
    | EndNode
    | PropertyItem(property: Property, standard: Option<Standard>)

  const COMPATIBLE: string := "compatible"
  const ADDRESS_CELLS: string := "#address-cells"
  const SIZE_CELLS: string := "#size-cells"

  predicate Spells(name: Bytes, text: string) {
    |name| == |text| && forall i :: 0 <= i < |name| ==> name[i] == text[i] as int
  }

  predicate IsCells(name: Bytes) { Spells(name, ADDRESS_CELLS) || Spells(name, SIZE_CELLS) }

  /** The standard interpretation of a property. */
  function Interpret(p: Property): Option<Standard>
    requires IsCells(p.name) ==> |p.data| >= 4
  {
    if Spells(p.name, ADDRESS_CELLS) then Some(AddressCells(ReadWord(p.data)))
    else if Spells(p.name, SIZE_CELLS) then Some(SizeCells(ReadWord(p.data)))
    else if Spells(p.name, COMPATIBLE) then Some(Compatible(p.data))
    else None
  }

  predicate PropertyOk(p: Property) {
    0 !in p.name && |p.data| < WORDS && (IsCells(p.name) ==> |p.data| >= 4)
  }

  predicate NodeOk(n: Node) {
    && 0 !in n.name
    && (forall i :: 0 <= i < |n.properties| ==> PropertyOk(n.properties[i]))
    && (forall i :: 0 <= i < |n.children| ==> NodeOk(n.children[i]))
  }

  /** The items of a tree in preorder: a node, its properties, its children, its end. */
  function Preorder(n: Node): (items: seq<Item>)
    requires NodeOk(n)
    decreases n, 1
  {
    [StartNode(n.name)] + PropertyItems(n.properties) + Children(n.children) + [EndNode]
  }

  function PropertyItems(ps: seq<Property>): seq<Item>
    requires forall i :: 0 <= i < |ps| ==> PropertyOk(ps[i])
  {
    if ps == [] then [] else
      assert PropertyOk(ps[0]);
      [PropertyItem(ps[0], Interpret(ps[0]))] + PropertyItems(ps[1..])
  }

  function Children(ns: seq<Node>): seq<Item>
    requires forall i :: 0 <= i < |ns| ==> NodeOk(ns[i])
    decreases ns, 0
  {
    if ns == [] then [] else Preorder(ns[0]) + Children(ns[1..])
  }

  /** What the standard interpretation of a property stands for: the number that its first four bytes
      encode, or its strings; only three names have one. */
  ghost predicate Stands(p: Property, s: Option<Standard>) {
    match s
    case Some(AddressCells(n)) => Spells(p.name, ADDRESS_CELLS) && n < WORDS && Word(n) <= p.data
    case Some(SizeCells(n)) => Spells(p.name, SIZE_CELLS) && n < WORDS && Word(n) <= p.data
    case Some(Compatible(d)) => Spells(p.name, COMPATIBLE) && d == p.data
    case None => !Spells(p.name, ADDRESS_CELLS) && !Spells(p.name, SIZE_CELLS) && !Spells(p.name, COMPATIBLE)
  }

  /** Every property has exactly one interpretation, the one that is computed. */
  lemma InterpretExact(p: Property, s: Option<Standard>)
    requires PropertyOk(p)
    ensures Stands(p, s) <==> s == Interpret(p)
  {
    DistinctNames(p.name);
    if IsCells(p.name) {
      var n := ReadWord(p.data);
      WordOfRead(p.data);
      hide Spells, Word, ReadWord;
      match s
      case Some(AddressCells(m)) =>
        if m < WORDS && Word(m) <= p.data { assert p.data == Word(m) + p.data[4..]; ReadOfWord(m, p.data[4..]); }
      case Some(SizeCells(m)) =>
        if m < WORDS && Word(m) <= p.data { assert p.data == Word(m) + p.data[4..]; ReadOfWord(m, p.data[4..]); }
      case _ =>
    }
  }

  lemma DistinctNames(name: Bytes)
    ensures !(Spells(name, ADDRESS_CELLS) && Spells(name, SIZE_CELLS))
    ensures !(Spells(name, ADDRESS_CELLS) && Spells(name, COMPATIBLE))
    ensures !(Spells(name, SIZE_CELLS) && Spells(name, COMPATIBLE))
  {
    assert |ADDRESS_CELLS| == 14 && |SIZE_CELLS| == 11 && |COMPATIBLE| == 10;
  }

  lemma WordOfRead(s: Bytes)
    requires |s| >= 4
    ensures ReadWord(s) < WORDS && Word(ReadWord(s)) <= s
  {
    var z := s[0] as int * 256 + s[1] as int;
    var y := z * 256 + s[2] as int;
    var x := y * 256 + s[3] as int;
    assert x / 256 == y && x % 256 == s[3] as int;
    assert y / 256 == z && y % 256 == s[2] as int;
    assert z / 256 == s[0] as int && z % 256 == s[1] as int;
  }

  // ---- Encoding ----

  /** A 32-bit word, most significant byte first. */
  function Word(x: nat): (r: Bytes)
    requires x < WORDS
    ensures |r| == 4
  {
    [x / 256 / 256 / 256, x / 256 / 256 % 256, x / 256 % 256, x % 256]
  }

  /** `BigEndian::read_u32` */
  function ReadWord(s: Bytes): nat
    requires |s| >= 4
  {
    ((s[0] as int * 256 + s[1] as int) * 256 + s[2] as int) * 256 + s[3] as int
  }

  lemma ReadOfWord(x: nat, rest: Bytes)
    requires x < WORDS
    ensures ReadWord(Word(x) + rest) == x
  {
    var s, y := Word(x) + rest, x / 256;
    var z := y / 256;
    assert s[0] == z / 256 && s[1] == z % 256 && s[2] == y % 256 && s[3] == x % 256;
    assert z == z / 256 * 256 + z % 256 && y == z * 256 + y % 256 && x == y * 256 + x % 256;
  }

  /** `pad_end_4b` */
  function PadEnd(n: nat): (r: nat)
    ensures r % 4 == 0 && n <= r < n + 4
  {
    n + if n % 4 == 0 then 0 else 4 - n % 4
  }

  function Padded(s: Bytes): (r: Bytes)
    ensures |r| == PadEnd(|s|)
  {
    s + seq(PadEnd(|s|) - |s|, _ => 0 as Byte)
  }

  /** An item in the structure block, with the no-op tokens in front of it and, for a property, the
      place of its name in the strings block. */
  datatype Piece = Piece(nops: nat, item: Item, nameAt: nat)

  /** The numbers in the encoding fit in their words. */
  predicate Encodable(p: Piece) {
    p.nameAt < WORDS && (p.item.PropertyItem? ==> |p.item.property.data| < WORDS)
  }

  /** The piece without its no-op tokens and its own token, followed by `after`. */
  function Body(p: Piece, after: Bytes): Bytes
    requires Encodable(p)
  {
    match p.item
    case StartNode(name) => Padded(name + [0]) + after
    case EndNode => after
    case PropertyItem(property, _) => Word(|property.data|) + (Word(p.nameAt) + (Padded(property.data) + after))
  }

  function Token(item: Item): nat {
    match item case StartNode(_) => BEGIN_NODE case EndNode => END_NODE case PropertyItem(_, _) => PROP
  }

  function Nops(n: nat, after: Bytes): Bytes {
    if n == 0 then after else Word(NOP) + Nops(n - 1, after)
  }

  /** The structure block of the pieces: no-op tokens may be anywhere, and the end token comes last.
      Whatever follows is `rest`. */
  function Encode(pieces: seq<Piece>, lastNops: nat, rest: Bytes): Bytes
    requires forall i :: 0 <= i < |pieces| ==> Encodable(pieces[i])
  {
    if pieces == [] then Nops(lastNops, Word(END) + rest)
    else Nops(pieces[0].nops, Word(Token(pieces[0].item)) + Body(pieces[0], Encode(pieces[1..], lastNops, rest)))
  }

  /** The name is at this place of the strings block, up to a zero or the end of the block. */
  ghost predicate NameAt(strings: Bytes, at: nat, name: Bytes) {
    && at + |name| <= |strings| && strings[at..at + |name|] == name
    && (at + |name| < |strings| ==> strings[at + |name|] == 0)
  }

  /** The piece encodes an item of a tree. */
  ghost predicate PieceOk(strings: Bytes, p: Piece) {
    && Encodable(p)
    && (p.item.StartNode? ==> 0 !in p.item.name)
    && (p.item.PropertyItem? ==>
         && PropertyOk(p.item.property) && p.item.standard == Interpret(p.item.property)
         && NameAt(strings, p.nameAt, p.item.property.name))
  }

  ghost predicate PiecesOk(strings: Bytes, pieces: seq<Piece>) {
    forall i :: 0 <= i < |pieces| ==> PieceOk(strings, pieces[i])
  }

  function ItemsOf(pieces: seq<Piece>): (items: seq<Item>)
    ensures |items| == |pieces|
  {
    seq(|pieces|, i requires 0 <= i < |pieces| => pieces[i].item)
  }

  // ---- Every tree has an encoding ----

  /** The item can be an item of a tree. */
  predicate ItemOk(item: Item) {
    && (item.StartNode? ==> 0 !in item.name)
    && (item.PropertyItem? ==> PropertyOk(item.property) && item.standard == Interpret(item.property))
  }

  predicate ItemsOk(items: seq<Item>) { forall i :: 0 <= i < |items| ==> ItemOk(items[i]) }

  lemma {:induction false} PropertyItemsOk(ps: seq<Property>)
    requires forall i :: 0 <= i < |ps| ==> PropertyOk(ps[i])
    ensures ItemsOk(PropertyItems(ps))
  {
    if ps != [] {
      assert PropertyOk(ps[0]);
      PropertyItemsOk(ps[1..]);
    }
  }

  lemma {:induction false} PreorderOk(n: Node)
    requires NodeOk(n)
    ensures ItemsOk(Preorder(n))
    decreases n, 1
  {
    PropertyItemsOk(n.properties);
    ChildrenOk(n.children);
  }

  lemma {:induction false} ChildrenOk(ns: seq<Node>)
    requires forall i :: 0 <= i < |ns| ==> NodeOk(ns[i])
    ensures ItemsOk(Children(ns))
    decreases ns, 0
  {
    if ns != [] {
      PreorderOk(ns[0]);
      ChildrenOk(ns[1..]);
    }
  }

  /** The name is in the block, followed by a zero. */
  ghost predicate Inside(strings: Bytes, at: nat, name: Bytes) {
    at + |name| < |strings| && strings[at..at + |name|] == name && strings[at + |name|] == 0
  }

  ghost predicate HasName(strings: Bytes, name: Bytes) { exists at :: Inside(strings, at, name) }

  /** The block that holds the name of every property of the items; a name that is there already is not
      added again. */
  ghost function StringsOf(items: seq<Item>): Bytes {
    if items == [] then []
    else
      var strings, item := StringsOf(items[..|items| - 1]), items[|items| - 1];
      if item.PropertyItem? && !HasName(strings, item.property.name) then strings + item.property.name + [0] else strings
  }

  lemma InsideLonger(strings: Bytes, more: Bytes, at: nat, name: Bytes)
    requires Inside(strings, at, name)
    ensures Inside(strings + more, at, name)
  {
    assert (strings + more)[at..at + |name|] == strings[at..at + |name|];
  }

  lemma InsideAdded(strings: Bytes, name: Bytes)
    ensures Inside(strings + name + [0], |strings|, name)
  {
    var s := strings + name + [0];
    assert s[|strings|..|strings| + |name|] == name;
  }

  /** The names of a prefix of the items are in the block too. */
  lemma {:induction false} StringsGrow(items: seq<Item>, k: nat, at: nat, name: Bytes)
    requires k <= |items| && Inside(StringsOf(items[..k]), at, name)
    ensures Inside(StringsOf(items), at, name)
    decreases |items|
  {
    if k < |items| {
      var front := items[..|items| - 1];
      assert front[..k] == items[..k];
      StringsGrow(front, k, at, name);
      var item := items[|items| - 1];
      if item.PropertyItem? {
        InsideLonger(StringsOf(front), item.property.name + [0], at, name);
        assert StringsOf(front) + item.property.name + [0] == StringsOf(front) + (item.property.name + [0]);
      }
    } else {
      assert items[..k] == items;
    }
  }

  lemma NameInside(items: seq<Item>, i: nat) returns (at: nat)
    requires i < |items| && items[i].PropertyItem?
    ensures Inside(StringsOf(items), at, items[i].property.name)
  {
    var name, strings := items[i].property.name, StringsOf(items[..i]);
    assert items[..i + 1][..i] == items[..i] && items[..i + 1][i] == items[i];
    if HasName(strings, name) {
      at :| Inside(strings, at, name);
    } else {
      at := |strings|;
      InsideAdded(strings, name);
    }
    StringsGrow(items, i + 1, at, name);
  }

  lemma PieceFor(items: seq<Item>, i: nat, nops: nat) returns (p: Piece)
    requires i < |items| && ItemOk(items[i]) && |StringsOf(items)| <= WORDS
    ensures PieceOk(StringsOf(items), p) && p.item == items[i] && p.nops == nops
  {
    hide StringsOf, Interpret;
    p := Piece(nops, items[i], 0);
    if items[i].PropertyItem? {
      var at := NameInside(items, i);
      p := Piece(nops, items[i], at);
    }
  }

  /** Every tree whose names fit in a block with 32-bit offsets has an encoding, with any number of no-op
      tokens in front of each item. */
  lemma EncodingExists(root: Node, nops: seq<nat>)
    requires NodeOk(root) && |nops| == |Preorder(root)| && |StringsOf(Preorder(root))| <= WORDS
    ensures exists pieces: seq<Piece> :: PiecesOk(StringsOf(Preorder(root)), pieces) && ItemsOf(pieces) == Preorder(root)
              && forall i :: 0 <= i < |pieces| ==> i < |nops| && pieces[i].nops == nops[i]
  {
    var items := Preorder(root);
    PreorderOk(root);
    hide StringsOf, PieceOk, Preorder, ItemOk;
    var pieces := PiecesFor(items, nops, |items|);
    assert ItemsOf(pieces) == items;
  }

  lemma {:induction false} PiecesFor(items: seq<Item>, nops: seq<nat>, k: nat) returns (pieces: seq<Piece>)
    requires k <= |items| == |nops| && ItemsOk(items) && |StringsOf(items)| <= WORDS
    ensures |pieces| == k && PiecesOk(StringsOf(items), pieces)
    ensures forall i :: 0 <= i < k ==> pieces[i].item == items[i] && pieces[i].nops == nops[i]
    decreases k
  {
    hide StringsOf, PieceOk, ItemOk;
    if k == 0 {
      pieces := [];
    } else {
      var front := PiecesFor(items, nops, k - 1);
      var p := PieceFor(items, k - 1, nops[k - 1]);
      pieces := front + [p];
    }
  }

  // ---- The cursor ----

  /** The end of a name: the first zero from `at` on, or the end of the block. */
  method ScanName(s: Bytes, at: nat, ghost name: Bytes) returns (end: nat)
    requires NameAt(s, at, name) && 0 !in name
    ensures end == at + |name| && s[at..end] == name
  {
    end := at;
    while end < |s| && s[end] != 0
      invariant at <= end <= at + |name|
    {
      end := end + 1;
    }
    if end < at + |name| {
      NameHasNoZero(s, at, name, end);
    }
  }

  lemma NameHasNoZero(s: Bytes, at: nat, name: Bytes, end: nat)
    requires NameAt(s, at, name) && 0 !in name && at <= end < at + |name|
    ensures s[end] != 0
  {
    assert s[end] == s[at..at + |name|][end - at];
  }

  /** Reading the front `a` of what is left. */
  lemma Front(s: Bytes, at: nat, a: Bytes, b: Bytes)
    requires at <= |s| && s[at..] == a + b
    ensures at + |a| <= |s| && s[at..at + |a|] == a && s[at + |a|..] == b
  {
    var t := s[at..];
    assert |s| == at + |t|;
    assert s[at..at + |a|] == t[..|a|] && s[at + |a|..] == t[|a|..];
  }

  lemma NextToken(s: Bytes, at: nat, nops: nat, kind: nat, after: Bytes)
    requires at <= |s| && kind < WORDS && s[at..] == Nops(nops, Word(kind) + after)
    ensures at + 4 <= |s|
    ensures nops > 0 ==> ReadWord(s[at..]) == NOP && s[at + 4..] == Nops(nops - 1, Word(kind) + after)
    ensures nops == 0 ==> ReadWord(s[at..]) == kind && s[at + 4..] == after
  {
    if nops == 0 {
      ReadOfWord(kind, after);
      Front(s, at, Word(kind), after);
    } else {
      var more := Nops(nops - 1, Word(kind) + after);
      ReadOfWord(NOP, more);
      Front(s, at, Word(NOP), more);
    }
  }

  lemma NameFront(s: Bytes, at: nat, name: Bytes, after: Bytes)
    requires at <= |s| && at % 4 == 0 && s[at..] == Padded(name + [0]) + after
    ensures NameAt(s, at, name)
    ensures PadEnd(at + |name| + 1) == at + PadEnd(|name| + 1) <= |s| && s[at + PadEnd(|name| + 1)..] == after
  {
    Front(s, at, Padded(name + [0]), after);
    var t := s[at..];
    assert t[..|name|] == name && t[|name|] == 0;
    assert s[at..at + |name|] == t[..|name|] && s[at + |name|] == t[|name|];
  }

  lemma TwoWords(s: Bytes, at: nat, a: nat, b: nat, after: Bytes)
    requires at <= |s| && a < WORDS && b < WORDS && s[at..] == Word(a) + (Word(b) + after)
    ensures at + 8 <= |s| && ReadWord(s[at..]) == a && ReadWord(s[at + 4..]) == b && s[at + 8..] == after
  {
    hide Word, ReadWord;
    ReadOfWord(a, Word(b) + after);
    Front(s, at, Word(a), Word(b) + after);
    ReadOfWord(b, after);
    Front(s, at + 4, Word(b), after);
  }

  lemma DataFront(s: Bytes, at: nat, data: Bytes, after: Bytes)
    requires at <= |s| && s[at..] == Padded(data) + after
    ensures at + PadEnd(|data|) <= |s| && s[at..at + |data|] == data && s[at + PadEnd(|data|)..] == after
  {
    Front(s, at, Padded(data), after);
    assert s[at..at + |data|] == s[at..][..|data|] == (Padded(data) + after)[..|data|];
  }

  /** What an encoding starts with: no-op tokens, a token of kind `kind`, and `after`; the other
      pieces start at `next`. */
  lemma Unfold(strings: Bytes, pieces: seq<Piece>, lastNops: nat, rest: Bytes)
    returns (nops: nat, kind: nat, after: Bytes, next: Bytes)
    requires PiecesOk(strings, pieces)
    ensures kind == (if pieces == [] then END else Token(pieces[0].item)) && kind < WORDS
    ensures Encode(pieces, lastNops, rest) == Nops(nops, Word(kind) + after)
    ensures kind == END <==> pieces == []
    ensures kind == BEGIN_NODE <==> pieces != [] && pieces[0].item.StartNode?
    ensures kind == END_NODE <==> pieces != [] && pieces[0].item.EndNode?
    ensures kind == PROP <==> pieces != [] && pieces[0].item.PropertyItem?
    ensures kind != NOP
    ensures pieces != [] ==> PieceOk(strings, pieces[0]) && PiecesOk(strings, pieces[1..]) && next == Encode(pieces[1..], lastNops, rest)
    ensures pieces != [] && pieces[0].item.StartNode? ==> 0 !in pieces[0].item.name && after == Padded(pieces[0].item.name + [0]) + next
    ensures pieces != [] && pieces[0].item.EndNode? ==> after == next
    ensures pieces != [] && pieces[0].item.PropertyItem? ==>
      && Encodable(pieces[0])
      && after == Word(|pieces[0].item.property.data|) + (Word(pieces[0].nameAt) + (Padded(pieces[0].item.property.data) + next))
  {
    if pieces == [] {
      nops, kind, after, next := lastNops, END, rest, [];
    } else {
      assert PieceOk(strings, pieces[0]);
      next := Encode(pieces[1..], lastNops, rest);
      nops, kind, after := pieces[0].nops, Token(pieces[0].item), Body(pieces[0], next);
    }
  }

  class Cursor {
    const structure: Bytes
    const strings: Bytes
    var currentOffset: nat
    // what is still to come
    ghost var remaining: seq<Piece>
    ghost var lastNops: nat
    ghost var rest: Bytes

    ghost predicate Valid()
      reads this
    {
      && currentOffset <= |structure| && currentOffset % 4 == 0
      && PiecesOk(strings, remaining)
      && structure[currentOffset..] == Encode(remaining, lastNops, rest)
    }

    /** `iter_structure` */
    constructor (structure: Bytes, strings: Bytes, ghost pieces: seq<Piece>, ghost nops: nat, ghost rest: Bytes)
      requires PiecesOk(strings, pieces) && structure == Encode(pieces, nops, rest)
      ensures Valid() && this.structure == structure && this.strings == strings && remaining == pieces
    {
      this.structure, this.strings := structure, strings;
      currentOffset := 0;
      remaining, lastNops := pieces, nops;
      this.rest := rest;
    }

    /** A node name with its zero and padding; the next token starts behind them. */
    method ReadName(at: nat, ghost name: Bytes, ghost after: Bytes) returns (read: Bytes, next: nat)
      requires at <= |structure| && at % 4 == 0 && 0 !in name && structure[at..] == Padded(name + [0]) + after
      ensures read == name && next <= |structure| && next % 4 == 0 && structure[next..] == after
    {
      NameFront(structure, at, name, after);
      hide Padded, NameAt, PadEnd;
      var end := ScanName(structure, at, name);
      read := structure[at..end];
      next := PadEnd(end + 1);
    }

    /** Length, name offset and data of a property; the next token starts behind the padding. */
    method ReadProperty(at: nat, ghost p: Piece, ghost after: Bytes)
      returns (property: Property, standard: Option<Standard>, next: nat)
      requires at <= |structure| && at % 4 == 0 && PieceOk(strings, p) && p.item.PropertyItem?
      requires structure[at..] == Word(|p.item.property.data|) + (Word(p.nameAt) + (Padded(p.item.property.data) + after))
      ensures property == p.item.property && standard == p.item.standard
      ensures next <= |structure| && next % 4 == 0 && structure[next..] == after
    {
      ghost var data := p.item.property.data;
      hide Padded, Word, ReadWord, NameAt, Interpret, Spells;
      TwoWords(structure, at, |data|, p.nameAt, Padded(data) + after);
      var length := ReadWord(structure[at..]);
      next := at + 4;
      var nameOffset := ReadWord(structure[next..]);
      next := next + 4;
      var nameEnd := ScanName(strings, nameOffset, p.item.property.name);
      DataFront(structure, next, data, after);
      property := Property(strings[nameOffset..nameEnd], structure[next..next + length]);
      next := next + PadEnd(length);
      standard := Interpret(property);
    }

    /** `Cursor::next`: the next item of the tree, or `None` at the end token. */
    method Next() returns (r: Option<Item>)
      requires Valid()
      modifies this`currentOffset, this`remaining, this`lastNops
      ensures old(remaining) == [] ==> r.None?
      ensures old(remaining) != [] ==>
        r == Some(old(remaining)[0].item) && remaining == old(remaining)[1..] && lastNops == old(lastNops) && Valid()
    {
      hide Encode, Nops, Word, ReadWord, PadEnd, Padded, Body, PiecesOk, PieceOk, Token, Encodable;
      ghost var empty := remaining == [];
      ghost var nops, kind, after, next := Unfold(strings, remaining, lastNops, rest);
      while true
        invariant 0 <= nops && currentOffset <= |structure| && currentOffset % 4 == 0
        invariant structure[currentOffset..] == Nops(nops, Word(kind) + after)
        invariant remaining == old(remaining) && lastNops == old(lastNops)
        decreases nops
      {
        NextToken(structure, currentOffset, nops, kind, after);
        currentOffset := currentOffset + 4;
        var token := ReadWord(structure[currentOffset - 4..]);
        if token == BEGIN_NODE {
          assert !empty && nops == 0;
          var name;
          name, currentOffset := ReadName(currentOffset, remaining[0].item.name, next);
          remaining := remaining[1..];
          return Some(StartNode(name));
        } else if token == END_NODE {
          assert !empty && nops == 0;
          remaining := remaining[1..];
          return Some(EndNode);
        } else if token == PROP {
          assert !empty && nops == 0;
          var property, standard;
          property, standard, currentOffset := ReadProperty(currentOffset, remaining[0], next);
          remaining := remaining[1..];
          return Some(PropertyItem(property, standard));
        } else if token == END {
          return None;
        } else {
          assert token == NOP;
          nops := nops - 1;
        }
      }
    }
  }

  /** Iterating over the structure block of a tree, with no-op tokens anywhere, gives exactly the
      items of the tree in preorder. */
  method AllItems(structure: Bytes, strings: Bytes, ghost root: Node, ghost pieces: seq<Piece>,
                  ghost nops: nat, ghost rest: Bytes)
    returns (items: seq<Item>)
    requires NodeOk(root) && ItemsOf(pieces) == Preorder(root)
    requires PiecesOk(strings, pieces) && structure == Encode(pieces, nops, rest)
    ensures items == Preorder(root)
  {
    ghost var all := ItemsOf(pieces);
    hide *;
    var cursor := new Cursor(structure, strings, pieces, nops, rest);
    items := [];
    while true
      invariant |items| <= |pieces| == |all| && all == ItemsOf(pieces) && cursor.Valid() && fresh(cursor)
      invariant cursor.remaining == pieces[|items|..] && items == all[..|items|]
      decreases |cursor.remaining|
    {
      var item := cursor.Next();
      if item.None? {
        return;
      }
      ItemAt(pieces, |items|);
      items := items + [item.value];
    }
  }

  lemma ItemAt(pieces: seq<Piece>, i: nat)
    requires i < |pieces|
    ensures ItemsOf(pieces)[i] == pieces[i].item
  {
  }

  // ---- The items determine the tree ----

  /** Item sequences of trees can be read in one way only: different trees have different items. */
  lemma ItemsDetermineTree(a: Node, b: Node)
    requires NodeOk(a) && NodeOk(b) && Preorder(a) == Preorder(b)
    ensures a == b
  {
    assert Preorder(a) + [] == Preorder(b) + [];
    SameTree(a, b, [], []);
  }

  lemma {:induction false} SameTree(a: Node, b: Node, x: seq<Item>, y: seq<Item>)
    requires NodeOk(a) && NodeOk(b) && Preorder(a) + x == Preorder(b) + y
    ensures a == b && x == y
    decreases a, 1
  {
    var left, right := Children(a.children) + ([EndNode] + x), Children(b.children) + ([EndNode] + y);
    var ps, qs := PropertyItems(a.properties), PropertyItems(b.properties);
    assert Preorder(a) + x == [StartNode(a.name)] + (ps + left);
    assert Preorder(b) + y == [StartNode(b.name)] + (qs + right);
    assert (Preorder(a) + x)[0] == StartNode(a.name) && (Preorder(b) + y)[0] == StartNode(b.name);
    assert ps + left == (Preorder(a) + x)[1..] == (Preorder(b) + y)[1..] == qs + right;
    ForestStart(a.children, x);
    ForestStart(b.children, y);
    SameProperties(a.properties, b.properties, left, right);
    SameForest(a.children, b.children, x, y);
  }

  /** What follows the properties of a node starts with a node or with its end. */
  lemma ForestStart(ns: seq<Node>, x: seq<Item>)
    requires forall i :: 0 <= i < |ns| ==> NodeOk(ns[i])
    ensures var items := Children(ns) + ([EndNode] + x); |items| > 0 && items[0] == if ns == [] then EndNode else StartNode(ns[0].name)
  {
  }

  lemma {:induction false} SameProperties(ps: seq<Property>, qs: seq<Property>, x: seq<Item>, y: seq<Item>)
    requires forall i :: 0 <= i < |ps| ==> PropertyOk(ps[i])
    requires forall i :: 0 <= i < |qs| ==> PropertyOk(qs[i])
    requires x != [] && y != [] && !x[0].PropertyItem? && !y[0].PropertyItem?
    requires PropertyItems(ps) + x == PropertyItems(qs) + y
    ensures ps == qs && x == y
  {
    var s, t := PropertyItems(ps) + x, PropertyItems(qs) + y;
    PropertyStep(ps, x);
    PropertyStep(qs, y);
    hide PropertyOk, PropertyItems;
    if ps != [] && qs != [] {
      assert s[1..] == t[1..];
      SameProperties(ps[1..], qs[1..], x, y);
      assert ps == [ps[0]] + ps[1..] && qs == [qs[0]] + qs[1..];
    }
  }

  lemma {:induction false} PropertyStep(ps: seq<Property>, x: seq<Item>)
    requires forall i :: 0 <= i < |ps| ==> PropertyOk(ps[i])
    ensures var s := PropertyItems(ps) + x;
            if ps == [] then s == x
            else |s| > 0 && s[0].PropertyItem? && s[0].property == ps[0] && s[1..] == PropertyItems(ps[1..]) + x
  {
    hide IsCells, Interpret;
    if ps != [] {
      assert PropertyOk(ps[0]);
      var first, rest := PropertyItem(ps[0], Interpret(ps[0])), PropertyItems(ps[1..]);
      assert PropertyItems(ps) == [first] + rest;
      assert [first] + rest + x == [first] + (rest + x);
    }
  }

  lemma {:induction false} SameForest(ns: seq<Node>, ms: seq<Node>, x: seq<Item>, y: seq<Item>)
    requires forall i :: 0 <= i < |ns| ==> NodeOk(ns[i])
    requires forall i :: 0 <= i < |ms| ==> NodeOk(ms[i])
    requires Children(ns) + ([EndNode] + x) == Children(ms) + ([EndNode] + y)
    ensures ns == ms && x == y
    decreases ns, 0
  {
    ForestStart(ns, x);
    ForestStart(ms, y);
    var s, t := Children(ns) + ([EndNode] + x), Children(ms) + ([EndNode] + y);
    if ns == [] {
      assert s[1..] == x && t[1..] == y;
    } else {
      var n, m, u, v := ns[0], ms[0], Children(ns[1..]) + ([EndNode] + x), Children(ms[1..]) + ([EndNode] + y);
      assert s == Preorder(n) + u && t == Preorder(m) + v;
      SameTree(n, m, u, v);
      SameForest(ns[1..], ms[1..], x, y);
      assert ns == [ns[0]] + ns[1..] && ms == [ms[0]] + ms[1..];
    }
  }
}
