/** Resource paths and the double-ended iterator over their components. */
module Paths {
  import opened Wrappers

  const SEP: char := '/'

  datatype Component = Root | CurrentDir | ParentDir | Name(s: string)

  /** `Component::from_str` */
  function FromStr(s: string): (c: Component)
    ensures !c.Root?
  {
    if s == "." then CurrentDir else if s == ".." then ParentDir else Name(s)
  }

  /** `str::find` */
  function Find(s: string): (r: Option<nat>)
    ensures r.None? <==> SEP !in s
    ensures r.Some? ==> r.value < |s| && s[r.value] == SEP && SEP !in s[..r.value]
  {
    if s == "" then None
    else if s[0] == SEP then Some(0)
    else match Find(s[1..])
      case None => None
      case Some(i) =>
        assert s[..i + 1] == [s[0]] + s[1..][..i];
        Some(i + 1)
  }

  /** `str::rfind` */
  function RFind(s: string): (r: Option<nat>)
    ensures r.None? <==> SEP !in s
    ensures r.Some? ==> r.value < |s| && s[r.value] == SEP && SEP !in s[r.value + 1..]
  {
    if s == "" then None
    else if s[|s| - 1] == SEP then Some(|s| - 1)
    else
      var t := s[..|s| - 1];
      assert s == t + [s[|s| - 1]];
      match RFind(t)
      case None => None
      case Some(i) =>
        assert s[i + 1..] == t[i + 1..] + [s[|s| - 1]];
        Some(i)
  }

  // ---- The components of a path, front to back ----

  /** The first component of a text that is not empty, and the text behind it. */
  function First(cur: string): (r: (Component, string))
    requires cur != ""
    ensures |r.1| < |cur|
  {
    match Find(cur)
    case None => (FromStr(cur), "")
    case Some(i) => if i == 0 then (Root, cur[1..]) else (FromStr(cur[..i]), cur[i + 1..])
  }

  function Parse(cur: string): seq<Component>
    decreases |cur|
  {
    if cur == "" then [] else [First(cur).0] + Parse(First(cur).1)
  }

  predicate EndsInSep(s: string) { s != "" && s[|s| - 1] == SEP }

  /** No two separators are next to each other. */
  predicate SingleSeps(s: string) { forall i :: 0 <= i < |s| - 1 ==> !(s[i] == SEP && s[i + 1] == SEP) }

  lemma FirstFind(cur: string, i: nat)
    requires i < |cur| && cur[i] == SEP && SEP !in cur[..i]
    ensures Find(cur) == Some(i)
  {
    var j := Find(cur).value;
    assert forall k :: 0 <= k < i ==> cur[..i][k] == cur[k];
    assert forall k :: 0 <= k < j ==> cur[..j][k] == cur[k];
  }

  lemma FirstOfConcat(p: string, b: string)
    requires SEP in p
    ensures First(p + b) == (First(p).0, First(p).1 + b)
  {
    var i := Find(p).value;
    assert (p + b)[..i] == p[..i];
    FirstFind(p + b, i);
    assert (p + b)[i + 1..] == p[i + 1..] + b;
  }

  /** What is behind a separator does not change the components in front of it. */
  lemma {:induction false} ParseSplit(p: string, b: string)
    requires EndsInSep(p) && b != "" && SEP !in b
    ensures Parse(p + b) == Parse(p) + [FromStr(b)]
    decreases |p|
  {
    FirstOfConcat(p, b);
    var i, q := Find(p).value, First(p).1;
    assert q == p[i + 1..];
    hide First, FromStr;
    if q == "" {
      assert q + b == b;
      SingleName(b);
    } else {
      ParseSplit(q, b);
    }
  }

  lemma SingleName(b: string)
    requires b != "" && SEP !in b
    ensures Parse(b) == [FromStr(b)]
  {
    assert Parse(b) == [FromStr(b)] + Parse("");
  }

  /** A separator at the end adds no component. */
  lemma {:induction false} ParseTrailing(c: string)
    requires c != "" && !EndsInSep(c)
    ensures Parse(c + [SEP]) == Parse(c)
    decreases |c|
  {
    match Find(c) {
      case None =>
        assert (c + [SEP])[..|c|] == c;
        FirstFind(c + [SEP], |c|);
        assert (c + [SEP])[|c| + 1..] == "";
        assert Parse(c + [SEP]) == [FromStr(c)] + Parse("");
      case Some(i) =>
        FirstOfConcat(c, [SEP]);
        var q := c[i + 1..];
        assert First(c).1 == q != "" && !EndsInSep(q);
        ParseTrailing(q);
    }
  }

  // ---- The iterator ----

  /** What `next_back` does: it gives the last component, unless the front has moved and there is
      a separator at the end. Then it gives an empty name and does not move. */
  ghost predicate BackOk(front: nat, cur: string) { front == 0 || cur == [SEP] || !EndsInSep(cur) }

  /** The text without the separator at its end. */
  ghost predicate Stripped(whole: string, cur: string) {
    EndsInSep(whole) && cur == whole[..|whole| - 1] && cur != "" && !EndsInSep(cur)
  }

  /** One separator is stripped at most. */
  lemma StripOne(whole: string, cur: string)
    requires SingleSeps(whole) && whole != [SEP] && (cur == whole || Stripped(whole, cur)) && EndsInSep(cur)
    ensures cur == whole && |whole| > 1 && Stripped(whole, whole[..|whole| - 1])
  {
  }

  lemma {:induction false} LastOf(cur: string)
    requires cur != "" && !EndsInSep(cur)
    ensures RFind(cur).None? ==> Parse(cur) == [FromStr(cur)]
    ensures RFind(cur).Some? ==>
      var j := RFind(cur).value; Parse(cur) == Parse(cur[..j + 1]) + [FromStr(cur[j + 1..])]
  {
    if RFind(cur).None? {
      assert Parse(cur) == [FromStr(cur)] + Parse("");
    } else {
      var j := RFind(cur).value;
      assert cur == cur[..j + 1] + cur[j + 1..];
      ParseSplit(cur[..j + 1], cur[j + 1..]);
    }
  }

  lemma RootAlone()
    ensures Parse("/") == Parse("") + [Root] && Parse("") == [] && FromStr("") == Name("")
  {
    assert Parse("/") == [Root] + Parse("");
  }

  lemma NoSepLeft(whole: string, cur: string)
    requires cur == whole || Stripped(whole, cur)
    ensures cur <= whole && Parse(whole) == Parse(cur)
  {
    if cur != whole {
      assert whole == cur + [SEP];
      ParseTrailing(cur);
    }
  }

  /** The component behind the last separator, and what is kept in front of it. */
  method LastComponent(cur: string) returns (c: Component, kept: nat)
    requires cur != ""
    ensures !EndsInSep(cur) ==>
      kept < |cur| && Parse(cur) == Parse(cur[..kept]) + [c] && (kept == 0 || EndsInSep(cur[..kept]))
    ensures EndsInSep(cur) ==> kept == |cur| && c == Name("")
    ensures !c.Root?
  {
    hide Parse, FromStr, RFind;
    RootAlone();
    if !EndsInSep(cur) {
      LastOf(cur);
      assert cur[..0] == "";
    } else {
      LastSep(cur);
      assert cur[|cur|..] == "";
    }
    match RFind(cur) {
      case Some(lastSep) =>
        kept := |cur| - (|cur| - lastSep - 1);
        c := FromStr(cur[lastSep + 1..]);
      case None =>
        kept := 0;
        c := FromStr(cur);
    }
  }

  lemma LastSep(cur: string)
    requires EndsInSep(cur)
    ensures RFind(cur) == Some(|cur| - 1)
  {
  }

  class Components {
    const s: string
    var front: nat
    var back: nat

    ghost predicate Valid()
      reads this
    {
      back <= |s| && front <= |s|
    }

    /** The text that has not been iterated over. */
    function Cur(): string
      requires Valid()
      reads this
    {
      if back <= front then "" else s[front..back]
    }

    constructor (s: string)
      ensures Valid() && this.s == s && front == 0 && Cur() == s
    {
      this.s := s;
      front, back := 0, |s|;
    }

    /** `Components::next` */
    method Next() returns (r: Option<Component>)
      requires Valid()
      modifies this`front
      ensures Valid() && (r.None? <==> old(Cur()) == "")
      ensures r.None? ==> front == old(front)
      ensures r.Some? ==> r.value == First(old(Cur())).0 && Cur() == First(old(Cur())).1
    {
      if back <= front {
        return None;
      }
      var cur := s[front..back];
      match Find(cur) {
        case Some(nextSep) =>
          if nextSep == 0 {
            front := front + 1;
            r := Some(Root);
            assert Cur() == cur[1..];
          } else {
            front := front + nextSep + 1;
            r := Some(FromStr(cur[0..nextSep]));
            assert Cur() == cur[nextSep + 1..];
          }
        case None =>
          front := back;
          r := Some(FromStr(cur));
      }
    }

    /** `Components::next_back`. On a text without doubled separators it gives the last component,
        unless the front has moved and there is a separator at the end; then it gives an empty
        name and does not move. */
    method NextBack() returns (r: Option<Component>)
      requires Valid()
      modifies this`back
      ensures Valid() && Cur() <= old(Cur())
      ensures SingleSeps(old(Cur())) ==> (r.None? <==> old(Cur()) == "")
      ensures SingleSeps(old(Cur())) && r.Some? && BackOk(front, old(Cur())) ==>
        Parse(old(Cur())) == Parse(Cur()) + [r.value] && (Cur() == "" || EndsInSep(Cur()))
      ensures SingleSeps(old(Cur())) && !BackOk(front, old(Cur())) ==> r == Some(Name("")) && back == old(back)
      ensures r.Some? && front == 0 ==> |Cur()| < |old(Cur())|
      ensures r == Some(Root) ==> old(Cur()) == "/" && Cur() == ""
    {
      hide Parse, SingleSeps, Stripped;
      RootAlone();
      if back <= front {
        return None;
      }
      ghost var whole := s[front..back];
      if s[front..back] == "/" {
        back := front;
        return Some(Root);
      }
      back := StripSeps(s, front, back);
      if back <= front {
        return None;
      }
      var cur := s[front..back];
      assert cur <= whole;
      if SingleSeps(whole) {
        NoSepLeft(whole, cur);
      }
      var last, kept := LastComponent(cur);
      r := Some(last);
      back := front + kept;
      assert Cur() == cur[..kept];
    }
  }

  /** The loop of `next_back` that drops separators at the end: it compares an index from the front of
      the text with one from the start of the path, and so drops nothing once the front has moved. */
  method StripSeps(s: string, front: nat, back: nat) returns (r: nat)
    requires front < back <= |s| && s[front..back] != [SEP]
    ensures front <= r <= back && (front > 0 ==> r == back) && (front == 0 && r > 0 ==> !EndsInSep(s[..r]))
    ensures SingleSeps(s[front..back]) ==> front < r && (r == back || Stripped(s[front..back], s[front..r]))
  {
    hide SingleSeps;
    r := back;
    var cur := s[front..back];
    ghost var whole := cur;
    while RFind(cur).Some? && RFind(cur).value == r - 1
      invariant front < r <= back && cur == s[front..r] && (front > 0 ==> r == back)
      invariant SingleSeps(whole) ==> r == back || Stripped(whole, cur)
      decreases r
    {
      if SingleSeps(whole) {
        StripOne(whole, cur);
      }
      r := r - 1;
      if r <= front {
        return;
      }
      cur := cur[front..r];
    }
    if EndsInSep(cur) {
      LastSep(cur);
    }
  }

  // ---- Both directions ----

  /** All components, from the front. */
  method Forward(s: string) returns (r: seq<Component>)
    ensures r == Parse(s)
  {
    var c := new Components(s);
    r := [];
    RootAlone();
    hide Parse, First;
    while true
      invariant c.Valid() && fresh(c) && Parse(s) == r + Parse(c.Cur())
      decreases |c.Cur()|
    {
      ghost var cur := c.Cur();
      var next := c.Next();
      if next.None? {
        return;
      }
      ParseStep(cur);
      r := r + [next.value];
    }
  }

  lemma ParseStep(cur: string)
    requires cur != ""
    ensures Parse(cur) == [First(cur).0] + Parse(First(cur).1)
  {
  }

  function Reversed(cs: seq<Component>): seq<Component> {
    if cs == [] then [] else Reversed(cs[1..]) + [cs[0]]
  }

  lemma {:induction false} ReversedSnoc(cs: seq<Component>, c: Component)
    ensures Reversed(cs + [c]) == [c] + Reversed(cs)
  {
    if cs == [] {
      assert [] + [c] == [c] && [c][1..] == [];
    } else {
      assert (cs + [c])[1..] == cs[1..] + [c];
      ReversedSnoc(cs[1..], c);
    }
  }

  lemma {:induction false} ReversedAt(cs: seq<Component>, i: nat)
    ensures |Reversed(cs)| == |cs|
    ensures i < |cs| ==> Reversed(cs)[|cs| - 1 - i] == cs[i]
  {
    if cs != [] {
      ReversedAt(cs[1..], if i == 0 then 0 else i - 1);
    }
  }

  /** All components, from the back: the reverse of the other direction, exactly when the path has
      no doubled separators. */
  method Backward(s: string) returns (r: seq<Component>)
    ensures r == Reversed(Parse(s)) <==> SingleSeps(s)
  {
    var c := new Components(s);
    r := [];
    hide Parse, SingleSeps;
    while true
      invariant c.Valid() && fresh(c) && c.front == 0 && c.Cur() <= s
      invariant forall i :: 0 <= i < |r| && r[i] == Root ==> i == |r| - 1 && c.Cur() == ""
      invariant SingleSeps(s) ==> Reversed(Parse(s)) == r + Reversed(Parse(c.Cur()))
      decreases |c.Cur()|
    {
      ghost var cur := c.Cur();
      if SingleSeps(s) { PrefixSeps(s, cur); }
      var last := c.NextBack();
      if last.None? {
        RootAlone();
        if SingleSeps(s) {
          assert Reversed(Parse("")) == [];
        } else {
          MiddleRoot(s, r);
        }
        return;
      }
      if SingleSeps(s) { ReversedSnoc(Parse(c.Cur()), last.value); }
      r := r + [last.value];
    }
  }

  lemma PrefixSeps(s: string, p: string)
    requires SingleSeps(s) && p <= s
    ensures SingleSeps(p)
  {
  }

  /** A doubled separator is a root component that is not the first. */
  lemma {:induction false} DoubledRoot(s: string) returns (i: nat)
    requires !SingleSeps(s)
    ensures 0 < i < |Parse(s)| && Parse(s)[i] == Root
    decreases |s|
  {
    var k :| 0 <= k < |s| - 1 && s[k] == SEP && s[k + 1] == SEP;
    var j, rest := Find(s).value, First(s).1;
    assert forall m :: 0 <= m < j ==> s[..j][m] == s[m];
    assert rest == s[j + 1..];
    if j == k {
      assert rest[0] == SEP;
      FirstFind(rest, 0);
      assert Parse(rest)[0] == Root;
      i := 1;
    } else {
      assert rest[k - (j + 1)] == SEP && rest[k - (j + 1) + 1] == SEP;
      var m := DoubledRoot(rest);
      i := m + 1;
    }
  }

  lemma MiddleRoot(s: string, r: seq<Component>)
    requires !SingleSeps(s) && forall i :: 0 <= i < |r| && r[i] == Root ==> i == |r| - 1
    ensures r != Reversed(Parse(s))
  {
    var i := DoubledRoot(s);
    ReversedAt(Parse(s), i);
  }

  /** The doubled separator shows as a root component between the names. */
  lemma DoubledSeparator()
    ensures Parse("a//b") == [Name("a"), Root, Name("b")] && !SingleSeps("a//b")
  {
    var s := "a//b";
    assert s[..1] == "a" && s[2..] == "/b" && s[1] == SEP && s[2] == SEP;
    FirstFind(s, 1);
    ParseStep(s);
    FirstFind("/b", 0);
    ParseStep("/b");
    assert "/b"[1..] == "b";
    SingleName("b");
  }

  lemma FrontMovedFirst()
    ensures First("a/b/") == (Name("a"), "b/")
  {
    hide Find;
    var s := "a/b/";
    assert s[..1] == "a" && s[2..] == "b/" && s[1] == SEP;
    FirstFind(s, 1);
  }

  lemma FrontMovedParse()
    ensures Parse("a/b/") == [Name("a"), Name("b")]
  {
    hide Parse, First, Find;
    FrontMovedFirst();
    ParseStep("a/b/");
    assert "b/" == "b" + [SEP];
    ParseTrailing("b");
    SingleName("b");
  }

  /** After one component was taken from the front of a path that ends in a separator, the iterator
      gives an empty name from the back. */
  method FrontMoved() returns (r: Option<Component>)
    ensures r == Some(Name("")) && Parse("a/b/") == [Name("a"), Name("b")]
  {
    hide Parse, First;
    FrontMovedFirst();
    FrontMovedParse();
    var c := new Components("a/b/");
    assert c.Cur() == "a/b/";
    var first := c.Next();
    assert c.Cur() == "b/" && EndsInSep("b/") && SingleSeps("b/");
    assert !BackOk(c.front, "b/") by { assert c.front != 0; }
    r := c.NextBack();
  }
}
