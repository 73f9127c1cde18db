/** The resource registry: a tree of directories with handlers at its leaves. */
module Registry {
  import opened Wrappers
  import opened Paths

  datatype Node = Directory(children: map<string, Node>) | Handler(handler: nat)

  datatype AddResult = Added | AlreadyRegistered | Panicked

  /** `Node::add`; the node afterwards is given also when the call fails. `text` is what the
      iterator over the prefix has left. */
  function Add(node: Node, text: string, name: string, h: nat): (Node, AddResult)
    decreases |text|
  {
    if text != "" && !First(text).0.Name? then (node, Panicked)
    else if node.Handler? then (node, AlreadyRegistered)
    else if text == "" then
      if name in node.children then (node, AlreadyRegistered)
      else (Directory(node.children[name := Handler(h)]), Added)
    else
      var s, rest := First(text).0.s, First(text).1;
      var child := if s in node.children then node.children[s] else Directory(map[]);
      var r := Add(child, rest, name, h);
      (Directory(node.children[s := r.0]), r.1)
  }

  datatype FindResult = Found(subpath: string, handler: nat) | NotFound | InvalidPath | Unfinished

  /** `Node::find`; `Unfinished` where the code panics or is not written yet. */
  function FindIn(node: Node, text: string): FindResult
    decreases |text|
  {
    if text == "" || !First(text).0.Name? || node.Handler? then Unfinished
    else
      var s, rest := First(text).0.s, First(text).1;
      if s !in node.children then NotFound
      else if node.children[s].Handler? then Found(rest, node.children[s].handler)
      else FindIn(node.children[s], rest)
  }

  // ---- What is registered ----

  type Names = seq<string>

  ghost function NodeAt(node: Node, p: Names): Option<Node> {
    if p == [] then Some(node)
    else if node.Directory? && p[0] in node.children then NodeAt(node.children[p[0]], p[1..])
    else None
  }

  ghost function HandlerAt(node: Node, p: Names): Option<nat> {
    match NodeAt(node, p)
    case Some(Handler(h)) => Some(h)
    case _ => None
  }

  predicate Plain(cs: seq<Component>) { forall i :: 0 <= i < |cs| ==> cs[i].Name? }

  function NamesOf(cs: seq<Component>): (p: Names)
    requires Plain(cs)
    ensures |p| == |cs| && forall i :: 0 <= i < |cs| ==> cs[i] == Name(p[i])
  {
    seq(|cs|, i requires 0 <= i < |cs| => cs[i].s)
  }

  lemma NamesCons(text: string)
    requires text != "" && Plain(Parse(text))
    ensures First(text).0.Name? && Plain(Parse(First(text).1))
    ensures NamesOf(Parse(text)) == [First(text).0.s] + NamesOf(Parse(First(text).1))
  {
    ParseStep(text);
    hide Parse, First;
    var c, rest := First(text).0, Parse(First(text).1);
    PlainCons(c, rest);
  }

  lemma PlainCons(c: Component, rest: seq<Component>)
    requires Plain([c] + rest)
    ensures c.Name? && Plain(rest) && NamesOf([c] + rest) == [c.s] + NamesOf(rest)
  {
    var cs := [c] + rest;
    assert cs[0] == c;
    forall i | 0 <= i < |rest| ensures rest[i] == cs[i + 1] {
    }
  }

  /** One path is a prefix of the other. */
  predicate Comparable(p: Names, q: Names) { p <= q || q <= p }

  /** Registered paths are prefix-free. */
  lemma {:induction false} PrefixFree(node: Node, p: Names, q: Names)
    requires HandlerAt(node, p).Some? && HandlerAt(node, q).Some? && p <= q
    ensures p == q
    decreases |p|
  {
    if p == [] {
      assert node.Handler?;
    } else {
      assert p[1..] <= q[1..];
      PrefixFree(node.children[p[0]], p[1..], q[1..]);
    }
  }

  /** Every directory below the root has a handler somewhere in it. */
  ghost predicate Reaches(node: Node) { exists q :: HandlerAt(node, q).Some? }

  ghost predicate Full(node: Node) {
    forall p :: p != [] && NodeAt(node, p).Some? ==> Reaches(NodeAt(node, p).value)
  }

  lemma FullChild(node: Node, s: string)
    requires Full(node) && node.Directory? && s in node.children
    ensures Full(node.children[s]) && Reaches(node.children[s])
  {
    var child := node.children[s];
    forall p | p != [] && NodeAt(child, p).Some? ensures Reaches(NodeAt(child, p).value) {
      assert NodeAt(node, [s] + p) == NodeAt(child, p);
    }
    assert NodeAt(node, [s]) == Some(child) by {
      assert NodeAt(child, []) == Some(child) && [s][1..] == [];
    }
  }

  // ---- Adding ----

  /** A new branch never fails because of a registered handler. */
  lemma {:induction false} AddToEmpty(text: string, name: string, h: nat)
    ensures Add(Directory(map[]), text, name, h).1 != AlreadyRegistered
    decreases |text|
  {
    if text != "" && First(text).0.Name? {
      AddToEmpty(First(text).1, name, h);
    }
  }

  /** A call that fails leaves the tree as it was, although directories are made on the way. */
  lemma {:induction false} FailedAddKeeps(node: Node, text: string, name: string, h: nat)
    requires Add(node, text, name, h).1.AlreadyRegistered?
    ensures Add(node, text, name, h).0 == node
    decreases |text|
  {
    if text != "" && First(text).0.Name? && node.Directory? {
      var s, rest := First(text).0.s, First(text).1;
      if s in node.children {
        FailedAddKeeps(node.children[s], rest, name, h);
        assert node.children[s := node.children[s]] == node.children;
      } else {
        AddToEmpty(rest, name, h);
      }
    }
  }

  /** A call panics exactly when it meets a component that is not a name before a handler; it does
      not on plain paths. */
  lemma {:induction false} PlainAdd(node: Node, text: string, name: string, h: nat)
    requires Plain(Parse(text))
    ensures !Add(node, text, name, h).1.Panicked?
    decreases |text|
  {
    if text != "" {
      NamesCons(text);
      if node.Directory? {
        var s, rest := First(text).0.s, First(text).1;
        PlainAdd(if s in node.children then node.children[s] else Directory(map[]), rest, name, h);
      }
    }
  }

  lemma {:induction false} AddedIsPlain(node: Node, text: string, name: string, h: nat)
    requires Add(node, text, name, h).1.Added?
    ensures Plain(Parse(text))
    decreases |text|
  {
    if text != "" {
      var s, rest := First(text).0.s, First(text).1;
      AddedIsPlain(if s in node.children then node.children[s] else Directory(map[]), rest, name, h);
      assert Parse(text) == [First(text).0] + Parse(rest);
    }
  }

  lemma HandlerStep(node: Node, q: Names)
    ensures q != [] && node.Directory? && q[0] in node.children ==> HandlerAt(node, q) == HandlerAt(node.children[q[0]], q[1..])
    ensures q != [] && !(node.Directory? && q[0] in node.children) ==> HandlerAt(node, q) == None
    ensures q == [] ==> HandlerAt(node, q) == if node.Handler? then Some(node.handler) else None
  {
  }

  /** After a successful call the new path has the handler, and every other path has what it had. */
  lemma {:induction false} AddedExactly(node: Node, text: string, name: string, h: nat, q: Names)
    requires Add(node, text, name, h).1.Added? && Plain(Parse(text))
    ensures HandlerAt(Add(node, text, name, h).0, q)
         == if q == NamesOf(Parse(text)) + [name] then Some(h) else HandlerAt(node, q)
    decreases |text|
  {
    var node' := Add(node, text, name, h).0;
    HandlerStep(node, q);
    HandlerStep(node', q);
    if text == "" {
      assert NamesOf(Parse(text)) + [name] == [name];
      if q != [] && q[0] == name {
        HandlerStep(Handler(h), q[1..]);
        assert q == [name] <==> q[1..] == [];
      }
    } else {
      NamesCons(text);
      var s, rest := First(text).0.s, First(text).1;
      var child := if s in node.children then node.children[s] else Directory(map[]);
      var full := NamesOf(Parse(text)) + [name];
      assert full[0] == s && full[1..] == NamesOf(Parse(rest)) + [name];
      if q != [] && q[0] == s {
        AddedExactly(child, rest, name, h, q[1..]);
        assert q == full <==> q[1..] == full[1..] by { assert q == [s] + q[1..] && full == [s] + full[1..]; }
        HandlerStep(Directory(map[]), q[1..]);
      }
    }
  }

  /** A call succeeds exactly when the new path is not comparable with a registered one. */
  lemma {:induction false} AddedIff(node: Node, text: string, name: string, h: nat)
    requires Plain(Parse(text)) && Full(node)
    ensures Add(node, text, name, h).1.Added? <==>
      node.Directory? && forall q :: HandlerAt(node, q).Some? ==> !Comparable(q, NamesOf(Parse(text)) + [name])
    decreases |text|
  {
    var full := NamesOf(Parse(text)) + [name];
    if node.Handler? {
      if text != "" { NamesCons(text); }
    } else if text == "" {
      assert full == [name];
      AddedIffHere(node, name);
    } else {
      NamesCons(text);
      var s, rest := First(text).0.s, First(text).1;
      assert full[0] == s && full[1..] == NamesOf(Parse(rest)) + [name] && full == [s] + full[1..];
      if s in node.children {
        FullChild(node, s);
        AddedIff(node.children[s], rest, name, h);
        ComparableBelow(node, s, full);
      } else {
        AddToEmpty(rest, name, h);
        PlainAdd(Directory(map[]), rest, name, h);
        ComparableBelow(node, s, full);
      }
    }
  }

  lemma AddedIffHere(node: Node, name: string)
    requires Full(node) && node.Directory?
    ensures name !in node.children <==> forall q :: HandlerAt(node, q).Some? ==> !Comparable(q, [name])
  {
    if name in node.children {
      FullChild(node, name);
      var q :| HandlerAt(node.children[name], q).Some?;
      assert HandlerAt(node, [name] + q) == HandlerAt(node.children[name], q);
      assert [name] <= [name] + q;
    } else {
      forall q | HandlerAt(node, q).Some? ensures !Comparable(q, [name]) {
        HandlerStep(node, q);
        assert q[0] != name;
      }
    }
  }

  /** Comparing paths of a directory with a path into `s` is comparing the paths below `s`. */
  lemma ComparableBelow(node: Node, s: string, full: Names)
    requires node.Directory? && |full| > 0 && full[0] == s
    ensures s in node.children ==>
      ((exists q :: HandlerAt(node, q).Some? && Comparable(q, full)) <==>
       (node.children[s].Handler? || exists q :: HandlerAt(node.children[s], q).Some? && Comparable(q, full[1..])))
    ensures s !in node.children ==> forall q :: HandlerAt(node, q).Some? ==> !Comparable(q, full)
  {
    forall q | HandlerAt(node, q).Some? && Comparable(q, full)
      ensures s in node.children && HandlerAt(node.children[s], q[1..]).Some? && Comparable(q[1..], full[1..])
    {
      HandlerStep(node, q);
      assert q[0] == s;
    }
    if s in node.children {
      forall q | HandlerAt(node.children[s], q).Some? && Comparable(q, full[1..])
        ensures HandlerAt(node, [s] + q).Some? && Comparable([s] + q, full)
      {
        assert ([s] + q)[1..] == q && full == [s] + full[1..];
      }
      if node.children[s].Handler? {
        assert HandlerAt(node.children[s], []).Some? && Comparable([], full[1..]);
      }
    }
  }

  lemma AddedFull(node: Node, text: string, name: string, h: nat)
    requires Add(node, text, name, h).1.Added? && Full(node)
    ensures Full(Add(node, text, name, h).0) && Add(node, text, name, h).0.Directory?
  {
    var node' := Add(node, text, name, h).0;
    forall p | p != [] && NodeAt(node', p).Some? ensures Reaches(NodeAt(node', p).value) {
      AddedReaches(node, text, name, h, p);
    }
  }

  /** Whatever is in the tree after a successful call was full before, or leads to the new handler. */
  lemma {:induction false} AddedReaches(node: Node, text: string, name: string, h: nat, p: Names)
    requires Add(node, text, name, h).1.Added? && Full(node)
    requires p != [] && NodeAt(Add(node, text, name, h).0, p).Some?
    ensures Reaches(NodeAt(Add(node, text, name, h).0, p).value)
    decreases |text|
  {
    var node' := Add(node, text, name, h).0;
    if text == "" {
      if p[0] == name {
        assert p[1..] == [];
        assert HandlerAt(Handler(h), []) == Some(h);
      } else {
        assert NodeAt(node', p) == NodeAt(node, p);
      }
    } else {
      var s, rest := First(text).0.s, First(text).1;
      var child := if s in node.children then node.children[s] else Directory(map[]);
      if p[0] != s {
        assert NodeAt(node', p) == NodeAt(node, p);
      } else {
        if s in node.children { FullChild(node, s); } else { EmptyFull(); }
        if p[1..] == [] {
          AddedIsPlain(child, rest, name, h);
          AddedExactly(child, rest, name, h, NamesOf(Parse(rest)) + [name]);
        } else {
          AddedReaches(child, rest, name, h, p[1..]);
        }
      }
    }
  }

  lemma EmptyFull()
    ensures Full(Directory(map[])) && forall q :: HandlerAt(Directory(map[]), q).None?
  {
  }

  // ---- Finding ----

  /** The components start with the names of a path. */
  predicate Extends(cs: seq<Component>, p: Names) {
    |p| <= |cs| && forall i :: 0 <= i < |p| ==> cs[i] == Name(p[i])
  }

  lemma ExtendsStep(text: string, p: Names)
    requires p != []
    ensures Extends(Parse(text), p) <==> text != "" && First(text).0 == Name(p[0]) && Extends(Parse(First(text).1), p[1..])
    ensures Extends(Parse(text), p) ==> Parse(text)[|p|..] == Parse(First(text).1)[|p| - 1..]
  {
    if text != "" {
      var cs, rest := Parse(text), Parse(First(text).1);
      assert cs == [First(text).0] + rest;
      if First(text).0 == Name(p[0]) && Extends(rest, p[1..]) {
        forall i | 0 <= i < |p| ensures cs[i] == Name(p[i]) {
          assert i > 0 ==> rest[i - 1] == Name(p[1..][i - 1]);
        }
      }
      if Extends(cs, p) {
        forall i | 0 <= i < |p| - 1 ensures rest[i] == Name(p[1..][i]) {
          assert cs[i + 1] == Name(p[i + 1]);
        }
      }
    }
  }

  /** Looking up an extension of a registered path gives its handler and what follows the path. */
  lemma {:induction false} FindsExtension(node: Node, text: string, p: Names)
    requires node.Directory? && HandlerAt(node, p).Some? && Extends(Parse(text), p)
    ensures var r := FindIn(node, text);
            r.Found? && r.handler == HandlerAt(node, p).value && Parse(r.subpath) == Parse(text)[|p|..]
    decreases |text|
  {
    HandlerStep(node, p);
    ExtendsStep(text, p);
    var s, rest := First(text).0.s, First(text).1;
    HandlerStep(node.children[s], p[1..]);
    if node.children[s].Directory? {
      FindsExtension(node.children[s], rest, p[1..]);
    }
  }

  /** What is found is registered under a path that the text extends. */
  lemma {:induction false} FoundIsRegistered(node: Node, text: string) returns (p: Names)
    requires FindIn(node, text).Found?
    ensures HandlerAt(node, p) == Some(FindIn(node, text).handler) && Extends(Parse(text), p)
    decreases |text|
  {
    var s, rest := First(text).0.s, First(text).1;
    var child := node.children[s];
    var q: Names := [];
    if child.Directory? {
      q := FoundIsRegistered(child, rest);
    }
    p := [s] + q;
    assert p[1..] == q;
    HandlerStep(node, p);
    ExtendsStep(text, p);
  }

  // ---- The registry ----

  datatype RegisterResult = Registered | Taken | Invalid | Panic

  /** An absolute path whose last component is a name. */
  predicate Acceptable(cs: seq<Component>) {
    |cs| >= 2 && cs[0].Root? && cs[|cs| - 1].Name?
  }

  /** An absolute path of plain names. */
  predicate PlainPath(cs: seq<Component>) { |cs| >= 2 && cs[0].Root? && Plain(cs[1..]) }

  /** The name at the end of an absolute path, and what is between the root and it. */
  method SplitPath(path: string) returns (r: Option<(string, string)>)
    ensures SingleSeps(path) ==> (r.None? <==> !Acceptable(Parse(path)))
    ensures SingleSeps(path) && r.Some? ==> Parse(path) == [Root] + Parse(r.value.0) + [Name(r.value.1)]
  {
    var pc := new Components(path);
    ghost var cs := Parse(path);
    RootAlone();
    hide SingleSeps, First;
    var last := pc.NextBack();
    if last.None? {
      return None;
    }
    assert SingleSeps(path) ==> cs == Parse(pc.Cur()) + [last.value];
    if !last.value.Name? {
      return None;
    }
    ghost var before := pc.Cur();
    if before != "" { ParseStep(before); }
    hide Parse;
    var first := pc.Next();
    if first != Some(Root) {
      return None;
    }
    r := Some((pc.Cur(), last.value.s));
  }

  class Registry {
    var root: Node
    ghost var registered: map<Names, nat>

    ghost predicate Valid()
      reads this
    {
      && root.Directory? && Full(root)
      && (forall p :: HandlerAt(root, p) == if p in registered then Some(registered[p]) else None)
    }

    constructor ()
      ensures Valid() && registered == map[]
    {
      EmptyFull();
      root := Directory(map[]);
      registered := map[];
    }

    /** `Registry::register`. A failure changes nothing and a success adds one path, which no registered
        path extends or is extended by. Without doubled separators that path is the given one. */
    method Register(path: string, h: nat) returns (r: RegisterResult, ghost key: Names)
      requires Valid()
      modifies this`root, this`registered
      ensures r != Panic ==> Valid()
      ensures r.Taken? || r.Invalid? ==> root == old(root) && registered == old(registered)
      ensures r.Registered? ==>
        registered == old(registered)[key := h] && forall q :: q in old(registered) ==> !Comparable(q, key)
      ensures SingleSeps(path) ==>
        && (r.Invalid? <==> !Acceptable(Parse(path)))
        && (r.Registered? ==> PlainPath(Parse(path)) && key == NamesOf(Parse(path)[1..]))
      ensures SingleSeps(path) && PlainPath(Parse(path)) ==>
        && r != Panic
        && (r.Registered? <==> forall q :: q in old(registered) ==> !Comparable(q, NamesOf(Parse(path)[1..])))
    {
      key := [];
      var parts := SplitPath(path);
      ghost var cs := Parse(path);
      if parts.None? {
        return Invalid, key;
      }
      var text, name := parts.value.0, parts.value.1;
      if SingleSeps(path) {
        PathParts(cs, text, name);
      }
      hide SingleSeps, Acceptable, PlainPath, Parse, Plain, Full, Comparable;
      var result := Insert(text, name, h);
      if result.Added? {
        key := NamesOf(Parse(text)) + [name];
      }
      r := match result case Added => Registered case AlreadyRegistered => Taken case Panicked => Panic;
    }

    /** Adds a handler below the root. */
    method Insert(text: string, name: string, h: nat) returns (r: AddResult)
      requires Valid()
      modifies this`root, this`registered
      ensures r != Panicked ==> Valid()
      ensures r.AlreadyRegistered? ==> root == old(root) && registered == old(registered)
      ensures r.Added? ==> Plain(Parse(text)) && registered == old(registered)[NamesOf(Parse(text)) + [name] := h]
      ensures Plain(Parse(text)) ==>
        && r != Panicked
        && (r.Added? <==> forall q :: q in old(registered) ==> !Comparable(q, NamesOf(Parse(text)) + [name]))
    {
      if Plain(Parse(text)) {
        PlainAdd(root, text, name, h);
        AddedIff(root, text, name, h);
      }
      hide Full, Comparable;
      var result := Add(root, text, name, h);
      r := result.1;
      if r.AlreadyRegistered? {
        FailedAddKeeps(root, text, name, h);
      } else if r.Added? {
        AddedFull(root, text, name, h);
        AddedIsPlain(root, text, name, h);
        forall q ensures HandlerAt(result.0, q) == if q == NamesOf(Parse(text)) + [name] then Some(h) else HandlerAt(root, q) {
          AddedExactly(root, text, name, h, q);
        }
        registered := registered[NamesOf(Parse(text)) + [name] := h];
      }
      hide HandlerAt, Add;
      root := result.0;
    }

    /** `Registry::find_handler` */
    method FindHandler(path: string) returns (r: FindResult)
      requires Valid()
      ensures var cs := Parse(path);
              && (r.InvalidPath? <==> cs == [] || !cs[0].Root?)
              && (cs != [] && cs[0].Root? ==> (r.Found? <==> exists p :: p in registered && Extends(cs[1..], p)))
              && (r.Found? ==> forall p :: p in registered && Extends(cs[1..], p) ==>
                   r.handler == registered[p] && Parse(r.subpath) == cs[1 + |p|..])
    {
      var pc := new Components(path);
      var first := pc.Next();
      if first != Some(Root) {
        return InvalidPath;
      }
      var text := pc.Cur();
      ghost var cs := Parse(path);
      assert cs == [Root] + Parse(text);
      r := FindIn(root, text);
      NeverInvalid(root, text);
      forall p | p in registered && Extends(cs[1..], p)
        ensures r.Found? && r.handler == registered[p] && Parse(r.subpath) == cs[1 + |p|..]
      {
        FindsExtension(root, text, p);
      }
      if r.Found? {
        ghost var p := FoundIsRegistered(root, text);
      }
    }
  }

  lemma {:induction false} NeverInvalid(node: Node, text: string)
    ensures !FindIn(node, text).InvalidPath?
    decreases |text|
  {
    if text != "" && First(text).0.Name? && node.Directory? && First(text).0.s in node.children {
      NeverInvalid(node.children[First(text).0.s], First(text).1);
    }
  }

  lemma PathParts(cs: seq<Component>, text: string, name: string)
    requires cs == [Root] + Parse(text) + [Name(name)]
    ensures Acceptable(cs)
    ensures PlainPath(cs) <==> Plain(Parse(text))
    ensures PlainPath(cs) ==> NamesOf(cs[1..]) == NamesOf(Parse(text)) + [name]
  {
    assert cs[1..] == Parse(text) + [Name(name)];
    if PlainPath(cs) {
      forall i | 0 <= i < |Parse(text)| ensures Parse(text)[i].Name? {
        assert cs[1..][i].Name?;
      }
      assert NamesOf(cs[1..]) == NamesOf(Parse(text)) + [name];
    }
  }

  /** Over every run the registered paths are prefix-free. */
  lemma RegisteredPrefixFree(r: Registry, p: Names, q: Names)
    requires r.Valid() && p in r.registered && q in r.registered && p <= q
    ensures p == q
  {
    PrefixFree(r.root, p, q);
  }
}
