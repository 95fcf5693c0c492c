/** The flat prefix layout: how a tree is laid out, how a layout is parsed
    back, and why the two are inverse (src/Parse/ASTLayout.cpp). */
module Layout {
  import opened Wrappers
  import opened Ast
  import opened Sequences

  /** A list of nodes; `None` is the reduce marker. */
  type Layout = seq<Option<Head>>

  function Closing(h: Head): Layout {
    if NeedsMarker(h) then [None] else []
  }

  function Encode(t: Tree): (r: Layout)
    decreases t, 0
  {
    [Some(t.head)] + EncodeAll(t.kids) + Closing(t.head)
  }

  function EncodeAll(ts: seq<Tree>): Layout
    decreases ts
  {
    if ts == [] then [] else Encode(ts[0]) + EncodeAll(ts[1..])
  }

  /** The layout of a non-empty list of trees, seen from its first node. */
  lemma EncodeFirst(ts: seq<Tree>, rest: Layout)
    requires ts != []
    ensures EncodeAll(ts) + rest ==
            [Some(ts[0].head)] + (EncodeAll(ts[0].kids) + Closing(ts[0].head) + (EncodeAll(ts[1..]) + rest))
  {
    var node, below, closing, more :=
      [Some(ts[0].head)], EncodeAll(ts[0].kids), Closing(ts[0].head), EncodeAll(ts[1..]);
    assert EncodeAll(ts) == (node + below + closing) + more;
    Assoc(node + below + closing, more, rest);
    Assoc4(node, below, closing, more + rest);
    Assoc(below, closing, more + rest);
  }

  lemma EncodeOne(t: Tree)
    ensures EncodeAll([t]) == Encode(t)
  {
    assert [t][1..] == [];
    assert EncodeAll([t]) == Encode(t) + EncodeAll([]);
    EmptyRight(Encode(t));
  }

  lemma {:induction false} EncodeAllAppend(a: seq<Tree>, b: seq<Tree>)
    ensures EncodeAll(a + b) == EncodeAll(a) + EncodeAll(b)
  {
    if a == [] {
      EmptyLeft(b);
      EmptyLeft(EncodeAll(b));
    } else {
      var first, rest, more := Encode(a[0]), EncodeAll(a[1..]), EncodeAll(b);
      FirstOfAppend(a, b);
      EncodeAllAppend(a[1..], b);
      assert EncodeAll(a + b) == first + EncodeAll(a[1..] + b);
      Assoc(first, rest, more);
    }
  }

  /** Parses the tree that starts the layout and returns what follows it. */
  function ParseNode(s: Layout): (r: Option<(Tree, Layout)>)
    ensures r.Some? ==> |r.value.1| < |s|
    decreases |s|, 0
  {
    if s == [] || s[0].None? || s[0].value.Erroneous? then None
    else
      match ParseKids(s[0].value, [], s[1..])
      case None => None
      case Some(p) => Some((Tree(s[0].value, p.0), p.1))
  }

  /** Parses the remaining children of `parent` after `done`, closing marker included. */
  function ParseKids(parent: Head, done: seq<Head>, s: Layout): (r: Option<(seq<Tree>, Layout)>)
    ensures r.Some? ==> |r.value.1| <= |s|
    decreases |s|, 1
  {
    if !NeedsMarker(parent) && |done| == FixedCount(parent) then Some(([], s))
    else if s == [] then None
    else if s[0].None? then
      if NeedsMarker(parent) && Complete(parent, done) then Some(([], s[1..])) else None
    else if !Allowed(parent, done, s[0].value) then None
    else
      match ParseNode(s)
      case None => None
      case Some(p) => Prepend([p.0], ParseKids(parent, done + [s[0].value], p.1))
  }

  function Prepend(ts: seq<Tree>, r: Option<(seq<Tree>, Layout)>): Option<(seq<Tree>, Layout)> {
    match r
    case None => None
    case Some(p) => Some((ts + p.0, p.1))
  }

  /** A node with a fixed number of children accepts no child beyond it. */
  lemma AllowedBelowCount(parent: Head, done: seq<Head>, next: Head)
    requires Allowed(parent, done, next) && !NeedsMarker(parent)
    ensures |done| < FixedCount(parent)
  {
  }

  /** Reading the layout of a well-kinded tree rebuilds that tree, consumes
      exactly its layout and leaves any suffix alone. */
  lemma {:induction false} ParseEncode(t: Tree, suffix: Layout)
    requires WellKinded(t)
    ensures ParseNode(Encode(t) + suffix) == Some((t, suffix))
    decreases t, 0
  {
    var node, below, closing := [Some(t.head)], EncodeAll(t.kids), Closing(t.head);
    var tail := below + closing + suffix;
    Assoc4(node, below, closing, suffix);
    Assoc(below, closing, suffix);
    assert Encode(t) + suffix == node + tail;
    RestOfCons(Some(t.head), tail);
    ParseEncodeKids(t.head, [], t.kids, suffix);
  }

  lemma {:induction false} ParseEncodeKids(parent: Head, done: seq<Head>, kids: seq<Tree>, suffix: Layout)
    requires KidsFit(parent, done, kids)
    ensures ParseKids(parent, done, EncodeAll(kids) + Closing(parent) + suffix) == Some((kids, suffix))
    decreases kids
  {
    if kids == [] {
      EmptyLeft(Closing(parent));
      EmptyLeft(suffix);
      RestOfCons(None, suffix);
    } else {
      if !NeedsMarker(parent) {
        AllowedBelowCount(parent, done, kids[0].head);
      }
      var first, more, closing := Encode(kids[0]), EncodeAll(kids[1..]), Closing(parent);
      var next := more + closing + suffix;
      Assoc4(first, more, closing, suffix);
      Assoc(more, closing, suffix);
      assert EncodeAll(kids) + closing + suffix == first + next;
      ParseEncode(kids[0], next);
      FirstOfEncode(kids[0], next);
      ParseEncodeKids(parent, done + [kids[0].head], kids[1..], suffix);
      FirstAndRest(kids);
    }
  }

  lemma FirstOfEncode(t: Tree, rest: Layout)
    ensures Encode(t) + rest != [] && (Encode(t) + rest)[0] == Some(t.head)
  {
  }

  /** Every layout the reader accepts is the layout of the tree it returns. */
  lemma {:induction false} EncodeParse(s: Layout)
    ensures match ParseNode(s)
            case None => true
            case Some(p) => WellKinded(p.0) && s == Encode(p.0) + p.1
    decreases |s|, 0
  {
    if ParseNode(s).Some? {
      var (t, rest) := ParseNode(s).value;
      EncodeParseKids(t.head, [], s[1..]);
      FirstAndRest(s);
      var node, below, closing := [Some(t.head)], EncodeAll(t.kids), Closing(t.head);
      Assoc4(node, below, closing, rest);
      Assoc(below, closing, rest);
    }
  }

  lemma {:induction false} EncodeParseKids(parent: Head, done: seq<Head>, s: Layout)
    ensures match ParseKids(parent, done, s)
            case None => true
            case Some(p) => KidsFit(parent, done, p.0) && s == EncodeAll(p.0) + Closing(parent) + p.1
    decreases |s|, 1
  {
    if !NeedsMarker(parent) && |done| == FixedCount(parent) {
      NoKids(parent, s);
    } else if s == [] {
    } else if s[0].None? {
      if NeedsMarker(parent) && Complete(parent, done) {
        FirstAndRest(s);
        NoKids(parent, s[1..]);
      }
    } else if Allowed(parent, done, s[0].value) && ParseNode(s).Some? {
      var (t, after) := ParseNode(s).value;
      EncodeParse(s);
      EncodeParseKids(parent, done + [t.head], after);
      var more := ParseKids(parent, done + [t.head], after);
      assert ParseKids(parent, done, s) == Prepend([t], more);
      if more.Some? {
        ConsFits(parent, done, t, more.value.0);
        ConsEncodes(t, more.value.0, Closing(parent), more.value.1);
      }
    }
  }

  lemma NoKids(parent: Head, rest: Layout)
    ensures EncodeAll([]) + Closing(parent) + rest == Closing(parent) + rest
    ensures !NeedsMarker(parent) ==> EncodeAll([]) + Closing(parent) + rest == rest
  {
    EmptyLeft(Closing(parent));
    EmptyLeft(rest);
  }

  lemma ConsFits(parent: Head, done: seq<Head>, t: Tree, ts: seq<Tree>)
    requires Allowed(parent, done, t.head) && WellKinded(t) && KidsFit(parent, done + [t.head], ts)
    ensures KidsFit(parent, done, [t] + ts)
  {
    RestOfCons(t, ts);
  }

  lemma ConsEncodes(t: Tree, ts: seq<Tree>, closing: Layout, rest: Layout)
    ensures EncodeAll([t] + ts) + closing + rest == Encode(t) + (EncodeAll(ts) + closing + rest)
  {
    RestOfCons(t, ts);
    var first, more := Encode(t), EncodeAll(ts);
    assert EncodeAll([t] + ts) == first + more;
    Assoc4(first, more, closing, rest);
    Assoc(more, closing, rest);
  }

  /** Two well-kinded trees never share a layout. */
  lemma EncodeInjective(t: Tree, u: Tree)
    requires WellKinded(t) && WellKinded(u) && Encode(t) == Encode(u)
    ensures t == u
  {
    ParseEncode(t, []);
    ParseEncode(u, []);
    assert Encode(t) + [] == Encode(u) + [];
  }
}
