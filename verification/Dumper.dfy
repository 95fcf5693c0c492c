/** A second reader of the layout: the dumper knows how many children a node
    has but not of which kind they must be (createStructured in
    src/Tooling/ASTDumper.cpp). */
module Dumper {
  import opened Wrappers
  import opened Ast
  import opened Layout
  import opened Sequences

  /** Nodes with a fixed number of children have that many. */
  predicate SizesFit(t: Tree)
    decreases t, 0
  {
    (NeedsMarker(t.head) || |t.kids| == FixedCount(t.head)) && AllSizesFit(t.kids)
  }

  predicate AllSizesFit(ts: seq<Tree>)
    decreases ts
  {
    ts == [] || (SizesFit(ts[0]) && AllSizesFit(ts[1..]))
  }

  function DumpNode(s: Layout): (r: Option<(Tree, Layout)>)
    ensures r.Some? ==> |r.value.1| < |s|
    decreases |s|, 0
  {
    if s == [] || s[0].None? then None
    else
      match DumpKids(s[0].value, 0, s[1..])
      case None => None
      case Some(p) => Some((Tree(s[0].value, p.0), p.1))
  }

  function DumpKids(h: Head, done: nat, s: Layout): (r: Option<(seq<Tree>, Layout)>)
    ensures r.Some? ==> |r.value.1| <= |s|
    decreases |s|, 1
  {
    if !NeedsMarker(h) && done >= FixedCount(h) then Some(([], s))
    else if s == [] then None
    else if s[0].None? then (if NeedsMarker(h) then Some(([], s[1..])) else None)
    else
      match DumpNode(s)
      case None => None
      case Some(p) => Prepend([p.0], DumpKids(h, done + 1, p.1))
  }

  /** The dumper rebuilds every tree whose sizes fit and stops exactly at the
      end of its layout. */
  lemma {:induction false} DumpEncode(t: Tree, suffix: Layout)
    requires SizesFit(t)
    ensures DumpNode(Encode(t) + suffix) == Some((t, suffix))
    decreases t, 0
  {
    var node, below, closing := [Some(t.head)], EncodeAll(t.kids), Closing(t.head);
    var tail := below + closing + suffix;
    Assoc4(node, below, closing, suffix);
    Assoc(below, closing, suffix);
    assert Encode(t) + suffix == node + tail;
    RestOfCons(Some(t.head), tail);
    DumpEncodeKids(t.head, 0, t.kids, suffix);
  }

  lemma {:induction false} DumpEncodeKids(h: Head, done: nat, kids: seq<Tree>, suffix: Layout)
    requires AllSizesFit(kids) && (NeedsMarker(h) || done + |kids| == FixedCount(h))
    ensures DumpKids(h, done, EncodeAll(kids) + Closing(h) + suffix) == Some((kids, suffix))
    decreases kids
  {
    if kids == [] {
      EmptyLeft(Closing(h));
      EmptyLeft(suffix);
      RestOfCons(None, suffix);
    } else {
      var first, more, closing := Encode(kids[0]), EncodeAll(kids[1..]), Closing(h);
      var next := more + closing + suffix;
      Assoc4(first, more, closing, suffix);
      Assoc(more, closing, suffix);
      assert EncodeAll(kids) + closing + suffix == first + next;
      DumpEncode(kids[0], next);
      FirstOfEncode(kids[0], next);
      DumpEncodeKids(h, done + 1, kids[1..], suffix);
      FirstAndRest(kids);
    }
  }

  lemma {:induction false} WellKindedSizesFit(t: Tree)
    requires WellKinded(t)
    ensures SizesFit(t)
    decreases t, 1
  {
    KidsFitComplete(t.head, [], t.kids);
    assert [] + Heads(t.kids) == Heads(t.kids);
    KidsSizesFit(t.head, [], t.kids);
  }

  lemma {:induction false} KidsSizesFit(h: Head, done: seq<Head>, kids: seq<Tree>)
    requires KidsFit(h, done, kids)
    ensures AllSizesFit(kids)
    decreases kids, 0
  {
    if kids != [] {
      WellKindedSizesFit(kids[0]);
      KidsSizesFit(h, done + [kids[0].head], kids[1..]);
    }
  }

  /** Whatever the kind-driven reader accepts, the dumper reads alike. */
  lemma DumperAgrees(s: Layout)
    ensures ParseNode(s).Some? ==> DumpNode(s) == ParseNode(s)
  {
    EncodeParse(s);
    if ParseNode(s).Some? {
      var (t, rest) := ParseNode(s).value;
      WellKindedSizesFit(t);
      DumpEncode(t, rest);
    }
  }

  /** The reader never misreads: from the layout of any tree whose sizes fit it
      rebuilds that very tree or rejects the layout, and it rejects exactly the
      trees with children of a wrong kind. */
  lemma ReadsExactlyWellKinded(t: Tree)
    requires SizesFit(t)
    ensures ParseNode(Encode(t)) == if WellKinded(t) then Some((t, [])) else None
  {
    EmptyRight(Encode(t));
    if WellKinded(t) {
      ParseEncode(t, []);
    } else {
      EncodeParse(Encode(t));
      DumperAgrees(Encode(t));
      DumpEncode(t, []);
    }
  }

  /** The dumper: an iterator over the layout. */
  class LayoutDumper {
    const layout: Layout
    var itr: nat

    ghost predicate Valid()
      reads this
    {
      itr <= |layout|
    }

    constructor (layout: Layout)
      ensures this.layout == layout && itr == 0
    {
      this.layout := layout;
      itr := 0;
    }

    /** Builds the node at the iterator with all its children; fails where an
        assertion of the original does. */
    method CreateStructured() returns (r: Option<Tree>)
      requires Valid()
      modifies this`itr
      ensures Valid() && itr >= old(itr) && (r.Some? ==> itr > old(itr))
      ensures DumpNode(layout[old(itr)..]) == if r.Some? then Some((r.value, layout[itr..])) else None
      decreases |layout| - itr
    {
      if itr == |layout| || layout[itr].None? {
        return None;
      }
      var main := layout[itr].value;
      var children: seq<Tree> := [];
      itr := itr + 1;
      ghost var start := layout[itr..];
      assert DumpKids(main, 0, start) == Prepend([], DumpKids(main, 0, start)) by {
        if DumpKids(main, 0, start).Some? {
          EmptyLeft(DumpKids(main, 0, start).value.0);
        }
      }
      while if NeedsMarker(main) then itr == |layout| || layout[itr].Some? else |children| < FixedCount(main)
        invariant old(itr) < itr <= |layout|
        invariant NeedsMarker(main) || |children| <= FixedCount(main)
        invariant DumpKids(main, 0, start) == Prepend(children, DumpKids(main, |children|, layout[itr..]))
        decreases |layout| - itr
      {
        ghost var now := layout[itr..];
        var child :- CreateStructured();
        ghost var rest := DumpKids(main, |children| + 1, layout[itr..]);
        assert DumpKids(main, |children|, now) == Prepend([child], rest);
        if rest.Some? {
          Assoc(children, [child], rest.value.0);
        }
        children := children + [child];
      }
      EmptyRight(children);
      if NeedsMarker(main) {
        itr := itr + 1;
      }
      return Some(Tree(main, children));
    }
  }

  /** Dumps a whole layout and insists on its end. */
  method DumpLayout(layout: Layout) returns (r: Option<Tree>)
    ensures r == match DumpNode(layout)
                 case None => None
                 case Some(p) => if p.1 == [] then Some(p.0) else None
    ensures forall t | SizesFit(t) && layout == Encode(t) :: r == Some(t)
  {
    var dumper := new LayoutDumper(layout);
    assert layout[0..] == layout;
    var t := dumper.CreateStructured();
    r := if dumper.itr == |layout| then t else None;
    forall u | SizesFit(u) && layout == Encode(u)
      ensures r == Some(u)
    {
      EmptyRight(Encode(u));
      DumpEncode(u, []);
    }
  }
}
