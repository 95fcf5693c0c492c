/** The marker-only crawl over a layout (src/Parse/ASTLayout.cpp): it skips
    whole subtrees by counting markers and never looks at the grammar. */
module Crawl {
  import opened Wrappers
  import opened Ast
  import opened Layout
  import opened Sequences

  /** Everything up to and including the marker that closes the current scope. */
  function SkipScope(s: Layout): (r: Option<Layout>)
    ensures r.Some? ==> |r.value| < |s|
    decreases |s|
  {
    if s == [] then None
    else if s[0].None? then Some(s[1..])
    else if NeedsMarker(s[0].value) then
      match SkipScope(s[1..])
      case None => None
      case Some(rest) => SkipScope(rest)
    else SkipScope(s[1..])
  }

  /** The nodes the crawl hands to its consumer, in order. */
  function Crawled(s: Layout): Option<seq<Head>>
    decreases |s|
  {
    if s == [] then None
    else if s[0].None? then Some([])
    else
      var rest := if NeedsMarker(s[0].value) then SkipScope(s[1..]) else Some(s[1..]);
      match rest
      case None => None
      case Some(next) =>
        match Crawled(next)
        case None => None
        case Some(hs) => Some([s[0].value] + hs)
  }

  /** What the crawl finds below a list of trees: every root, and below a root
      that carries no marker also its children, which follow it directly. */
  function Exposed(ts: seq<Tree>): seq<Head>
    decreases ts
  {
    if ts == [] then []
    else [ts[0].head] + (if NeedsMarker(ts[0].head) then [] else ExposedBelow(ts[0])) + Exposed(ts[1..])
  }

  function ExposedBelow(t: Tree): seq<Head>
    decreases t, 0
  {
    Exposed(t.kids)
  }

  lemma {:induction false} SkipsSubtrees(ts: seq<Tree>, rest: Layout)
    ensures SkipScope(EncodeAll(ts) + [None] + rest) == Some(rest)
    decreases ts, 1
  {
    var end := [None] + rest;
    SkipPrefix(ts, end);
    Assoc(EncodeAll(ts), [None], rest);
    RestOfCons(None, rest);
  }

  /** Skipping never stops inside the layout of complete trees. */
  lemma {:induction false} SkipPrefix(ts: seq<Tree>, rest: Layout)
    ensures SkipScope(EncodeAll(ts) + rest) == SkipScope(rest)
    decreases ts, 0
  {
    if ts == [] {
      EmptyLeft(rest);
    } else {
      var t := ts[0];
      var later := EncodeAll(ts[1..]) + rest;
      var below := EncodeAll(t.kids) + Closing(t.head) + later;
      EncodeFirst(ts, rest);
      RestOfCons(Some(t.head), below);
      if NeedsMarker(t.head) {
        SkipsSubtrees(t.kids, later);
      } else {
        EmptyRight(EncodeAll(t.kids));
        SkipPrefix(t.kids, later);
      }
      SkipPrefix(ts[1..], rest);
    }
  }

  /** The fast scan agrees with the tree: it visits exactly the scope's
      children and the descendants that no marker hides, in order, whatever
      follows the scope. */
  lemma {:induction false} CrawlAgrees(ts: seq<Tree>, rest: Layout)
    ensures Crawled(EncodeAll(ts) + [None] + rest) == Some(Exposed(ts))
  {
    var end := [None] + rest;
    Assoc(EncodeAll(ts), [None], rest);
    CrawlPrefix(ts, end);
    RestOfCons(None, rest);
    EmptyRight(Exposed(ts));
  }

  lemma {:induction false} CrawlPrefix(ts: seq<Tree>, rest: Layout)
    requires Crawled(rest).Some?
    ensures Crawled(EncodeAll(ts) + rest) == Some(Exposed(ts) + Crawled(rest).value)
    decreases ts
  {
    var end := Crawled(rest).value;
    if ts == [] {
      EmptyLeft(rest);
      EmptyLeft(end);
    } else {
      var t := ts[0];
      var later := EncodeAll(ts[1..]) + rest;
      var below := EncodeAll(t.kids) + Closing(t.head) + later;
      var more := Exposed(ts[1..]);
      CrawlPrefix(ts[1..], rest);
      EncodeFirst(ts, rest);
      if NeedsMarker(t.head) {
        SkipsSubtrees(t.kids, later);
        CrawlStep(t.head, below);
        EmptyRight([t.head]);
        Assoc([t.head], more, end);
      } else {
        var hidden := Exposed(t.kids);
        EmptyRight(EncodeAll(t.kids));
        CrawlPrefix(t.kids, later);
        CrawlStep(t.head, below);
        Assoc4([t.head], hidden, more, end);
      }
    }
  }

  lemma CrawlStep(h: Head, below: Layout)
    ensures var next := if NeedsMarker(h) then SkipScope(below) else Some(below);
            next.Some? && Crawled(next.value).Some? ==>
              Crawled([Some(h)] + below) == Some([h] + Crawled(next.value).value)
  {
    RestOfCons(Some(h), below);
  }

  function NamedDecls(hs: seq<Head>): seq<Head> {
    if hs == [] then []
    else (if IsNamedDecl(hs[0]) then [hs[0]] else []) + NamedDecls(hs[1..])
  }

  lemma {:induction false} NamedDeclsAppend(a: seq<Head>, b: seq<Head>)
    ensures NamedDecls(a + b) == NamedDecls(a) + NamedDecls(b)
  {
    if a == [] {
      EmptyLeft(b);
      EmptyLeft(NamedDecls(b));
    } else {
      var first := if IsNamedDecl(a[0]) then [a[0]] else [];
      FirstOfAppend(a, b);
      NamedDeclsAppend(a[1..], b);
      assert NamedDecls(a + b) == first + NamedDecls(a[1..] + b);
      Assoc(first, NamedDecls(a[1..]), NamedDecls(b));
    }
  }

  predicate IsUnit(h: Head) {
    h.CompilationUnit? || h.MetaUnit?
  }

  /** The names introduced when a unit is opened are exactly those of its
      top-level declarations, once each and in order: nothing that a
      declaration holds is ever taken for a declaration of the unit. */
  lemma {:induction false} IntroducesTopLevelOnly(parent: Head, done: seq<Head>, kids: seq<Tree>)
    requires IsUnit(parent) && KidsFit(parent, done, kids)
    ensures NamedDecls(Exposed(kids)) == NamedDecls(Heads(kids))
    decreases kids
  {
    if kids != [] {
      var t := kids[0];
      IntroducesTopLevelOnly(parent, done + [t.head], kids[1..]);
      assert Heads(kids) == [t.head] + Heads(kids[1..]);
      NamedDeclsAppend([t.head], Heads(kids[1..]));
      var below := if NeedsMarker(t.head) then [] else ExposedBelow(t);
      if !NeedsMarker(t.head) {
        NothingNamedBelow(t);
      }
      assert Exposed(kids) == [t.head] + below + Exposed(kids[1..]);
      NamedDeclsAppend([t.head] + below, Exposed(kids[1..]));
      NamedDeclsAppend([t.head], below);
    } else {
      assert Heads(kids) == [];
    }
  }

  /** A declaration without a marker exposes its children to the crawl, but
      none of them declares a name. */
  lemma NothingNamedBelow(t: Tree)
    requires IsTopLevel(t.head) && WellKinded(t) && !NeedsMarker(t.head)
    ensures NamedDecls(ExposedBelow(t)) == []
  {
    var ks := t.kids;
    KidsFitComplete(t.head, [], ks);
    assert [] + Heads(ks) == Heads(ks);
    KidsFitAt(t.head, [], ks, 0);
    assert [] + Heads(ks[..0]) == [];
    assert Exposed([]) == [];
    if t.head.MetaDecl? {
      KidsFitAt(t.head, [], ks, 1);
      assert |[] + Heads(ks[..1])| == 1;
      assert ks[1..][1..] == [];
      assert Exposed(ks[1..]) == [ks[1].head];
      assert Exposed(ks) == [ks[0].head] + [ks[1].head];
      NamedDeclsAppend([ks[0].head], [ks[1].head]);
    } else {
      assert ks[1..] == [];
      ConstantsAreLeaves(ks[0]);
      assert ExposedBelow(ks[0]) == [];
      assert Exposed(ks) == [ks[0].head];
    }
  }

  lemma ConstantsAreLeaves(t: Tree)
    requires IsConstantExpr(t.head) && WellKinded(t)
    ensures t.kids == []
  {
  }
}
