/** Which kinds of nodes carry a marker in a layout: those whose trees may have
    different numbers of children (src/AST/ASTPredicate.hpp). */
module Kinds {
  import opened Wrappers
  import opened Ast
  import opened Layout

  /** Trees of the kind with different numbers of children. */
  ghost predicate SizesVary(h: Head) {
    exists s, t :: WellKinded(s) && WellKinded(t) && s.head == h && t.head == h && |s.kids| != |t.kids|
  }

  /** The numbers of children of the kinds without a marker, one by one. */
  lemma SizesAreKnown(t: Tree)
    requires WellKinded(t)
    ensures var h := t.head;
            (h.DeclRef? || h.IntegerLiteral? || h.BooleanLiteral? || h.AnonymousArgument? || h.NamedArgument? ==>
               |t.kids| == FixedCount(h) == 0 && !NeedsMarker(h)) &&
            (h.GlobalConstant? || h.ExpressionStmt? || h.DeclStmt? || h.MetaCalculation? ==>
               |t.kids| == FixedCount(h) == 1 && !NeedsMarker(h)) &&
            (h.MetaDecl? || h.Binary? ==> |t.kids| == FixedCount(h) == 2 && !NeedsMarker(h)) &&
            (!NeedsMarker(h) ==> |t.kids| == FixedCount(h))
  {
    KidsFitComplete(t.head, [], t.kids);
    assert |[] + Heads(t.kids)| == |t.kids|;
  }

  lemma NoChildrenFit(h: Head)
    requires Complete(h, []) && !h.Erroneous?
    ensures WellKinded(Tree(h, []))
  {
  }

  lemma ThreeChildrenFit(h: Head, a: Tree, b: Tree, c: Tree)
    requires WellKinded(a) && WellKinded(b) && WellKinded(c) && !h.Erroneous?
    requires Allowed(h, [], a.head) && Allowed(h, [a.head], b.head) && Allowed(h, [a.head, b.head], c.head)
    requires Complete(h, [a.head, b.head, c.head])
    ensures WellKinded(Tree(h, [a, b, c]))
  {
    var as1, as2, as3 := [a.head], [a.head, b.head], [a.head, b.head, c.head];
    assert [] + [a.head] == as1 && as1 + [b.head] == as2 && as2 + [c.head] == as3;
    assert [c][1..] == [] && [b, c][1..] == [c] && [a, b, c][1..] == [b, c];
    assert KidsFit(h, as3, []);
    assert KidsFit(h, as2, [c]);
    assert KidsFit(h, as1, [b, c]);
  }

  /** Two trees of different sizes for every kind that needs a marker. */
  lemma TwoSizes(h: Head) returns (s: Tree, t: Tree)
    requires !h.Erroneous? && NeedsMarker(h)
    ensures WellKinded(s) && WellKinded(t) && s.head == h && t.head == h && |s.kids| != |t.kids|
  {
    hide WellKinded, KidsFit;
    if h.FunctionDecl? || h.If? || h.MetaIf? {
      s, t := TwoOrThree(h);
    } else if h.Call? || h.MetaInstantiation? {
      var ref := Tree(DeclRef("x"), []);
      NoChildrenFit(ref.head);
      OneChildFits(h, ref);
      TwoChildrenFit(h, ref, ref);
      s, t := Tree(h, [ref]), Tree(h, [ref, ref]);
    } else {
      var kid := AnyKid(h);
      NoChildrenFit(h);
      OneChildFits(h, kid);
      s, t := Tree(h, []), Tree(h, [kid]);
    }
  }

  lemma TwoOrThree(h: Head) returns (s: Tree, t: Tree)
    requires h.FunctionDecl? || h.If? || h.MetaIf?
    ensures WellKinded(s) && WellKinded(t) && s.head == h && t.head == h && |s.kids| != |t.kids|
  {
    hide WellKinded, KidsFit;
    var first := if h.FunctionDecl? then ArgumentDeclList else IntegerLiteral(0);
    var second := if h.FunctionDecl? then AnonymousArgument else if h.If? then Return else MetaContribution;
    var last := if h.MetaIf? then MetaContribution else Return;
    NoChildrenFit(first);
    NoChildrenFit(second);
    NoChildrenFit(last);
    TwoChildrenFit(h, Tree(first, []), Tree(last, []));
    ThreeChildrenFit(h, Tree(first, []), Tree(second, []), Tree(last, []));
    s := Tree(h, [Tree(first, []), Tree(last, [])]);
    t := Tree(h, [Tree(first, []), Tree(second, []), Tree(last, [])]);
  }

  /** A child for a node that may have none. */
  lemma AnyKid(h: Head) returns (kid: Tree)
    requires NeedsMarker(h) && Complete(h, [])
    ensures WellKinded(kid) && Allowed(h, [], kid.head) && Complete(h, [kid.head])
  {
    hide WellKinded, KidsFit;
    var value := Tree(IntegerLiteral(0), []);
    NoChildrenFit(value.head);
    NoChildrenFit(Return);
    NoChildrenFit(AnonymousArgument);
    OneChildFits(GlobalConstant("x"), value);
    kid := if h.CompilationUnit? || h.MetaUnit? then Tree(GlobalConstant("x"), [value])
           else if h.ArgumentDeclList? then Tree(AnonymousArgument, [])
           else if h.Return? then value
           else Tree(Return, []);
  }

  /** A node carries a marker if and only if its kind leaves open how many
      children there are. */
  lemma MarkersWhereSizesVary(h: Head)
    requires !h.Erroneous?
    ensures NeedsMarker(h) <==> SizesVary(h)
  {
    if NeedsMarker(h) {
      var s, t := TwoSizes(h);
    } else {
      forall s, t | WellKinded(s) && WellKinded(t) && s.head == h && t.head == h
        ensures |s.kids| == |t.kids|
      {
        SizesAreKnown(s);
        SizesAreKnown(t);
      }
    }
  }

  /** Nodes that hold any number of children of the same kinds. */
  predicate IsList(h: Head) {
    h.CompilationUnit? || h.MetaUnit? || h.MetaContribution? || h.ArgumentDeclList? || h.UnscopedCompound? ||
    h.Compound?
  }

  lemma {:induction false} ListFits(h: Head, done: seq<Head>, kids: seq<Tree>)
    requires IsList(h)
    ensures KidsFit(h, done, kids) <==> forall k | k in kids :: WellKinded(k) && Allowed(h, [], k.head)
    decreases kids
  {
    if kids != [] {
      ListFits(h, done + [kids[0].head], kids[1..]);
      assert forall k :: k in kids <==> k == kids[0] || k in kids[1..];
    }
  }

  /** What lists hold, kind by kind. */
  lemma ListsHold(h: Head, kids: seq<Tree>)
    requires IsList(h)
    ensures WellKinded(Tree(h, kids)) <==>
              forall k | k in kids ::
                WellKinded(k) &&
                match h
                case CompilationUnit | MetaUnit(_) =>
                  k.head.FunctionDecl? || k.head.MetaDecl? || k.head.GlobalConstant? || k.head.MetaUnit?
                case ArgumentDeclList => k.head.NamedArgument? || k.head.AnonymousArgument?
                case UnscopedCompound | Compound =>
                  k.head.UnscopedCompound? || k.head.Compound? || k.head.Return? || k.head.ExpressionStmt? ||
                  k.head.DeclStmt? || k.head.If? || k.head.MetaIf? || k.head.MetaCalculation?
                case _ => true
  {
    ListFits(h, [], kids);
  }

  /** What may be returned, evaluated or assigned to a declaration, and what a
      constant may hold. */
  lemma OperandsAre(h: Head, e: Tree)
    requires h.Return? || h.ExpressionStmt? || h.DeclStmt? || h.GlobalConstant?
    ensures WellKinded(Tree(h, [e])) <==>
              WellKinded(e) &&
              (e.head.IntegerLiteral? || e.head.BooleanLiteral? ||
               (!h.GlobalConstant? &&
                (e.head.DeclRef? || e.head.Binary? || e.head.Call? || e.head.MetaInstantiation?)))
  {
    assert [] + [e.head] == [e.head] && [e][1..] == [];
    assert KidsFit(h, [e.head], []);
    assert KidsFit(h, [], [e]) <==> Allowed(h, [], e.head) && WellKinded(e);
  }

  /** So a layout says where a node ends exactly when its kind does not. */
  lemma LayoutOf(t: Tree)
    requires WellKinded(t)
    ensures Encode(t) == [Some(t.head)] + EncodeAll(t.kids) + (if SizesVary(t.head) then [None] else [])
    ensures t.head.DeclRef? ==> Encode(t) == [Some(t.head)]
  {
    MarkersWhereSizesVary(t.head);
    SizesAreKnown(t);
    if t.head.DeclRef? {
      assert EncodeAll([]) == [];
    }
  }
}
