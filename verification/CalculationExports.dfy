/** What a calculation exports: the reader's listener and the staging compiler
    mean the same declarations. */
module CalculationExports {
  import opened Wrappers
  import opened Ast
  import opened Sequences
  import opened DependencyAnalysis
  import opened Binding
  import opened ScopedReading
  import opened SpecialisedUnits
  import MetaCodegen

  function NamesOf(ds: seq<Decl>): seq<Name> {
    if ds == [] then []
    else (if IsNamedDecl(ds[0].head) then [ds[0].head.name] else []) + NamesOf(ds[1..])
  }

  lemma {:induction false} NamesAppend(a: seq<Decl>, b: seq<Decl>)
    ensures NamesOf(a + b) == NamesOf(a) + NamesOf(b)
    decreases a
  {
    if a == [] {
      assert a + b == b;
    } else {
      assert (a + b)[1..] == a[1..] + b;
      NamesAppend(a[1..], b);
    }
  }

  lemma NameOfOne(d: Decl)
    requires IsNamedDecl(d.head)
    ensures NamesOf([d]) == [d.head.name]
  {
    assert [d][1..] == [];
  }

  /** Expressions leave nothing in scope. */
  lemma {:induction false} ExprsLeaveNothing(w: Where, h: Head, done: seq<Head>, es: seq<Tree>, at: Path, i: nat,
                                             mode: Mode)
    requires KidsFit(h, done, es) && (IsExpr(h) || h.Return? || h.ExpressionStmt? || h.DeclStmt?)
    ensures LeavesOf(w, h, es, at, i, mode) == []
    decreases es
  {
    if es != [] {
      ExprLeavesNothing(w, es[0], at + [i], KidMode(h, i, mode));
      ExprsLeaveNothing(w, h, done + [es[0].head], es[1..], at, i + 1, mode);
    }
  }

  lemma {:induction false} ExprLeavesNothing(w: Where, e: Tree, at: Path, mode: Mode)
    requires WellKinded(e) && IsExpr(e.head)
    ensures Leaves(w, e, at, mode) == []
    decreases e
  {
    ExprsLeaveNothing(w, e.head, [], e.kids, at, 0, mode);
  }

  /** The declarations the reader's listener collects from a calculation are
      exactly the ones the staging compiler exports, in source order: those
      lying directly in the calculation's block, none of a nested compound. */
  lemma {:induction false} ListenerHearsExports(w: Where, s: Tree, at: Path)
    requires WellKinded(s) && IsStmt(s.head) && NoMeta(s)
    ensures NamesOf(Leaves(w, s, at, InsideComputation)) == MetaCodegen.Exports(s)
    decreases s, 1
  {
    hide LeavesOf, KidsFit;
    match s.head
    case UnscopedCompound =>
      KidsAreStmts(s.head, [], s.kids);
      ListenerHearsAllExports(w, s.head, s.kids, at, 0);
      EmptyRight(LeavesOf(w, s.head, s.kids, at, 0, InsideComputation));
    case If => ListenerHearsBranches(w, s, at);
    case DeclStmt(x) =>
      ExprsLeaveNothing(w, s.head, [], s.kids, at, 0, InsideComputation);
      NameOfOne(DeclAt(w, at, s.head));
      EmptyLeft([DeclAt(w, at, s.head)]);
    case Return | ExpressionStmt => ExprsLeaveNothing(w, s.head, [], s.kids, at, 0, InsideComputation);
    case Compound =>
  }

  lemma {:induction false} KidsAreStmts(h: Head, done: seq<Head>, kids: seq<Tree>)
    requires KidsFit(h, done, kids) && (h.UnscopedCompound? || h.Compound?)
    ensures forall t | t in kids :: IsStmt(t.head) && WellKinded(t)
    decreases kids
  {
    if kids != [] {
      KidsAreStmts(h, done + [kids[0].head], kids[1..]);
      assert forall t | t in kids :: t == kids[0] || t in kids[1..];
    }
  }

  lemma {:induction false} ListenerHearsAllExports(w: Where, h: Head, ss: seq<Tree>, at: Path, i: nat)
    requires (forall t | t in ss :: IsStmt(t.head) && WellKinded(t)) && AllNoMeta(ss)
    requires h.UnscopedCompound? || (h.If? && i > 0)
    ensures NamesOf(LeavesOf(w, h, ss, at, i, InsideComputation)) == MetaCodegen.ExportsAll(ss)
    decreases ss, 0
  {
    if ss != [] {
      assert ss[0] in ss && forall t | t in ss[1..] :: t in ss;
      ListenerHearsExports(w, ss[0], at + [i]);
      ListenerHearsAllExports(w, h, ss[1..], at, i + 1);
      NamesAppend(Leaves(w, ss[0], at + [i], InsideComputation), LeavesOf(w, h, ss[1..], at, i + 1, InsideComputation));
    }
  }

  lemma {:induction false} ListenerHearsBranches(w: Where, s: Tree, at: Path)
    requires WellKinded(s) && s.head.If? && NoMeta(s)
    ensures NamesOf(Leaves(w, s, at, InsideComputation)) == MetaCodegen.Exports(s)
    decreases s, 0
  {
    var kids := s.kids;
    var branches := kids[1..];
    WellKindedKids(s);
    IfHasFewKids(s);
    assert WellKinded(kids[0]) && WellKinded(kids[1]) && (|kids| == 3 ==> WellKinded(kids[2]));
    ExprLeavesNothing(w, kids[0], at + [0], InsideComputation);
    ListenerHearsAllExports(w, s.head, branches, at, 1);
    assert LeavesOf(w, s.head, kids, at, 0, InsideComputation) ==
             LeavesOf(w, s.head, branches, at, 1, InsideComputation);
    EmptyRight(LeavesOf(w, s.head, kids, at, 0, InsideComputation));
    assert branches[1..] == kids[2..];
    if |kids| == 3 {
      assert kids[2..][1..] == [];
      assert MetaCodegen.ExportsAll(kids[2..]) == MetaCodegen.Exports(kids[2]) + [];
    }
  }

  /** What reading a node collects for one of its calculations are the names
      that the staging compiler exports for it. */
  lemma CollectedAreExports(w: Where, t: Tree, at: Path, before: map<Path, seq<Decl>>, after: map<Path, seq<Decl>>,
                            q: Path)
    requires Collected(w, t, at, before, after) && NodeAt(t, q).Some?
    requires var c := NodeAt(t, q).value; c.head.MetaCalculation? && |c.kids| == 1
    requires var s := NodeAt(t, q).value.kids[0]; WellKinded(s) && IsStmt(s.head) && NoMeta(s)
    ensures at + q in after && NamesOf(after[at + q]) == MetaCodegen.Exports(NodeAt(t, q).value.kids[0])
  {
    hide Leaves, WellKinded, NoMeta;
    var p, c := at + q, NodeAt(t, q).value;
    assert p[|at|..] == q && IsBelow(p, at);
    assert ExportedAt(w, t, q, p) == Some(Leaves(w, c.kids[0], p + [0], InsideComputation));
    assert Entry(after, p) == ExportedAt(w, t, q, p);
    ListenerHearsExports(w, c.kids[0], p + [0]);
  }
}
