/** The generators use no instantiation beyond the ones the dependency analysis
    accounts for: what they generate does not depend on any other. */
module Lookups {
  import opened Wrappers
  import opened Ast
  import opened Semantics
  import opened ExprCodegen
  import opened StmtCodegen
  import opened MetaCodegen
  import opened Staging
  import opened DependencyAnalysis

  /** The two resolve names alike, and the listed instantiations too. */
  ghost predicate SameFor(g: Globals, h: Globals, lookups: set<Occurrence>) {
    g.functions == h.functions && g.constants == h.constants &&
    forall o | o in lookups ::
      (o.inst in g.instances <==> o.inst in h.instances) &&
      (o.inst in g.instances ==> g.instances[o.inst] == h.instances[o.inst])
  }

  lemma {:induction false} ExprDependsOnLookups(g: Globals, h: Globals, values: ValueMap, reg: nat, e: Tree, at: Path)
    requires SameFor(g, h, LooksUp(e, at))
    ensures GenExpr(g, values, reg, e) == GenExpr(h, values, reg, e)
    decreases e, 0
  {
    match e.head
    case MetaInstantiation => assert Occurrence(at, e) in LooksUp(e, at);
    case Binary(_) =>
      if |e.kids| == 2 {
        KidSameFor(g, h, e, at, 0);
        KidSameFor(g, h, e, at, 1);
        ExprDependsOnLookups(g, h, values, reg, e.kids[0], at + [0]);
        ExprDependsOnLookups(g, h, values, GenExpr(g, values, reg, e.kids[0]).reg, e.kids[1], at + [1]);
      }
    case Call =>
      if e.kids != [] {
        KidSameFor(g, h, e, at, 0);
        assert LooksUpAll(e.kids[1..], at, 1) <= LooksUp(e, at);
        ExprDependsOnLookups(g, h, values, reg, e.kids[0], at + [0]);
        ArgsDependOnLookups(g, h, values, GenExpr(g, values, reg, e.kids[0]).reg, e.kids[1..], at, 1);
      }
    case _ =>
  }

  lemma {:induction false} KidLooksUp(ts: seq<Tree>, at: Path, i: nat, k: nat)
    requires k < |ts|
    ensures LooksUp(ts[k], at + [i + k]) <= LooksUpAll(ts, at, i)
    decreases ts
  {
    if k != 0 {
      KidLooksUp(ts[1..], at, i + 1, k - 1);
    }
  }

  /** What holds for the lookups of a node holds for those of its children. */
  lemma KidSameFor(g: Globals, h: Globals, t: Tree, at: Path, k: nat)
    requires SameFor(g, h, LooksUp(t, at)) && !t.head.MetaInstantiation? && k < |t.kids|
    ensures SameFor(g, h, LooksUp(t.kids[k], at + [k]))
  {
    KidLooksUp(t.kids, at, 0, k);
    assert at + [0 + k] == at + [k];
  }

  lemma {:induction false} ArgsDependOnLookups(g: Globals, h: Globals, values: ValueMap, reg: nat, es: seq<Tree>,
                                               at: Path, i: nat)
    requires SameFor(g, h, LooksUpAll(es, at, i))
    ensures GenArgs(g, values, reg, es) == GenArgs(h, values, reg, es)
    decreases es
  {
    if es != [] {
      ExprDependsOnLookups(g, h, values, reg, es[0], at + [i]);
      var a := GenExpr(g, values, reg, es[0]);
      ArgsDependOnLookups(g, h, values, LoadMemory(a.value, a.reg).reg, es[1..], at, i + 1);
    }
  }

  lemma {:induction false} StmtDependsOnLookups(g: Globals, h: Globals, b: Builder, block: nat, s: Tree, at: Path)
    requires SameFor(g, h, LooksUp(s, at))
    ensures GenStmt(g, b, block, s) == GenStmt(h, b, block, s)
    decreases s, 1
  {
    hide SameFor, GenExpr;
    match s.head
    case UnscopedCompound | Compound => StmtsDependOnLookups(g, h, b, block, s.kids, at, 0);
    case Return | ExpressionStmt | DeclStmt(_) =>
      if s.kids != [] {
        KidSameFor(g, h, s, at, 0);
        ExprDependsOnLookups(g, h, b.values, b.reg, s.kids[0], at + [0]);
      }
    case If => IfDependsOnLookups(g, h, b, block, s, at);
    case _ =>
  }

  lemma {:induction false} IfDependsOnLookups(g: Globals, h: Globals, b: Builder, block: nat, s: Tree, at: Path)
    requires SameFor(g, h, LooksUp(s, at)) && s.head.If?
    ensures GenStmt(g, b, block, s) == GenStmt(h, b, block, s)
    decreases s, 0
  {
    hide SameFor, GenExpr, LooksUp;
    if |s.kids| >= 2 {
      KidSameFor(g, h, s, at, 0);
      KidSameFor(g, h, s, at, 1);
      var (b1, end1) := GenStmt(g, StartBranch(b), |b.blocks|, s.kids[1]);
      StmtDependsOnLookups(g, h, StartBranch(b), |b.blocks|, s.kids[1], at + [1]);
      var j1 := Join(b1, end1, None);
      var last := LazyContinue(j1.b, j1.cont).b;
      if |s.kids| > 2 {
        KidSameFor(g, h, s, at, 2);
        var (b2, end2) := GenStmt(g, StartBranch(j1.b), |j1.b.blocks|, s.kids[2]);
        StmtDependsOnLookups(g, h, StartBranch(j1.b), |j1.b.blocks|, s.kids[2], at + [2]);
        last := Join(b2, end2, j1.cont).b;
      }
      ExprDependsOnLookups(g, h, last.values, last.reg, s.kids[0], at + [0]);
    }
  }

  lemma {:induction false} StmtsDependOnLookups(g: Globals, h: Globals, b: Builder, block: nat, ss: seq<Tree>,
                                                at: Path, i: nat)
    requires SameFor(g, h, LooksUpAll(ss, at, i))
    ensures GenStmts(g, b, block, ss) == GenStmts(h, b, block, ss)
    decreases ss
  {
    if ss != [] {
      StmtDependsOnLookups(g, h, b, block, ss[0], at + [i]);
      var r := GenStmt(g, b, block, ss[0]);
      if r.1.Some? {
        StmtsDependOnLookups(g, h, r.0, r.1.value, ss[1..], at, i + 1);
      }
    }
  }

  lemma {:induction false} MetaDependsOnLookups(g: Globals, h: Globals, b: Builder, block: nat, inside: bool, t: Tree,
                                                at: Path)
    requires SameFor(g, h, MetaLooksUp(t, at))
    ensures GenMeta(g, b, block, inside, t) == GenMeta(h, b, block, inside, t)
    decreases t, 1
  {
    if t.head.MetaContribution? {
      MetasDependOnLookups(g, h, b, block, inside, t.kids, at, 0);
    } else if t.head.MetaIf? {
      MetaIfDependsOnLookups(g, h, b, block, inside, t, at);
    } else if t.head.MetaCalculation? {
      if t.kids != [] {
        var region := CreateRegion(b);
        KidSameFor(g, h, t, at, 0);
        StmtDependsOnLookups(g, h, region, region.at, t.kids[0], at + [0]);
      }
    } else {
      MetasDependOnLookups(g, h, MetaStart(b, t.head), block, Deeper(inside, t.head), t.kids, at, 0);
    }
  }

  lemma {:induction false} MetaIfDependsOnLookups(g: Globals, h: Globals, b: Builder, block: nat, inside: bool,
                                                  t: Tree, at: Path)
    requires SameFor(g, h, MetaLooksUp(t, at)) && t.head.MetaIf?
    ensures GenMeta(g, b, block, inside, t) == GenMeta(h, b, block, inside, t)
    decreases t, 0
  {
    hide SameFor, GenExpr;
    if |t.kids| >= 2 {
      MetaIfKids(g, h, t, at);
      var (b1, end1) := GenMeta(g, StartBranch(b), |b.blocks|, inside, t.kids[1]);
      MetaDependsOnLookups(g, h, StartBranch(b), |b.blocks|, inside, t.kids[1], at + [1]);
      var j1 := Join(b1, end1, None);
      var last := LazyContinue(j1.b, j1.cont).b;
      if |t.kids| > 2 {
        var (b2, end2) := GenMeta(g, StartBranch(j1.b), |j1.b.blocks|, inside, t.kids[2]);
        MetaDependsOnLookups(g, h, StartBranch(j1.b), |j1.b.blocks|, inside, t.kids[2], at + [2]);
        last := Join(b2, end2, j1.cont).b;
      }
      ExprDependsOnLookups(g, h, last.values, last.reg, t.kids[0], at + [0]);
    }
  }

  lemma {:induction false} MetaKidLooksUp(ts: seq<Tree>, at: Path, i: nat, k: nat)
    requires k < |ts|
    ensures MetaLooksUp(ts[k], at + [i + k]) <= MetaLooksUpAll(ts, at, i)
    decreases ts
  {
    if k != 0 {
      MetaKidLooksUp(ts[1..], at, i + 1, k - 1);
    }
  }

  lemma MetaIfKids(g: Globals, h: Globals, t: Tree, at: Path)
    requires SameFor(g, h, MetaLooksUp(t, at)) && t.head.MetaIf? && |t.kids| >= 2
    ensures SameFor(g, h, LooksUp(t.kids[0], at + [0])) && SameFor(g, h, MetaLooksUp(t.kids[1], at + [1]))
    ensures |t.kids| > 2 ==> SameFor(g, h, MetaLooksUp(t.kids[2], at + [2]))
  {
    MetaKidLooksUp(t.kids[1..], at, 1, 0);
    if |t.kids| > 2 {
      MetaKidLooksUp(t.kids[1..], at, 1, 1);
    }
  }

  lemma {:induction false} MetasDependOnLookups(g: Globals, h: Globals, b: Builder, block: nat, inside: bool,
                                                ts: seq<Tree>, at: Path, i: nat)
    requires SameFor(g, h, MetaLooksUpAll(ts, at, i))
    ensures GenMetas(g, b, block, inside, ts) == GenMetas(h, b, block, inside, ts)
    decreases ts
  {
    if ts != [] {
      MetaDependsOnLookups(g, h, b, block, inside, ts[0], at + [i]);
      var r := GenMeta(g, b, block, inside, ts[0]);
      if r.1.Some? {
        MetasDependOnLookups(g, h, r.0, r.1.value, inside, ts[1..], at, i + 1);
      }
    }
  }
}
