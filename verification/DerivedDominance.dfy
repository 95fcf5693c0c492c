/** Dominance of what is generated for derived declarations: functions always
    have it, meta declarations exactly when nothing behind a meta-if refers to a
    name of its branches. */
module DerivedDominance {
  import opened Ast
  import opened Machine
  import opened Graph
  import opened Runs
  import opened Semantics
  import opened Binding
  import opened FunctionCodegen
  import opened Instantiation
  import SpecialisedUnits
  import opened Grammar
  import opened ReadIsClosed
  import opened WaysThrough
  import opened Dominance
  import opened MetaDominance
  import opened NeedsDominance

  lemma {:induction false} DerivedIsScoped(t: Tree, stack: DepthStack)
    requires DerivesStatement(t, stack) && !ModeOf(stack).InsideMetaDecl?
    ensures ScopedIfs(t)
    decreases t, 1
  {
    match t.head
    case Compound => DerivedAreScoped(t.kids, stack);
    case If =>
      DerivedIsScoped(t.kids[1], stack);
      if |t.kids| == 3 {
        DerivedIsScoped(t.kids[2], stack);
      }
    case DeclStmt(_) | ExpressionStmt | Return =>
  }

  lemma {:induction false} DerivedAreScoped(ts: seq<Tree>, stack: DepthStack)
    requires DerivesStatements(ts, stack) && !ModeOf(stack).InsideMetaDecl?
    ensures AllScopedIfs(ts)
    decreases ts, 0
  {
    if ts != [] {
      DerivedIsScoped(ts[0], stack);
      DerivedAreScoped(ts[1..], stack);
    }
  }

  /** A closed statement whose ifs have compounds as branches uses only names that
      are declared. */
  lemma {:induction false} ScopedIsSure(g: Globals, known: set<Name>, s: Tree)
    requires ClosedStmt(g, known, s) && ScopedIfs(s)
    ensures SureStmt(g, known, s) && SurelyLeft(s) == Declares(s)
    decreases s, 0
  {
    match s.head
    case UnscopedCompound | Compound => ScopedAreSure(g, known, s.kids);
    case If =>
      assert known + Declares(s.kids[1]) == known;
      ScopedIsSure(g, known, s.kids[1]);
      if |s.kids| > 2 {
        ScopedIsSure(g, known, s.kids[2]);
      }
    case Return | ExpressionStmt | DeclStmt(_) =>
  }

  lemma {:induction false} ScopedAreSure(g: Globals, known: set<Name>, ss: seq<Tree>)
    requires ClosedStmts(g, known, ss) && AllScopedIfs(ss)
    ensures AllSure(g, known, ss) && AllSurelyLeft(ss) == DeclaresAll(ss)
    decreases ss
  {
    if ss != [] {
      ScopedIsSure(g, known, ss[0]);
      ScopedAreSure(g, known + Declares(ss[0]), ss[1..]);
    }
  }

  /** Whatever is generated for a derived function allocates every slot before it
      uses it, on every path. */
  lemma DerivedFunctionDominated(g: Globals, w: Where, t: Tree, outer: Chain)
    requires DerivesFunction(t, []) && Resolves(g, outer) && outer != [] && Read(w, t, [], outer, Outside).ok
    requires var body := t.kids[|t.kids| - 1]; Usable(g, AroundBody(w, t, outer), body) && NothingAfterReturn(body)
    ensures Dominated(GenFunction(g, ParamsOf(t.kids[0].kids), t.kids[|t.kids| - 1]))
  {
    hide Resolves, Read, Usable, NothingAfterReturn, Dominated, GenFunction, ClosedStmt;
    var ps, body := ParamsOf(t.kids[0].kids), t.kids[|t.kids| - 1];
    FunctionIsClosed(g, w, t, outer);
    DerivedIsScoped(body, []);
    ScopedIsSure(g, ParamNames(ps), body);
    FunctionDominated(g, ps, body);
  }

  // Meta declarations

  lemma {:induction false} DerivedMetaIsScoped(t: Tree, stack: DepthStack)
    requires DerivesMetaStmt(t, stack) && (IsInMetaDepth(stack, GlobalScope) || IsInMetaDepth(stack, LocalScope))
    ensures ScopedCalculations(t)
    decreases t, 1
  {
    if t.head.MetaCalculation? {
      assert ModeOf(stack + [NoScope]) == InsideComputation;
      DerivedAreScoped(t.kids[0].kids, stack + [NoScope]);
    } else {
      ContributionIsScoped(t.kids[1], stack);
      if |t.kids| == 3 {
        ContributionIsScoped(t.kids[2], stack);
      }
    }
  }

  lemma {:induction false} ContributionIsScoped(t: Tree, stack: DepthStack)
    requires DerivesContribution(t, stack) && (IsInMetaDepth(stack, GlobalScope) || IsInMetaDepth(stack, LocalScope))
    ensures ScopedCalculations(t)
    decreases t, 0
  {
    ScopeNodesAreScoped(t.kids, stack);
  }

  lemma {:induction false} ScopeNodesAreScoped(ts: seq<Tree>, stack: DepthStack)
    requires DerivesScopeNodes(ts, stack) && (IsInMetaDepth(stack, GlobalScope) || IsInMetaDepth(stack, LocalScope))
    ensures AllScopedCalculations(ts)
    decreases ts, 0
  {
    if ts != [] {
      if IsInMetaDepth(stack, LocalScope) {
        CopiedIsScoped(ts[0], stack);
      } else {
        DerivedNode(ts[0], stack);
        if ts[0].head.FunctionDecl? {
          FunctionIsScoped(ts[0], stack);
        } else {
          DerivedMetaIsScoped(ts[0], stack);
        }
      }
      ScopeNodesAreScoped(ts[1..], stack);
    }
  }

  lemma {:induction false} FunctionIsScoped(t: Tree, stack: DepthStack)
    requires DerivesFunction(t, stack) && IsInMetaDepth(stack, GlobalScope)
    ensures ScopedCalculations(t)
    decreases t, 0
  {
    var kids, n := t.kids, |t.kids| - 1;
    assert IsInMetaDepth(stack + [LocalScope], LocalScope);
    ArgumentsFit(kids[0]);
    SimpleIsScoped(kids[0]);
    if n == 2 {
      ArgumentFits(kids[1]);
      SimpleIsScoped(kids[1]);
    }
    CopiedIsScoped(kids[n], stack + [LocalScope]);
    assert kids[n..] == [kids[n]] && kids[n..][1..] == [];
    assert AllScopedCalculations(kids[n..]);
    assert kids[1..][1..] == kids[2..];
    assert AllScopedCalculations(kids[1..]);
  }

  lemma {:induction false} SimpleIsScoped(t: Tree)
    requires WellKinded(t) && SpecialisedUnits.IsSimple(t.head)
    ensures ScopedCalculations(t)
    decreases t, 1
  {
    SimpleAreScoped(t.head, [], t.kids);
  }

  lemma {:induction false} SimpleAreScoped(h: Head, done: seq<Head>, kids: seq<Tree>)
    requires KidsFit(h, done, kids)
    requires SpecialisedUnits.IsSimple(h) || h.Return? || h.ExpressionStmt? || h.DeclStmt?
    ensures AllScopedCalculations(kids)
    decreases kids, 0
  {
    if kids != [] {
      SimpleIsScoped(kids[0]);
      SimpleAreScoped(h, done + [kids[0].head], kids[1..]);
    }
  }

  lemma {:induction false} CopiedIsScoped(t: Tree, stack: DepthStack)
    requires DerivesStatement(t, stack) && IsInMetaDepth(stack, LocalScope)
    ensures ScopedCalculations(t)
    decreases t, 2
  {
    DerivedHead(t, stack);
    match t.head
    case DeclStmt(_) | ExpressionStmt | Return =>
      StatementFits(t, stack);
      SimpleAreScoped(t.head, [], t.kids);
    case If =>
      var kids := t.kids;
      ExprFits(kids[0]);
      SimpleIsScoped(kids[0]);
      CopiedIsScoped(kids[1], stack);
      assert kids[1..][1..] == kids[2..];
      if |kids| == 3 {
        CopiedIsScoped(kids[2], stack);
        assert kids[2..] == [kids[2]] && kids[2..][1..] == [];
      }
      assert AllScopedCalculations(kids[2..]);
      assert AllScopedCalculations(kids[1..]);
    case Compound =>
      DerivedList(t, stack);
      CopiedAreScoped(t.kids, stack);
    case MetaIf | MetaCalculation =>
      DerivedMeta(t, stack);
      DerivedMetaIsScoped(t, stack);
  }

  lemma {:induction false} CopiedAreScoped(ts: seq<Tree>, stack: DepthStack)
    requires DerivesStatements(ts, stack) && IsInMetaDepth(stack, LocalScope)
    ensures AllScopedCalculations(ts)
    decreases ts, 0
  {
    if ts != [] {
      CopiedIsScoped(ts[0], stack);
      CopiedAreScoped(ts[1..], stack);
    }
  }

  /** What is compiled for a derived meta declaration allocates every slot before
      it uses it, on every path, exactly when nothing behind a meta-if refers to
      a name of its branches; no run then ever uses a slot that was not
      allocated. */
  lemma DerivedMetaDominatedIff(g: Globals, w: Where, t: Tree, outer: Chain)
    requires DerivesMetaDecl(t, []) && Resolves(g, outer) && outer != [] && Read(w, t, [], outer, Outside).ok
    requires UsableMeta(g, outer, t.kids[1]) && FlowsOn(t.kids[1])
    ensures var ps := ParamsOf(t.kids[0].kids);
            var f := GenMetaFunction(g, ps, t.kids[1]);
            (Dominated(f) <==> KeepsToBranches(g, ParamNames(ps), t.kids[1])) &&
            (Dominated(f) ==> forall call, args, n: nat :: FindsSlots(f, StepN(f, call, Start(args), n)))
  {
    hide Resolves, Read, UsableMeta, FlowsOn, Dominated, GenMetaFunction, KeepsToBranches, FindsSlots, WellFormed,
         ClosedMetaFunction, ScopedCalculations;
    var ps := ParamsOf(t.kids[0].kids);
    var f := GenMetaFunction(g, ps, t.kids[1]);
    MetaDeclIsClosed(g, w, t, outer);
    ContributionIsScoped(t.kids[1], [] + [GlobalScope]);
    MetaDominatedIff(g, ps, t.kids[1]);
    MetaFunctionWellFormed(g, ps, t.kids[1]);
    if Dominated(f) {
      forall call, args, n: nat
        ensures FindsSlots(f, StepN(f, call, Start(args), n))
      {
        DominatedRuns(f, call, args, n);
      }
    }
  }
}
