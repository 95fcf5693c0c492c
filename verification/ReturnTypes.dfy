/** When generated returns fit the declared type of their function: an integer,
    or nothing (src/Codegen/CodegenBase.cpp, FunctionCodegen.cpp, MetaCodegen.cpp).
    Nothing checks it before the code is generated. */
module ReturnTypes {
  import opened Wrappers
  import opened Ast
  import opened Machine
  import opened Semantics
  import opened ExprCodegen
  import opened StmtCodegen
  import opened Simulation
  import opened FunctionCodegen
  import opened MetaCodegen
  import opened Staging
  import opened Instantiation

  /** A return with a value belongs in a function with a result only, and one
      without a value in a function without one. */
  predicate InstrFits(result: bool, i: Instr) {
    (i.Ret? ==> result) && (i.RetVoid? ==> !result)
  }

  ghost predicate CodeFits(result: bool, code: Code) {
    forall k | 0 <= k < |code| :: InstrFits(result, code[k])
  }

  ghost predicate GraphFits(result: bool, f: Cfg) {
    forall i | 0 <= i < |f| :: CodeFits(result, f[i])
  }

  /** The return statements fit. */
  predicate StmtFits(result: bool, s: Tree)
    decreases s, 0
  {
    match s.head
    case Return => result <==> s.kids != []
    case UnscopedCompound | Compound => AllFit(result, s.kids)
    case If =>
      |s.kids| >= 2 ==> StmtFits(result, s.kids[1]) && (|s.kids| > 2 ==> StmtFits(result, s.kids[2]))
    case _ => true
  }

  predicate AllFit(result: bool, ss: seq<Tree>)
    decreases ss
  {
    ss == [] || (StmtFits(result, ss[0]) && AllFit(result, ss[1..]))
  }

  lemma CodeFitsAppend(result: bool, a: Code, b: Code)
    ensures CodeFits(result, a + b) <==> CodeFits(result, a) && CodeFits(result, b)
  {
    if CodeFits(result, a + b) {
      forall k | 0 <= k < |a|
        ensures InstrFits(result, a[k])
      {
        assert (a + b)[k] == a[k];
      }
      forall k | 0 <= k < |b|
        ensures InstrFits(result, b[k])
      {
        assert (a + b)[|a| + k] == b[k];
      }
    }
  }

  lemma OpenFits(result: bool, code: Code)
    requires Open(code)
    ensures CodeFits(result, code)
  {
  }

  lemma EmitFits(result: bool, b: Builder, code: Code)
    requires b.at < |b.blocks|
    ensures GraphFits(result, Emit(b, code).blocks) <==> GraphFits(result, b.blocks) && CodeFits(result, code)
  {
    var r := Emit(b, code);
    CodeFitsAppend(result, b.blocks[b.at], code);
    if GraphFits(result, r.blocks) {
      forall i | 0 <= i < |b.blocks|
        ensures CodeFits(result, b.blocks[i])
      {
        assert CodeFits(result, r.blocks[i]);
      }
      assert CodeFits(result, r.blocks[b.at]);
    }
  }

  lemma BlockFits(result: bool, b: Builder)
    ensures GraphFits(result, CreateBlock(b).blocks) <==> GraphFits(result, b.blocks)
  {
    var r := CreateBlock(b);
    if GraphFits(result, r.blocks) {
      forall i | 0 <= i < |b.blocks|
        ensures CodeFits(result, b.blocks[i])
      {
        assert CodeFits(result, r.blocks[i]);
      }
    }
  }

  lemma JoinFits(result: bool, r: Builder, end: Option<nat>, cont: Option<nat>)
    requires r.at < |r.blocks|
    ensures GraphFits(result, Join(r, end, cont).b.blocks) <==> GraphFits(result, r.blocks)
  {
    BlockFits(result, r);
    var l := LazyContinue(r, cont);
    EmitFits(result, l.b, [Br(l.cont.value)]);
  }

  lemma BranchFits(g: Globals, result: bool, c: Builder, block: nat, cond: Tree, yes: nat, no: nat, cont: Option<nat>)
    requires block < |c.blocks|
    ensures GraphFits(result, Branch(g, c, block, cond, yes, no, cont).0.blocks) <==> GraphFits(result, c.blocks)
  {
    var e := GenExpr(g, c.values, c.reg, cond);
    var test := [IsNotNull(e.reg, e.value), CondBr(Temp(e.reg), yes, no)];
    ExprWithin(g, c.values, c.reg, cond);
    WithinIsOpen(e.code, c.reg, e.reg);
    OpenFits(result, e.code);
    CodeFitsAppend(result, e.code, test);
    EmitFits(result, c.(at := block, reg := e.reg + 1), e.code + test);
  }

  /** The code generated for a statement fits exactly when its returns do. */
  lemma {:induction false} StmtCodeFits(g: Globals, result: bool, known: set<Name>, b: Builder, s: Tree)
    requires Ready(b) && ClosedStmt(g, known, s)
    ensures GraphFits(result, GenStmt(g, b, b.at, s).0.blocks) <==> GraphFits(result, b.blocks) && StmtFits(result, s)
    decreases s, 2
  {
    hide GraphFits, GenExpr, CodeFits;
    match s.head
    case UnscopedCompound | Compound => StmtsCodeFits(g, result, known, b, s.kids);
    case If => IfCodeFits(g, result, known, b, s);
    case Return => ReturnCodeFits(g, result, b, s);
    case ExpressionStmt =>
      var e := GenExpr(g, b.values, b.reg, s.kids[0]);
      ExprFits(g, result, b, s.kids[0]);
      EmitFits(result, b.(reg := e.reg), e.code);
    case DeclStmt(_) =>
      var e := GenExpr(g, b.values, b.reg, s.kids[0]);
      var v := LoadMemory(e.value, e.reg + 1);
      var tail := [Alloca(e.reg)] + v.code + [Store(v.value, Slot(e.reg))];
      ExprFits(g, result, b, s.kids[0]);
      OpenFits(result, tail);
      CodeFitsAppend(result, e.code, tail);
      EmitFits(result, b.(reg := v.reg), e.code + tail);
  }

  lemma ExprFits(g: Globals, result: bool, b: Builder, e: Tree)
    ensures CodeFits(result, GenExpr(g, b.values, b.reg, e).code)
  {
    var r := GenExpr(g, b.values, b.reg, e);
    ExprWithin(g, b.values, b.reg, e);
    WithinIsOpen(r.code, b.reg, r.reg);
  }

  lemma ReturnCodeFits(g: Globals, result: bool, b: Builder, s: Tree)
    requires Ready(b) && s.head.Return?
    ensures GraphFits(result, GenStmt(g, b, b.at, s).0.blocks) <==> GraphFits(result, b.blocks) && StmtFits(result, s)
  {
    hide GraphFits, GenExpr;
    if s.kids == [] {
      EmitFits(result, b, [RetVoid]);
      assert [RetVoid][0] == RetVoid;
    } else {
      var e := GenExpr(g, b.values, b.reg, s.kids[0]);
      var v := LoadMemory(e.value, e.reg);
      var last := [Ret(v.value)];
      ExprFits(g, result, b, s.kids[0]);
      OpenFits(result, v.code);
      CodeFitsAppend(result, e.code, v.code);
      CodeFitsAppend(result, e.code + v.code, last);
      assert last[0] == Ret(v.value);
      EmitFits(result, b.(reg := v.reg), e.code + v.code + last);
    }
  }

  lemma {:induction false} StmtsCodeFits(g: Globals, result: bool, known: set<Name>, b: Builder, ss: seq<Tree>)
    requires Ready(b) && ClosedStmts(g, known, ss)
    ensures GraphFits(result, GenStmts(g, b, b.at, ss).0.blocks) <==> GraphFits(result, b.blocks) && AllFit(result, ss)
    decreases ss
  {
    hide GraphFits, GenStmt, StmtFits, ClosedStmt;
    if ss != [] {
      var r := GenStmt(g, b, b.at, ss[0]);
      StmtRegion(g, known, b, ss[0]);
      StmtCodeFits(g, result, known, b, ss[0]);
      if r.1.Some? {
        StmtsCodeFits(g, result, known + Declares(ss[0]), r.0, ss[1..]);
      }
    }
  }

  lemma {:induction false} BranchCodeFits(g: Globals, result: bool, known: set<Name>, c: Builder, cont: Option<nat>,
                                          s: Tree)
    requires ClosedStmt(g, known, s)
    ensures var j := AddBranch(g, c, cont, s).b;
            (GraphFits(result, j.blocks) <==> GraphFits(result, c.blocks) && StmtFits(result, s)) &&
            |c.blocks| < |j.blocks|
    decreases s, 3
  {
    hide GraphFits, GenStmt, StmtFits;
    var start := StartBranch(c);
    var r := GenStmt(g, start, |c.blocks|, s);
    BlockFits(result, c);
    StmtRegion(g, known, start, s);
    StmtCodeFits(g, result, known, start, s);
    JoinFits(result, r.0, r.1, cont);
  }

  lemma {:induction false} IfCodeFits(g: Globals, result: bool, known: set<Name>, b: Builder, s: Tree)
    requires Ready(b) && ClosedStmt(g, known, s) && s.head.If?
    ensures GraphFits(result, GenStmt(g, b, b.at, s).0.blocks) <==> GraphFits(result, b.blocks) && StmtFits(result, s)
    decreases s, 1
  {
    hide GraphFits, GenStmt;
    var first := AddBranch(g, b, None, s.kids[1]);
    var (j, no) := IfBranches(g, b, s);
    GenIf(g, b, s);
    BranchCodeFits(g, result, known, b, None, s.kids[1]);
    if |s.kids| > 2 {
      BranchCodeFits(g, result, known + Declares(s.kids[1]), first.b, first.cont, s.kids[2]);
    } else {
      BlockFits(result, first.b);
    }
    BranchFits(g, result, j.b, b.at, s.kids[0], |b.blocks|, no, j.cont);
  }

  lemma {:induction false} FrameFits(result: bool, b: Builder, ps: Params, i: nat)
    requires b.at < |b.blocks|
    ensures var r := SetUpStackFrame(b, ps, i);
            r.at < |r.blocks| && (GraphFits(result, r.blocks) <==> GraphFits(result, b.blocks))
    decreases ps
  {
    hide GraphFits;
    if ps != [] {
      if ps[0].None? {
        FrameFits(result, b, ps[1..], i + 1);
      } else {
        var code := [Alloca(b.reg)] + [Store(Arg(i), Slot(b.reg))];
        OpenFits(result, code);
        EmitFits(result, b.(reg := b.reg + 1), code);
        FrameFits(result, AddParam(b, ps[0].value, i), ps[1..], i + 1);
      }
    }
  }

  lemma FinishFits(result: bool, r: Builder, end: Option<nat>)
    requires r.at < |r.blocks|
    ensures GraphFits(result, Finish(r, end)) <==> GraphFits(result, r.blocks) && (end.Some? ==> !result)
  {
    EmitFits(result, r, [RetVoid]);
    assert [RetVoid][0] == RetVoid;
  }

  /** All returns of a generated function fit its declaration exactly when its
      return statements do and a function with a result always returns. */
  lemma FunctionFitsIff(g: Globals, result: bool, ps: Params, body: Tree)
    requires ClosedFunction(g, ps, body)
    ensures GraphFits(result, GenFunction(g, ps, body)) <==>
            StmtFits(result, body) && (result ==> Terminates(body))
  {
    var b := SetUpStackFrame(ENTRY, ps, 0);
    var r := GenStmt(g, b, b.at, body);
    BodyRegion(g, ps, body);
    FrameFits(result, ENTRY, ps, 0);
    assert GraphFits(result, ENTRY.blocks);
    StmtRegion(g, ParamNames(ps), b, body);
    StmtCodeFits(g, result, ParamNames(ps), b, body);
    FinishFits(result, r.0, r.1);
  }

  // Meta declarations, which are compiled to functions without a result

  predicate CalculationsFit(t: Tree)
    decreases t, 0
  {
    match t.head
    case MetaCalculation => t.kids != [] ==> StmtFits(false, t.kids[0])
    case MetaIf => |t.kids| >= 2 ==> CalculationsFit(t.kids[1]) && (|t.kids| > 2 ==> CalculationsFit(t.kids[2]))
    case _ => AllCalculationsFit(t.kids)
  }

  predicate AllCalculationsFit(ts: seq<Tree>)
    decreases ts
  {
    ts == [] || (CalculationsFit(ts[0]) && AllCalculationsFit(ts[1..]))
  }

  lemma {:induction false} MetaCodeFits(g: Globals, known: set<Name>, b: Builder, inside: bool, t: Tree)
    requires Ready(b) && ClosedMeta(g, known, inside, t)
    ensures GraphFits(false, GenMeta(g, b, b.at, inside, t).0.blocks) <==>
            GraphFits(false, b.blocks) && CalculationsFit(t)
    decreases t, 2
  {
    hide GraphFits;
    if t.head.MetaContribution? {
      MetasCodeFit(g, known, b, inside, t.kids);
    } else if t.head.MetaIf? {
      MetaIfCodeFits(g, known, b, inside, t);
    } else if t.head.MetaCalculation? {
      CalculationCodeFits(g, known, b, inside, t);
    } else {
      CopyCodeFits(g, known, b, inside, t);
    }
  }

  lemma CalculationCodeFits(g: Globals, known: set<Name>, b: Builder, inside: bool, t: Tree)
    requires Ready(b) && ClosedMeta(g, known, inside, t) && t.head.MetaCalculation?
    ensures GraphFits(false, GenMeta(g, b, b.at, inside, t).0.blocks) <==>
            GraphFits(false, b.blocks) && CalculationsFit(t)
  {
    hide GraphFits, GenStmt, IntroduceCode;
    var s, region := t.kids[0], CreateRegion(b);
    var r := GenStmt(g, region, region.at, s).0;
    RegionCreated(b);
    BlockFits(false, b);
    OpenOrJumpFits([Br(|b.blocks|)], |b.blocks|);
    EmitFits(false, CreateBlock(b), [Br(|b.blocks|)]);
    StmtRegion(g, known, region, s);
    StmtCodeFits(g, false, known, region, s);
    IntroduceIsOpen(Exports(s), r.values, inside);
    OpenFits(false, IntroduceCode(Exports(s), r.values, inside));
    EmitFits(false, r, IntroduceCode(Exports(s), r.values, inside));
  }

  lemma OpenOrJumpFits(code: Code, t: nat)
    requires code == [Br(t)]
    ensures CodeFits(false, code)
  {
  }

  lemma {:induction false} CopyCodeFits(g: Globals, known: set<Name>, b: Builder, inside: bool, t: Tree)
    requires Ready(b) && ClosedMeta(g, known, inside, t) && IsPlain(t.head)
    ensures GraphFits(false, GenMeta(g, b, b.at, inside, t).0.blocks) <==>
            GraphFits(false, b.blocks) && CalculationsFit(t)
    decreases t, 0
  {
    hide GraphFits, GenMeta, GenMetas;
    var start, deeper := MetaStart(b, t.head), Deeper(inside, t.head);
    var r := GenMetas(g, start, start.at, deeper, t.kids).0;
    ClosedPlain(g, known, inside, t);
    GenCopy(g, b, inside, t);
    RegionStarts(b);
    RegionEmits(b, b, [Contribute(t.head)]);
    OpenFits(false, [Contribute(t.head)]);
    EmitFits(false, b, [Contribute(t.head)]);
    MetasCodeFit(g, known, start, deeper, t.kids);
    MetasRegion(g, known, start, deeper, t.kids);
    OpenFits(false, [Reduce]);
    EmitFits(false, r, [Reduce]);
    assert CalculationsFit(t) <==> AllCalculationsFit(t.kids);
  }

  lemma {:induction false} MetasCodeFit(g: Globals, known: set<Name>, b: Builder, inside: bool, ts: seq<Tree>)
    requires Ready(b) && ClosedMetas(g, known, inside, ts)
    ensures GraphFits(false, GenMetas(g, b, b.at, inside, ts).0.blocks) <==>
            GraphFits(false, b.blocks) && AllCalculationsFit(ts)
    decreases ts, 0
  {
    hide GraphFits, GenMeta, ClosedMeta;
    if ts != [] {
      var r := GenMeta(g, b, b.at, inside, ts[0]).0;
      MetaRegion(g, known, b, inside, ts[0]);
      MetaCodeFits(g, known, b, inside, ts[0]);
      MetasCodeFit(g, known + DeclaresMeta(ts[0]), r, inside, ts[1..]);
    }
  }

  lemma {:induction false} MetaBranchCodeFits(g: Globals, known: set<Name>, c: Builder, cont: Option<nat>, inside: bool,
                                              t: Tree)
    requires ClosedMeta(g, known, inside, t)
    ensures var j := AddMetaBranch(g, c, cont, inside, t).b;
            (GraphFits(false, j.blocks) <==> GraphFits(false, c.blocks) && CalculationsFit(t)) &&
            |c.blocks| < |j.blocks|
    decreases t, 3
  {
    hide GraphFits, GenMeta;
    var start := StartBranch(c);
    var r := GenMeta(g, start, |c.blocks|, inside, t);
    BlockFits(false, c);
    MetaRegion(g, known, start, inside, t);
    MetaCodeFits(g, known, start, inside, t);
    JoinFits(false, r.0, r.1, cont);
  }

  lemma {:induction false} MetaIfCodeFits(g: Globals, known: set<Name>, b: Builder, inside: bool, t: Tree)
    requires Ready(b) && ClosedMeta(g, known, inside, t) && t.head.MetaIf?
    ensures GraphFits(false, GenMeta(g, b, b.at, inside, t).0.blocks) <==>
            GraphFits(false, b.blocks) && CalculationsFit(t)
    decreases t, 1
  {
    hide GraphFits, GenMeta;
    var first := AddMetaBranch(g, b, None, inside, t.kids[1]);
    var (j, no) := MetaIfBranches(g, b, inside, t);
    GenMetaIf(g, b, inside, t);
    MetaBranchCodeFits(g, known, b, None, inside, t.kids[1]);
    if |t.kids| > 2 {
      MetaBranchCodeFits(g, known + DeclaresMeta(t.kids[1]), first.b, first.cont, inside, t.kids[2]);
    } else {
      BlockFits(false, first.b);
    }
    BranchFits(g, false, j.b, b.at, t.kids[0], |b.blocks|, no, j.cont);
  }

  /** All returns of a compiled meta declaration fit exactly when no calculation
      returns a value. */
  lemma MetaFunctionFitsIff(g: Globals, ps: Params, contribution: Tree)
    requires ClosedMetaFunction(g, ps, contribution)
    ensures GraphFits(false, GenMetaFunction(g, ps, contribution)) <==> CalculationsFit(contribution)
  {
    hide GraphFits, GenMeta, IntroduceCode;
    var frame, b := SetUpStackFrame(ENTRY, ps, 0), MetaFrame(ps);
    var code := IntroduceCode(ParamNamesInOrder(ps), frame.values, false);
    var r := GenMeta(g, b, b.at, false, contribution);
    EntryFits();
    FrameFits(false, ENTRY, ps, 0);
    IntroduceIsOpen(ParamNamesInOrder(ps), frame.values, false);
    OpenFits(false, code);
    EmitFits(false, frame, code);
    MetaFrameRegion(g, ps);
    MetaRegion(g, ParamNames(ps), b, false, contribution);
    MetaCodeFits(g, ParamNames(ps), b, false, contribution);
    FinishFits(false, r.0, r.1);
  }

  lemma EntryFits()
    ensures GraphFits(false, ENTRY.blocks)
  {
  }
}
