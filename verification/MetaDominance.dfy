/** Whole functions and compiled meta declarations whose references are to names
    that are surely declared have dominance. */
module MetaDominance {
  import opened Wrappers
  import opened Ast
  import opened Machine
  import opened Semantics
  import opened ExprCodegen
  import opened Graph
  import opened Runs
  import opened StmtCodegen
  import opened Simulation
  import opened FunctionCodegen
  import opened MetaCodegen
  import opened Staging
  import opened Instantiation
  import opened WaysThrough
  import opened Dominance

  // The frame

  lemma ParamIsSafe(b: Builder, x: Name, i: nat, there: set<nat>)
    ensures var code := [Alloca(b.reg)] + [Store(Arg(i), Slot(b.reg))];
            CodeSafe(code, there) && Allocs(code) == {b.reg} && Succs(code) == {}
  {
    var alloca, store := [Alloca(b.reg)], [Store(Arg(i), Slot(b.reg))];
    assert alloca[1..] == [] && store[1..] == [] && alloca[..0] == [] && store[..0] == [];
    SafeAppend(alloca, store, there);
    AllocsAppend(alloca, store);
    SuccsAppend(alloca, store);
    assert Allocs(alloca) == {b.reg} && Allocs(store) == {};
    assert CodeSafe(alloca, there) && CodeSafe(store, there + {b.reg});
  }

  lemma {:induction false} FrameCovered(g: Globals, known: set<Name>, b: Builder, ps: Params, i: nat,
                                        entry: seq<set<nat>>)
    requires Ready(b) && Scoped(known, b.values, b.reg) && FreshParams(g, known, ps) && Covers(known, b, entry)
    requires forall k | k in There(b, entry) :: k < b.reg
    ensures var r := SetUpStackFrame(b, ps, i);
            Covers(known + ParamNames(ps), r, entry) && r.at == b.at && forall k | k in There(r, entry) :: k < r.reg
    decreases ps
  {
    hide Certified, CodeSafe, Scoped;
    if ps == [] {
      assert known + ParamNames(ps) == known;
    } else if ps[0].None? {
      FrameCovered(g, known, b, ps[1..], i + 1, entry);
      assert known + ParamNames(ps) == known + ParamNames(ps[1..]);
    } else {
      var x := ps[0].value;
      var code := [Alloca(b.reg)] + [Store(Arg(i), Slot(b.reg))];
      var m := AddParam(b, x, i);
      ParamScopes(known, b, x, i);
      ParamIsSafe(b, x, i, There(b, entry));
      OpenCodeCovers(known, b, entry, code, b.reg + 1, Some(b.at));
      AllocsAppend(b.blocks[b.at], code);
      assert There(m, entry) == There(b, entry) + {b.reg};
      FrameCovered(g, known + {x}, m, ps[1..], i + 1, entry);
      assert known + {x} + ParamNames(ps[1..]) == known + ParamNames(ps);
    }
  }

  lemma EntryCovered(g: Globals, ps: Params)
    requires FreshParams(g, {}, ps)
    ensures var b := SetUpStackFrame(ENTRY, ps, 0);
            Covers(ParamNames(ps), b, [{}]) && b.at == 0 && forall k | k in There(b, [{}]) :: k < b.reg
  {
    assert Certified([[]], [{}]) && There(ENTRY, [{}]) == {};
    FrameCovered(g, {}, ENTRY, ps, 0, [{}]);
    assert {} + ParamNames(ps) == ParamNames(ps);
  }

  lemma FinishCovered(sure: set<Name>, there: set<nat>, entry: seq<set<nat>>, r: Builder, end: Option<nat>,
                      more: seq<set<nat>>)
    requires CoversOn(sure, there, entry, r, end, more) && entry == [{}] && r.blocks != []
    ensures Certifiable(Finish(r, end)) && Dominated(Finish(r, end))
  {
    assert [RetVoid][1..] == [] && [RetVoid][..0] == [];
    if end.Some? {
      CertifiedEmit(r.blocks, more, r.at, [RetVoid]);
    }
    assert Certified(Finish(r, end), more) && more[0] == {};
    CertifiableIsDominated(Finish(r, end));
  }

  /** A closed function that uses no name a branch may have left undeclared has
      dominance. */
  lemma FunctionDominated(g: Globals, ps: Params, body: Tree)
    requires ClosedFunction(g, ps, body) && SureStmt(g, ParamNames(ps), body)
    ensures Dominated(GenFunction(g, ps, body))
  {
    var b := SetUpStackFrame(ENTRY, ps, 0);
    var r := GenStmt(g, b, b.at, body);
    BodyRegion(g, ps, body);
    EntryCovered(g, ps);
    var more := StmtCovered(g, ParamNames(ps), ParamNames(ps), b, body, [{}]);
    FinishCovered(ParamNames(ps) + SurelyLeft(body), There(b, [{}]), [{}], r.0, r.1, more);
  }

  // Meta trees

  lemma {:induction false} IntroduceIsSafe(xs: seq<Name>, values: ValueMap, inside: bool, sure: set<Name>,
                                           there: set<nat>)
    requires Held(sure, values, there) && forall x | x in xs :: x in sure
    ensures var code := IntroduceCode(xs, values, inside);
            CodeSafe(code, there) && Allocs(code) == {} && Succs(code) == {}
    decreases xs
  {
    var code := IntroduceCode(xs, values, inside);
    IntroduceIsOpen(xs, values, inside);
    OpenHasNoSuccs(code);
    if xs != [] {
      var rest := IntroduceCode(xs[1..], values, inside);
      var first := Introduce(xs[0], LocalValue(values, xs[0]), inside);
      assert code[0] == first && code[1..] == rest;
      assert xs[0] in xs;
      IntroduceIsSafe(xs[1..], values, inside, sure, there);
      assert there + AllocOf(first) == there;
    }
  }

  lemma RegionCovered(sure: set<Name>, b: Builder, entry: seq<set<nat>>)
    requires Ready(b) && Covers(sure, b, entry)
    ensures var r := CreateRegion(b);
            var more := entry + [There(b, entry)];
            Covers(sure, r, more) && There(r, more) == There(b, entry)
  {
    var there, jump := There(b, entry), [Br(|b.blocks|)];
    var more := entry + [there];
    CertifiedBlock(b.blocks, entry, there);
    assert jump[1..] == [] && jump[..0] == [];
    assert Succs(jump) == {|b.blocks|};
    assert CodeSafe(jump, there);
    CertifiedEmit(b.blocks + [[]], more, b.at, jump);
    var r := CreateRegion(b);
    assert r.blocks[r.at] == [] && There(r, more) == there + {};
  }

  lemma {:induction false} MetaCovered(g: Globals, known: set<Name>, sure: set<Name>, b: Builder, inside: bool, t: Tree,
                                       entry: seq<set<nat>>)
    returns (more: seq<set<nat>>)
    requires Ready(b) && ClosedMeta(g, known, inside, t) && Scoped(known, b.values, b.reg)
    requires sure <= known && KeepsToBranches(g, sure, t) && Covers(sure, b, entry)
    ensures var r := GenMeta(g, b, b.at, inside, t);
            CoversOn(sure + SurelyDeclares(t), There(b, entry), entry, r.0, r.1, more)
    decreases t, 2
  {
    if t.head.MetaContribution? {
      more := MetasCovered(g, known, sure, b, inside, t.kids, entry);
    } else if t.head.MetaIf? {
      more := MetaIfCovered(g, known, sure, b, inside, t, entry);
      assert sure + SurelyDeclares(t) == sure;
    } else if t.head.MetaCalculation? {
      more := CalculationCovered(g, known, sure, b, inside, t, entry);
    } else {
      more := CopyCovered(g, known, sure, b, inside, t, entry);
    }
  }

  lemma CalculationCovered(g: Globals, known: set<Name>, sure: set<Name>, b: Builder, inside: bool, t: Tree,
                           entry: seq<set<nat>>)
    returns (more: seq<set<nat>>)
    requires Ready(b) && ClosedMeta(g, known, inside, t) && Scoped(known, b.values, b.reg) && t.head.MetaCalculation?
    requires sure <= known && KeepsToBranches(g, sure, t) && Covers(sure, b, entry)
    ensures var r := GenMeta(g, b, b.at, inside, t);
            CoversOn(sure + SurelyDeclares(t), There(b, entry), entry, r.0, r.1, more)
  {
    hide Certified, CodeSafe, Scoped, GenStmt, IntroduceCode, ClosedStmt, SureStmt;
    var s, region := t.kids[0], CreateRegion(b);
    var r := GenStmt(g, region, region.at, s);
    RegionCreated(b);
    RegionCovered(sure, b, entry);
    StmtRegion(g, known, region, s);
    more := StmtCovered(g, known, sure, region, s, entry + [There(b, entry)]);
    SureIsDeclared(s);
    ExportsAreDeclared(s);
    var left, there := sure + SurelyLeft(s), There(r.0, more);
    var code := IntroduceCode(Exports(s), r.0.values, inside);
    IntroduceIsSafe(Exports(s), r.0.values, inside, left, there);
    OpenCodeCovers(left, r.0, more, code, r.0.reg, r.1);
    AllocsAppend(r.0.blocks[r.0.at], code);
    EmitSameReg(r.0, code);
  }

  lemma EmitSameReg(b: Builder, code: Code)
    ensures Emit(b.(reg := b.reg), code) == Emit(b, code)
  {
    assert b.(reg := b.reg) == b;
  }

  lemma {:induction false} CopyCovered(g: Globals, known: set<Name>, sure: set<Name>, b: Builder, inside: bool, t: Tree,
                                       entry: seq<set<nat>>)
    returns (more: seq<set<nat>>)
    requires Ready(b) && ClosedMeta(g, known, inside, t) && Scoped(known, b.values, b.reg) && IsPlain(t.head)
    requires sure <= known && KeepsToBranches(g, sure, t) && Covers(sure, b, entry)
    ensures var r := GenMeta(g, b, b.at, inside, t);
            CoversOn(sure + SurelyDeclares(t), There(b, entry), entry, r.0, r.1, more)
    decreases t, 0
  {
    hide Certified, CodeSafe, Scoped, GenMeta, GenMetas, ClosedMeta;
    var start, deeper := MetaStart(b, t.head), Deeper(inside, t.head);
    var r := GenMetas(g, start, start.at, deeper, t.kids);
    ClosedPlain(g, known, inside, t);
    GenCopy(g, b, inside, t);
    RegionStarts(b);
    RegionEmits(b, b, [Contribute(t.head)]);
    CallbackCovers(sure, b, entry, Contribute(t.head));
    more := MetasCovered(g, known, sure, start, deeper, t.kids, entry);
    MetasRegion(g, known, start, deeper, t.kids);
    CallbackCovers(sure + SurelyDeclaresAll(t.kids), r.0, more, Reduce);
    assert Opens(t.head) ==> sure + SurelyDeclares(t) == sure;
  }

  /** A callback changes nothing of what is there. */
  lemma CallbackCovers(sure: set<Name>, b: Builder, entry: seq<set<nat>>, i: Instr)
    requires Covers(sure, b, entry) && (i.Contribute? || i.Reduce?)
    ensures Covers(sure, Emit(b, [i]), entry) && There(Emit(b, [i]), entry) == There(b, entry)
  {
    assert [i][1..] == [] && [i][..0] == [];
    OpenCodeCovers(sure, b, entry, [i], b.reg, Some(b.at));
    AllocsAppend(b.blocks[b.at], [i]);
    EmitSameReg(b, [i]);
  }

  lemma {:induction false} MetasCovered(g: Globals, known: set<Name>, sure: set<Name>, b: Builder, inside: bool,
                                        ts: seq<Tree>, entry: seq<set<nat>>)
    returns (more: seq<set<nat>>)
    requires Ready(b) && ClosedMetas(g, known, inside, ts) && Scoped(known, b.values, b.reg)
    requires sure <= known && AllKeepToBranches(g, sure, ts) && Covers(sure, b, entry)
    ensures var r := GenMetas(g, b, b.at, inside, ts);
            CoversOn(sure + SurelyDeclaresAll(ts), There(b, entry), entry, r.0, r.1, more)
    decreases ts
  {
    hide GenMeta, Certified, Scoped, Grows, ClosedMeta;
    if ts == [] {
      more := entry;
      assert sure + SurelyDeclaresAll(ts) == sure;
    } else {
      var r := GenMeta(g, b, b.at, inside, ts[0]).0;
      var left := sure + SurelyDeclares(ts[0]);
      MetaRegion(g, known, b, inside, ts[0]);
      FirstMeta(g, known, b, inside, ts);
      more := MetaCovered(g, known, sure, b, inside, ts[0], entry);
      MetaDeclaresFresh(g, known, inside, ts[0]);
      more := MetasCovered(g, known + DeclaresMeta(ts[0]), left, r, inside, ts[1..], more);
      assert left + SurelyDeclaresAll(ts[1..]) == sure + SurelyDeclaresAll(ts);
    }
  }

  lemma {:induction false} MetaIfCovered(g: Globals, known: set<Name>, sure: set<Name>, b: Builder, inside: bool,
                                         t: Tree, entry: seq<set<nat>>)
    returns (more: seq<set<nat>>)
    requires Ready(b) && ClosedMeta(g, known, inside, t) && Scoped(known, b.values, b.reg) && t.head.MetaIf?
    requires sure <= known && KeepsToBranches(g, sure, t) && Covers(sure, b, entry)
    ensures var r := GenMeta(g, b, b.at, inside, t); CoversOn(sure, There(b, entry), entry, r.0, r.1, more)
    decreases t, 1
  {
    hide GenMeta, Certified, Region, Pending, Scoped, KeepsScope;
    var there := There(b, entry);
    var first := AddMetaBranch(g, b, None, inside, t.kids[1]);
    var (j, no) := MetaIfBranches(g, b, inside, t);
    var inner := known + DeclaresMeta(t.kids[1]);
    MetaIfBuilt(g, known, b, inside, t);
    HalfStarts(b, entry);
    more := NextMetaCovered(g, known, sure, b, entry, b, None, entry, inside, t.kids[1]);
    assert more[|b.blocks|] == there;
    KeepsScoped(known, inner, b, first.b);
    HeldAlike(known, sure, b.values, first.b.values, there);
    if |t.kids| > 2 {
      more := NextMetaCovered(g, inner, sure, b, entry, first.b, first.cont, more, inside, t.kids[2]);
    } else {
      more := LazyCovered(b, entry, first.b, first.cont, more);
    }
    KeepsScoped(known, known + DeclaresMeta(t), b, j.b);
    HeldAlike(known, sure, b.values, j.b.values, there);
    SeparateFewer(known, known + DeclaresMeta(t), j.b.values, j.b.reg);
    ConditionCovered(g, known, sure, b, entry, j.b, t.kids[0], |b.blocks|, no, j.cont, more);
  }

  lemma {:induction false} NextMetaCovered(g: Globals, known: set<Name>, sure: set<Name>, b: Builder,
                                           entry: seq<set<nat>>, c: Builder, cont: Option<nat>, more: seq<set<nat>>,
                                           inside: bool, t: Tree)
    returns (wider: seq<set<nat>>)
    requires HalfCovered(b, entry, c, cont, more) && Held(sure, c.values, There(b, entry))
    requires ClosedMeta(g, known, inside, t) && Scoped(known, c.values, c.reg)
    requires sure <= known && KeepsToBranches(g, sure, t)
    ensures var j := AddMetaBranch(g, c, cont, inside, t);
            HalfCovered(b, entry, j.b, j.cont, wider) && more + [There(b, entry)] <= wider
    decreases t, 3
  {
    hide GenMeta, Certified, Pending, Scoped;
    var start, there := StartBranch(c), There(b, entry);
    var r := GenMeta(g, start, |c.blocks|, inside, t);
    BranchCovered(b, entry, c, cont, more, sure);
    MetaRegion(g, known, start, inside, t);
    var grown := MetaCovered(g, known, sure, start, inside, t, more + [there]);
    wider := JoinCovered(b, entry, c, cont, more, r.0, r.1, grown);
  }

  /** A closed meta declaration that keeps to the branches of its meta-ifs has
      dominance. */
  lemma MetaFunctionDominated(g: Globals, ps: Params, contribution: Tree)
    requires ClosedMetaFunction(g, ps, contribution) && KeepsToBranches(g, ParamNames(ps), contribution)
    ensures Dominated(GenMetaFunction(g, ps, contribution))
  {
    hide Certified, CodeSafe, GenMeta, IntroduceCode, KeepsToBranches, ClosedMeta, FreshParams;
    var b := MetaFrame(ps);
    var r := GenMeta(g, b, b.at, false, contribution);
    MetaFrameRegion(g, ps);
    MetaFrameCovered(g, ps);
    MetaRegion(g, ParamNames(ps), b, false, contribution);
    var more := MetaCovered(g, ParamNames(ps), ParamNames(ps), b, false, contribution, [{}]);
    FinishCovered(ParamNames(ps) + SurelyDeclares(contribution), There(b, [{}]), [{}], r.0, r.1, more);
  }

  lemma MetaFrameCovered(g: Globals, ps: Params)
    requires FreshParams(g, {}, ps)
    ensures var b := MetaFrame(ps);
            Covers(ParamNames(ps), b, [{}]) && b.at == 0 && forall k | k in There(b, [{}]) :: k < b.reg
  {
    hide Certified, CodeSafe, IntroduceCode;
    var frame := SetUpStackFrame(ENTRY, ps, 0);
    var code := IntroduceCode(ParamNamesInOrder(ps), frame.values, false);
    EntryCovered(g, ps);
    IntroduceIsSafe(ParamNamesInOrder(ps), frame.values, false, ParamNames(ps), There(frame, [{}]));
    OpenCodeCovers(ParamNames(ps), frame, [{}], code, frame.reg, Some(0));
    AllocsAppend(frame.blocks[frame.at], code);
    EmitSameReg(frame, code);
  }

  /** No run of what is generated for such a declaration ever uses a slot that
      was not allocated. */
  lemma NeverMeetsUnallocated(g: Globals, call: Oracle, ps: Params, contribution: Tree, args: seq<int>, n: nat)
    requires ClosedMetaFunction(g, ps, contribution) && KeepsToBranches(g, ParamNames(ps), contribution)
    ensures var f := GenMetaFunction(g, ps, contribution); FindsSlots(f, StepN(f, call, Start(args), n))
  {
    hide Dominated, WellFormed, KeepsToBranches, ClosedMetaFunction, GenMetaFunction, FindsSlots;
    MetaFunctionDominated(g, ps, contribution);
    MetaFunctionWellFormed(g, ps, contribution);
    DominatedRuns(GenMetaFunction(g, ps, contribution), call, args, n);
  }
}
