/** The staging compiler as the original runs it: it drives a function
    generator and a cursor that knows whether contributed nodes stand inside a
    function (src/Codegen/MetaCodegen.cpp, src/AST/ASTCursor.cpp). */
module MetaGeneration {
  import opened Wrappers
  import opened Ast
  import opened Machine
  import opened Semantics
  import opened Sequences
  import opened ExprCodegen
  import opened Graph
  import opened StmtCodegen
  import opened Simulation
  import opened FunctionCodegen
  import opened MetaCodegen
  import opened Staging
  import opened Instantiation
  import opened FunctionGeneration

  /** How deep contributed nodes stand; descending and ascending insist on
      balanced transitions. */
  class Cursor {
    var insideFunction: bool
    var metaDepth: Mode

    constructor (metaDepth: Mode)
      ensures !insideFunction && this.metaDepth == metaDepth
    {
      insideFunction, this.metaDepth := false, metaDepth;
    }

    method Descend(h: Head)
      requires MayDescend(h, insideFunction, metaDepth)
      modifies this
      ensures insideFunction == (old(insideFunction) || h.FunctionDecl?)
      ensures metaDepth == if h.MetaDecl? then InsideMetaDecl
                           else if h.MetaCalculation? then InsideComputation else old(metaDepth)
    {
      insideFunction := insideFunction || h.FunctionDecl?;
      metaDepth := if h.MetaDecl? then InsideMetaDecl else if h.MetaCalculation? then InsideComputation else metaDepth;
    }

    method Ascend(h: Head)
      requires h.FunctionDecl? ==> insideFunction
      requires h.MetaDecl? ==> metaDepth.InsideMetaDecl?
      requires h.MetaCalculation? ==> metaDepth.InsideComputation?
      modifies this
      ensures insideFunction == (old(insideFunction) && !h.FunctionDecl?)
      ensures metaDepth == if h.MetaDecl? then Outside
                           else if h.MetaCalculation? then InsideMetaDecl else old(metaDepth)
    {
      insideFunction := insideFunction && !h.FunctionDecl?;
      metaDepth := if h.MetaDecl? then Outside else if h.MetaCalculation? then InsideMetaDecl else metaDepth;
    }
  }

  class MetaGenerator {
    const generator: FunctionGenerator
    const cursor: Cursor

    constructor (g: Globals)
      ensures fresh(generator) && fresh(cursor) && generator.g == g
      ensures generator.Now() == Builder([], 0, 0, map[]) && !cursor.insideFunction
    {
      generator := new FunctionGenerator(g);
      cursor := new Cursor(InsideMetaDecl);
    }

    ghost function Now(): Builder
      reads generator
    {
      generator.Now()
    }

    /** The generator may be driven on: it stands in an open block, the names in
        scope have slots, and the code ahead is closed at this depth. */
    ghost predicate At(known: set<Name>, block: nat)
      reads generator
    {
      block == generator.at && Ready(Now()) && Scoped(known, generator.values, generator.reg)
    }

    method CodegenMeta(ghost known: set<Name>, block: nat, t: Tree) returns (end: Option<nat>)
      requires At(known, block) && ClosedMeta(generator.g, known, cursor.insideFunction, t)
      modifies generator, cursor
      ensures (Now(), end) == GenMeta(generator.g, old(Now()), block, old(cursor.insideFunction), t)
      ensures cursor.insideFunction == old(cursor.insideFunction) && cursor.metaDepth == old(cursor.metaDepth)
      decreases t, 1
    {
      if t.head.MetaContribution? {
        end := CodegenChildrenContribution(known, block, t.kids);
      } else if t.head.MetaIf? {
        end := CodegenMetaIf(known, block, t);
      } else if t.head.MetaCalculation? {
        end := CodegenMetaCalculation(known, block, t);
      } else {
        end := CodegenNode(known, block, t);
      }
    }

    /** Contributes a node: the node, its children, and its marker. */
    method CodegenNode(ghost known: set<Name>, block: nat, t: Tree) returns (end: Option<nat>)
      requires At(known, block) && ClosedMeta(generator.g, known, cursor.insideFunction, t) && IsPlain(t.head)
      modifies generator, cursor
      ensures (Now(), end) == GenMeta(generator.g, old(Now()), block, old(cursor.insideFunction), t)
      ensures cursor.insideFunction == old(cursor.insideFunction) && cursor.metaDepth == old(cursor.metaDepth)
      decreases t, 0
    {
      ghost var start := Now();
      ClosedPlain(generator.g, known, cursor.insideFunction, t);
      GenCopy(generator.g, start, cursor.insideFunction, t);
      RegionStarts(start);
      RegionEmits(start, start, [Contribute(t.head)]);
      MetasRegion(generator.g, known, MetaStart(start, t.head), Deeper(cursor.insideFunction, t.head), t.kids);
      cursor.Descend(t.head);
      generator.Create(Contribute(t.head));
      end := CodegenChildrenContribution(known, block, t.kids);
      if NeedsMarker(t.head) {
        generator.Create(Reduce);
      }
      cursor.Ascend(t.head);
    }

    method CodegenChildrenContribution(ghost known: set<Name>, block: nat, ts: seq<Tree>) returns (current: Option<nat>)
      requires At(known, block) && ClosedMetas(generator.g, known, cursor.insideFunction, ts)
      modifies generator, cursor
      ensures (Now(), current) == GenMetas(generator.g, old(Now()), block, old(cursor.insideFunction), ts)
      ensures cursor.insideFunction == old(cursor.insideFunction) && cursor.metaDepth == old(cursor.metaDepth)
      decreases ts
    {
      current := Some(block);
      ghost var declared := known;
      ghost var g, inside := generator.g, cursor.insideFunction;
      assert ts[0..] == ts;
      for i := 0 to |ts|
        invariant cursor.insideFunction == inside && cursor.metaDepth == old(cursor.metaDepth)
        invariant current.Some? && At(declared, current.value) && ClosedMetas(g, declared, inside, ts[i..])
        invariant GenMetas(g, old(Now()), block, inside, ts) == GenMetas(g, Now(), current.value, inside, ts[i..])
      {
        ghost var before := Now();
        assert ts[i..][1..] == ts[i + 1..];
        MetaRegion(g, declared, before, inside, ts[i]);
        MetaScopes(g, declared, before, inside, ts[i]);
        current := CodegenMeta(declared, current.value, ts[i]);
        declared := declared + DeclaresMeta(ts[i]);
      }
      assert ts[|ts|..] == [];
    }

    method CodegenMetaIf(ghost known: set<Name>, block: nat, t: Tree) returns (end: Option<nat>)
      requires At(known, block) && ClosedMeta(generator.g, known, cursor.insideFunction, t) && t.head.MetaIf?
      modifies generator, cursor
      ensures (Now(), end) == GenMeta(generator.g, old(Now()), block, old(cursor.insideFunction), t)
      ensures cursor.insideFunction == old(cursor.insideFunction) && cursor.metaDepth == old(cursor.metaDepth)
      decreases t, 0
    {
      hide GenMeta, Branch, Scoped, Grows, Pending, GenExpr, Appended;
      ghost var start := Now();
      ghost var g, inside := generator.g, cursor.insideFunction;
      MetaIfBuilt(g, known, start, inside, t);
      var yes := generator.OpenBranch();
      MetaBranchEnds(g, known, start, None, inside, t.kids[1]);
      end := CodegenMeta(known, yes, t.kids[1]);
      var cont := generator.CloseBranch(end, None);
      ghost var mid := Now();
      ghost var more := known + DeclaresMeta(t.kids[1]);
      KeepsScoped(known, more, start, mid);
      var no;
      if |t.kids| > 2 {
        no := generator.OpenBranch();
        MetaBranchEnds(g, more, mid, cont, inside, t.kids[2]);
        end := CodegenMeta(more, no, t.kids[2]);
        cont := generator.CloseBranch(end, cont);
      } else {
        no := generator.LazyGetContinueBlock(cont);
        cont := Some(no);
      }
      end := generator.CodegenBranch(known, block, t.kids[0], yes, no, cont);
    }

    /** Runs a calculation in a region of its own and exports what it declares;
        every exported declaration still has its value. */
    method CodegenMetaCalculation(ghost known: set<Name>, block: nat, t: Tree) returns (end: Option<nat>)
      requires At(known, block) && ClosedMeta(generator.g, known, cursor.insideFunction, t) && t.head.MetaCalculation?
      modifies generator
      ensures (Now(), end) == GenMeta(generator.g, old(Now()), block, old(cursor.insideFunction), t)
    {
      ghost var start := Now();
      var s := t.kids[0];
      RegionCreated(start);
      StmtRegion(generator.g, known, CreateRegion(start), s);
      StmtScopes(generator.g, known, CreateRegion(start), s);
      ExportsAreDeclared(s);
      var region := CreateRegionAfter();
      end := generator.CodegenStmt(known, region, s);
      Introduce(Exports(s));
    }

    method CreateRegionAfter() returns (block: nat)
      requires generator.at < |generator.blocks|
      modifies generator
      ensures Now() == CreateRegion(old(Now())) && block == generator.at
    {
      block := generator.NewBlock();
      generator.Create(Br(block));
      generator.SetInsertPoint(block);
    }

    /** Calls back with a pointer to every exported value. */
    method Introduce(xs: seq<Name>)
      requires generator.at < |generator.blocks| && forall x | x in xs :: x in generator.values
      modifies generator
      ensures Now() == Emit(old(Now()), IntroduceCode(xs, old(generator.values), cursor.insideFunction))
    {
      ghost var start := Now();
      ghost var code: Code := [];
      EmitNone(start);
      assert xs[0..] == xs;
      EmptyLeft(IntroduceCode(xs, generator.values, cursor.insideFunction));
      for i := 0 to |xs|
        invariant generator.at < |generator.blocks| && generator.values == start.values
        invariant Now() == Emit(start, code)
        invariant IntroduceCode(xs, start.values, cursor.insideFunction) ==
                  code + IntroduceCode(xs[i..], start.values, cursor.insideFunction)
      {
        assert xs[i..][1..] == xs[i + 1..];
        var value := generator.LookupLocal(xs[i]);
        var next := Instr.Introduce(xs[i], value, cursor.insideFunction);
        generator.Create(next);
        EmitTwice(start, code, [next]);
        Assoc(code, [next], IntroduceCode(xs[i + 1..], start.values, cursor.insideFunction));
        code := code + [next];
      }
      assert xs[|xs|..] == [];
      EmptyRight(code);
    }

    /** Compiles a meta declaration into an empty function. */
    method Codegen(ps: Params, contribution: Tree)
      requires Now() == Builder([], 0, 0, map[]) && !cursor.insideFunction
      requires ClosedMetaFunction(generator.g, ps, contribution)
      modifies generator, cursor
      ensures generator.blocks == GenMetaFunction(generator.g, ps, contribution)
      ensures WellFormed(generator.blocks) && Acyclic(generator.blocks)
      ensures cursor.insideFunction == old(cursor.insideFunction) && cursor.metaDepth == old(cursor.metaDepth)
    {
      ghost var g := generator.g;
      MetaFrameRegion(g, ps);
      FrameScopes(g, {}, ENTRY, ps, 0);
      assert {} + ParamNames(ps) == ParamNames(ps);
      MetaFunctionWellFormed(g, ps, contribution);
      MetaRegion(g, ParamNames(ps), MetaFrame(ps), false, contribution);
      generator.CodegenStackFrame(ps);
      Introduce(ParamNamesInOrder(ps));
      var end := CodegenMeta(ParamNames(ps), generator.at, contribution);
      generator.Create(RetVoid);
    }
  }
}
