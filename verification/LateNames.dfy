/** A name calculated in a branch of a meta-if and used after it: the grammar
    derives it and the reader binds it, because the branch opens no scope
    (consumeMetaContribution in src/Parse/ASTLayout.cpp), but it is declared
    only when the branch is taken. */
module LateNames {
  import opened Wrappers
  import opened Ast
  import opened Machine
  import opened Semantics
  import opened Runs
  import opened DependencyAnalysis
  import opened Binding
  import opened FunctionCodegen
  import opened MetaCodegen
  import opened Staging
  import opened Instantiation
  import opened SpecialisedUnits
  import opened Grammar
  import opened ReadIsClosed
  import opened WaysThrough
  import opened Dominance
  import opened NeedsDominance
  import opened DerivedDominance

  function Ref(x: Name): Tree {
    Tree(DeclRef(x), [])
  }

  function Lit(n: int): Tree {
    Tree(IntegerLiteral(n), [])
  }

  function Calculate(x: Name, e: Tree): Tree {
    Tree(MetaCalculation, [Tree(UnscopedCompound, [Tree(DeclStmt(x), [e])])])
  }

  function IsOne(): Tree {
    Tree(Binary(Equal), [Ref("n"), Lit(1)])
  }

  function Taken(): Tree {
    Tree(MetaContribution, [Calculate("x", Lit(1))])
  }

  function Test(): Tree {
    Tree(MetaIf, [IsOne(), Taken()])
  }

  /** `{ meta if n == 1 { meta { x = 1; } } meta { y = x; } }` */
  function LateUse(): Tree {
    Tree(MetaContribution, [Test(), Calculate("y", Ref("x"))])
  }

  function LateDecl(): Tree {
    Tree(MetaDecl("m"), [Tree(ArgumentDeclList, [Tree(NamedArgument("n"), [])]), LateUse()])
  }

  const NOTHING := Globals(map[], map[], map[])

  lemma TestIsDerived(stack: DepthStack)
    requires stack == [GlobalScope]
    ensures DerivesScopeNode(Test(), stack)
  {
    hide Calculate;
    var first := Calculate("x", Lit(1));
    CalculateIsDerived("x", Lit(1), stack);
    assert [first][1..] == [] && DerivesScopeNodes([], stack);
    assert DerivesScopeNodes([first], stack);
    assert DerivesContribution(Taken(), stack);
    assert DerivesExpr(IsOne()) by {
      assert [Ref("n"), Lit(1)][1..] == [Lit(1)] && [Lit(1)][1..] == [];
      assert DerivesExprs([Lit(1)]);
    }
    assert DerivesMetaStmt(Test(), stack);
    assert DerivesRuntimeNode(Test(), stack);
  }

  lemma LateUseIsDerived()
    ensures DerivesMetaDecl(LateDecl(), [])
  {
    hide Calculate, Test;
    var stack := [] + [GlobalScope];
    var second := Calculate("y", Ref("x"));
    TestIsDerived(stack);
    CalculateIsDerived("y", Ref("x"), stack);
    assert [second][1..] == [] && [Test(), second][1..] == [second];
    assert DerivesScopeNodes([], stack);
    assert DerivesScopeNodes([second], stack);
    assert DerivesScopeNodes([Test(), second], stack);
  }

  lemma CalculateIsDerived(x: Name, e: Tree, stack: DepthStack)
    requires DerivesExpr(e) && stack == [GlobalScope]
    ensures DerivesMetaStmt(Calculate(x, e), stack) && DerivesScopeNode(Calculate(x, e), stack)
  {
    var decl := Tree(DeclStmt(x), [e]);
    var inner := stack + [NoScope];
    assert [decl][1..] == [];
    assert DerivesStatement(decl, inner) && DerivesStatements([], inner);
    assert DerivesStatements([decl], inner);
    assert DerivesMetaStmt(Calculate(x, e), stack);
    assert DerivesRuntimeNode(Calculate(x, e), stack);
  }

  lemma OneKid(w: Where, h: Head, t: Tree, at: Path, i: nat, chain: Chain, mode: Mode)
    ensures var first := Read(w, t, at + [i], chain, KidMode(h, i, mode));
            var r := ReadKids(w, h, [t], at, i, chain, mode);
            r.ok == first.ok && r.chain == first.chain
  {
    assert [t][1..] == [];
    ReadFirstKid(w, h, [t], at, i, chain, mode);
  }

  lemma TwoKids(w: Where, h: Head, a: Tree, b: Tree, at: Path, chain: Chain, mode: Mode)
    ensures var first := Read(w, a, at + [0], chain, KidMode(h, 0, mode));
            var second := Read(w, b, at + [1], first.chain, KidMode(h, 1, mode));
            var r := ReadKids(w, h, [a, b], at, 0, chain, mode);
            r.ok == (first.ok && second.ok) && r.chain == second.chain
  {
    assert [a, b][1..] == [b];
    ReadFirstKid(w, h, [a, b], at, 0, chain, mode);
    OneKid(w, h, b, at, 1, Read(w, a, at + [0], chain, KidMode(h, 0, mode)).chain, mode);
  }

  ghost predicate IsLiteralOrSeen(e: Tree, chain: Chain) {
    e.kids == [] && (e.head.IntegerLiteral? || (e.head.DeclRef? && Lookup(chain, e.head.name).Some?))
  }

  lemma LeafIsRead(w: Where, e: Tree, at: Path, chain: Chain)
    requires IsLiteralOrSeen(e, chain)
    ensures var r := Read(w, e, at, chain, InsideComputation); r.ok && r.chain == chain
  {
  }

  /** Reading a calculation declares its name. */
  lemma CalculateIsRead(w: Where, x: Name, e: Tree, at: Path, chain: Chain)
    requires chain != [] && Lookup(chain, x).None? && IsLiteralOrSeen(e, chain)
    ensures var r := Read(w, Calculate(x, e), at, chain, InsideMetaDecl);
            r.ok && r.chain != [] && forall y :: Lookup(r.chain, y).Some? <==> Lookup(chain, y).Some? || y == x
  {
    var decl := Tree(DeclStmt(x), [e]);
    var block := Tree(UnscopedCompound, [decl]);
    var place := at + [0] + [0];
    LeafIsRead(w, e, place + [0], chain);
    OneKid(w, decl.head, e, place, 0, chain, InsideComputation);
    OneKid(w, block.head, decl, at + [0], 0, chain, InsideComputation);
    OneKid(w, MetaCalculation, block, at, 0, chain, InsideMetaDecl);
    var below := ReadKids(w, decl.head, [e], place, 0, chain, InsideComputation);
    var d := DeclAt(w, place, decl.head);
    forall y
      ensures Lookup(IntroduceDecl(below, x, d).chain, y).Some? <==> Lookup(chain, y).Some? || y == x
    {
      IntroduceLookup(below, x, d, y);
    }
  }

  lemma IsOneIsRead(w: Where, at: Path, chain: Chain)
    requires Lookup(chain, "n").Some?
    ensures var r := Read(w, IsOne(), at, chain, InsideComputation); r.ok && r.chain == chain
  {
    LeafIsRead(w, Ref("n"), at + [0], chain);
    LeafIsRead(w, Lit(1), at + [1], chain);
    TwoKids(w, Binary(Equal), Ref("n"), Lit(1), at, chain, InsideComputation);
  }

  /** After the meta-if its calculated name is in scope, whichever way it went. */
  lemma TestIsRead(w: Where, at: Path, chain: Chain)
    requires chain != [] && Lookup(chain, "n").Some? && Lookup(chain, "x").None?
    ensures var r := Read(w, Test(), at, chain, InsideMetaDecl);
            r.ok && r.chain != [] && forall y :: Lookup(r.chain, y).Some? <==> Lookup(chain, y).Some? || y == "x"
  {
    hide ReadKids, Calculate, IsOne;
    IsOneIsRead(w, at + [0], chain);
    CalculateIsRead(w, "x", Lit(1), at + [1] + [0], chain);
    OneKid(w, MetaContribution, Calculate("x", Lit(1)), at + [1], 0, chain, InsideMetaDecl);
    TwoKids(w, MetaIf, IsOne(), Taken(), at, chain, InsideMetaDecl);
  }

  lemma LateUseIsRead(w: Where)
    ensures Read(w, LateDecl(), [], [map[]], Outside).ok
  {
    hide ReadKids, Calculate, Test;
    var arg := Tree(NamedArgument("n"), []);
    var args := Tree(ArgumentDeclList, [arg]);
    var place := [] + [1];
    var inner: Chain := [map[]] + [map[]];
    ArgumentIsRead(w, [] + [0], inner);
    var known := Read(w, args, [] + [0], inner, Outside).chain;
    TestIsRead(w, place + [0], known);
    var later := Read(w, Test(), place + [0], known, InsideMetaDecl).chain;
    CalculateIsRead(w, "y", Ref("x"), place + [1], later);
    TwoKids(w, MetaContribution, Test(), Calculate("y", Ref("x")), place, known, InsideMetaDecl);
    TwoKids(w, MetaDecl("m"), args, LateUse(), [], inner, Outside);
  }

  lemma ArgumentIsRead(w: Where, at: Path, chain: Chain)
    requires chain == [map[], map[]]
    ensures var r := Read(w, Tree(ArgumentDeclList, [Tree(NamedArgument("n"), [])]), at, chain, Outside);
            r.ok && r.chain != [] && forall y :: Lookup(r.chain, y).Some? <==> y == "n"
  {
    var arg := Tree(NamedArgument("n"), []);
    var below, d := Reading(chain, map[], true), DeclAt(w, at + [0], arg.head);
    assert chain[1..] == [map[]] && chain[1..][1..] == [];
    OneKid(w, ArgumentDeclList, arg, at, 0, chain, Outside);
    forall y
      ensures Lookup(chain, y).None?
    {
      assert Lookup([], y).None? && Lookup([map[]], y).None?;
    }
    forall y
      ensures Lookup(IntroduceDecl(below, "n", d).chain, y).Some? <==> y == "n"
    {
      IntroduceLookup(below, "n", d, y);
    }
  }

  // What its instantiations come to

  lemma LateUseIsClosed()
    ensures ClosedMetaFunction(NOTHING, [Some("n")], LateUse())
  {
    hide Read, DerivesMetaDecl, Usable, UsableMeta, FlowsOn, ClosedMetaFunction, LateUse, Lookup;
    var w := Where(0, MetaDecl("m"));
    var arg := Tree(NamedArgument("n"), []);
    LateUseIsDerived();
    LateUseIsRead(w);
    NothingResolves();
    LateUseIsUsable();
    assert [arg][1..] == [] && ParamsOf([]) == [];
    assert ParamsOf([arg]) == [Some("n")];
    MetaDeclIsClosed(NOTHING, w, LateDecl(), [map[]]);
  }

  lemma NothingResolves()
    ensures Resolves(NOTHING, [map[]]) && forall y :: Lookup([map[]], y).None?
  {
    forall y
      ensures Lookup([map[]], y).None?
    {
      assert Lookup([], y).None?;
    }
  }

  lemma IsOneIsUsable(outer: Chain)
    requires outer == [map[]]
    ensures Usable(NOTHING, outer, IsOne())
  {
    NothingResolves();
    assert [Ref("n"), Lit(1)][1..] == [Lit(1)] && [Lit(1)][1..] == [];
    assert Usable(NOTHING, outer, Ref("n")) && Usable(NOTHING, outer, Lit(1));
    assert AllUsable(NOTHING, outer, [Lit(1)]);
  }

  lemma TestIsUsable(outer: Chain)
    requires outer == [map[]]
    ensures UsableMeta(NOTHING, outer, Test()) && FlowsOn(Test())
  {
    hide Calculate, IsOne, Usable;
    var first := Calculate("x", Lit(1));
    assert Usable(NOTHING, outer, Lit(1)) by {
      LitIsUsable(outer, 1);
    }
    CalculateIsUsable(outer, "x", Lit(1));
    IsOneIsUsable(outer);
    assert [first][1..] == [];
    assert AllUsableMeta(NOTHING, outer, []) && AllFlowOn([]);
    assert AllUsableMeta(NOTHING, outer, [first]);
    assert AllFlowOn([first]);
    assert UsableMeta(NOTHING, outer, Taken()) && FlowsOn(Taken());
  }

  lemma LitIsUsable(outer: Chain, n: int)
    ensures Usable(NOTHING, outer, Lit(n))
  {
  }

  lemma LateUseIsUsable()
    ensures UsableMeta(NOTHING, [map[]], LateUse()) && FlowsOn(LateUse())
  {
    hide Calculate, Test;
    var outer: Chain := [map[]];
    var second := Calculate("y", Ref("x"));
    NothingResolves();
    TestIsUsable(outer);
    CalculateIsUsable(outer, "y", Ref("x"));
    assert [second][1..] == [] && [Test(), second][1..] == [second];
    assert AllUsableMeta(NOTHING, outer, [second]) && AllFlowOn([second]);
    assert AllUsableMeta(NOTHING, outer, [Test(), second]) && AllFlowOn([Test(), second]);
  }

  lemma CalculateIsUsable(outer: Chain, x: Name, e: Tree)
    requires Usable(NOTHING, outer, e)
    ensures UsableMeta(NOTHING, outer, Calculate(x, e)) && FlowsOn(Calculate(x, e))
  {
    var decl := Tree(DeclStmt(x), [e]);
    var block := Tree(UnscopedCompound, [decl]);
    assert [e][1..] == [] && [decl][1..] == [] && AllUsable(NOTHING, outer, []);
    assert AllUsable(NOTHING, outer, [e]);
    assert Usable(NOTHING, outer, decl);
    assert AllUsable(NOTHING, outer, [decl]);
    assert Usable(NOTHING, outer, block);
    CalculateFlowsOn(x, e);
  }

  lemma CalculateFlowsOn(x: Name, e: Tree)
    ensures FlowsOn(Calculate(x, e))
  {
    var decl := Tree(DeclStmt(x), [e]);
    var block := Tree(UnscopedCompound, [decl]);
    assert [decl][1..] == [];
    assert !TerminatesAny([decl]) by {
      assert !Terminates(decl) && !TerminatesAny([]);
    }
    assert NothingAfterReturns([decl]) by {
      assert NothingAfterReturn(decl) && NothingAfterReturns([]);
    }
    assert NothingAfterReturn(block) && !Terminates(block);
  }

  lemma CalculateComesTo(call: Oracle, x: Name, e: Tree, env: Env)
    ensures var p := Eval(NOTHING, call, e, env);
            Specialise(NOTHING, call, false, Calculate(x, e), env) ==
            if p.Some? && Content(p.value.0, p.value.1).Some? then
              var v := Content(p.value.0, p.value.1).value;
              Done([Exported(x, v, false)], p.value.1[x := v])
            else Undefined
  {
    var decl := Tree(DeclStmt(x), [e]);
    assert [decl][1..] == [] && [x][1..] == [];
    assert ExecAll(NOTHING, call, [decl], env) == Exec(NOTHING, call, decl, env);
    assert ExportsAll([decl]) == [x] + [] == [x];
    var p := Eval(NOTHING, call, e, env);
    if p.Some? && Content(p.value.0, p.value.1).Some? {
      var v := Content(p.value.0, p.value.1).value;
      assert ExportTrees([x], p.value.1[x := v], false) == [Exported(x, v, false)] + [];
    }
  }

  lemma IsOneComesTo(call: Oracle, v: int)
    ensures var env: Env := map["n" := v];
            Eval(NOTHING, call, IsOne(), env) == Some((Number(Bit(v == 1)), env)) &&
            Eval(NOTHING, call, Lit(1), env) == Some((Number(1), env))
  {
    var env: Env := map["n" := v];
    assert Eval(NOTHING, call, Ref("n"), env) == Some((Variable("n"), env));
  }

  lemma TestComesTo(call: Oracle, v: int)
    ensures var env: Env := map["n" := v];
            Specialise(NOTHING, call, false, Test(), env) ==
            if v == 1 then Done([Exported("x", 1, false)], env["x" := 1]) else Done([], env)
  {
    hide Calculate, Exported, Eval, IsOne;
    var env: Env := map["n" := v];
    var first := Calculate("x", Lit(1));
    SpecialiseIf(NOTHING, call, false, Test(), env);
    IsOneComesTo(call, v);
    CalculateComesTo(call, "x", Lit(1), env);
    SpecialiseFirst(NOTHING, call, false, [first], env);
    assert [first][1..] == [];
    assert [Exported("x", 1, false)] + [] == [Exported("x", 1, false)];
  }

  /** The branch is taken for the argument 1 only, and only then the
      instantiation is defined. */
  lemma LateUseComesTo(call: Oracle, v: int)
    ensures Instantiated(NOTHING, call, [Some("n")], LateUse(), [v]) ==
            if v == 1 then
              Done([Exported("n", 1, false), Exported("x", 1, false), Exported("y", 1, false)],
                   map["n" := 1, "x" := 1, "y" := 1])
            else Undefined
  {
    hide Calculate, Exported, Test;
    var ps: Params := [Some("n")];
    var env: Env := map["n" := v];
    var second := Calculate("y", Ref("x"));
    ParameterComesTo(v);
    TestComesTo(call, v);
    SpecialiseFirst(NOTHING, call, false, [Test(), second], env);
    assert [Test(), second][1..] == [second] && [second][1..] == [];
    var mid := if v == 1 then env["x" := 1] else env;
    assert Eval(NOTHING, call, Ref("x"), mid) == Some((Variable("x"), mid));
    CalculateComesTo(call, "y", Ref("x"), mid);
    SpecialiseFirst(NOTHING, call, false, [second], mid);
    assert [Exported("y", 1, false)] + [] == [Exported("y", 1, false)];
    if v == 1 {
      assert mid["y" := 1] == map["n" := 1, "x" := 1, "y" := 1];
    }
  }

  lemma ParameterComesTo(v: int)
    ensures var ps: Params := [Some("n")];
            var env: Env := map["n" := v];
            Bind(map[], ps, [v]) == env && ExportTrees(ParamNamesInOrder(ps), env, false) == [Exported("n", v, false)]
  {
    var ps: Params := [Some("n")];
    var env: Env := map["n" := v];
    assert ps[1..] == [] && [v][1..] == [] && ["n"][1..] == [];
    assert ParamNamesInOrder(ps) == ["n"] + [] == ["n"];
    assert ExportTrees(["n"], env, false) == [Exported("n", v, false)] + [];
  }

  /** The use of `x` stands behind the meta-if that may declare it. */
  lemma LateUseLeavesBranch()
    ensures !KeepsToBranches(NOTHING, {"n"}, LateUse())
  {
    hide Test;
    var second := Calculate("y", Ref("x"));
    var decl := Tree(DeclStmt("y"), [Ref("x")]);
    var known: set<Name> := {"n"};
    assert [Test(), second][1..] == [second] && [decl][1..] == [];
    assert !ClosedExpr(NOTHING, known, Ref("x"));
    assert !SureStmt(NOTHING, known, decl);
    assert !AllSure(NOTHING, known, [decl]);
    assert !KeepsToBranches(NOTHING, known, second);
    assert known + SurelyDeclares(Tree(MetaIf, [IsOne(), Taken()])) == known;
    assert known + SurelyDeclares(Test()) == known by {
      TestIsMetaIf();
    }
    assert !AllKeepToBranches(NOTHING, known, [second]);
    assert !AllKeepToBranches(NOTHING, known, [Test(), second]);
  }

  lemma TestIsMetaIf()
    ensures Test() == Tree(MetaIf, [IsOne(), Taken()])
  {
  }

  lemma LateUseIsNotDominated()
    ensures !Dominated(GenMetaFunction(NOTHING, [Some("n")], LateUse()))
  {
    hide LateUse, Dominated, KeepsToBranches, ClosedMetaFunction, DerivesContribution, ScopedCalculations,
         GenMetaFunction;
    var ps: Params := [Some("n")];
    LateUseIsDerived();
    LateUseIsClosed();
    LateUseLeavesBranch();
    assert LateDecl().kids[1] == LateUse();
    ContributionIsScoped(LateUse(), [] + [GlobalScope]);
    assert ps[1..] == [] && ParamNames([]) == {};
    assert ParamNames(ps) == {"n"};
    MetaDominatedIff(NOTHING, ps, LateUse());
  }

  /** A declaration the grammar derives and the reader accepts, whose compiled
      function gives the right unit for the argument 1 and gets stuck on a slot
      that was never allocated for every other argument: it leaves the branch of
      its meta-if, and has no dominance. */
  lemma LateNameExample(call: Oracle, w: Where, v: int)
    ensures DerivesMetaDecl(LateDecl(), []) && Read(w, LateDecl(), [], [map[]], Outside).ok
    ensures ClosedMetaFunction(NOTHING, [Some("n")], LateUse())
    ensures !KeepsToBranches(NOTHING, {"n"}, LateUse())
    ensures !Dominated(GenMetaFunction(NOTHING, [Some("n")], LateUse()))
    ensures Run(GenMetaFunction(NOTHING, [Some("n")], LateUse()), call, [v]) == Stuck <==> v != 1
    ensures InstantiateByRunning(NOTHING, call, "m", [Some("n")], LateUse(), [v]) ==
            if v != 1 then None
            else Some(Tree(MetaUnit("m"), [Exported("n", 1, false), Exported("x", 1, false), Exported("y", 1, false)]))
  {
    hide InstantiateByRunning, Run, GenMetaFunction, Specialise, Read, ClosedMetaFunction, DerivesMetaDecl, Dominated,
         KeepsToBranches;
    LateUseIsDerived();
    LateUseIsRead(w);
    LateUseIsClosed();
    LateUseLeavesBranch();
    LateUseIsNotDominated();
    MetaDeclFits(LateDecl());
    LateUseComesTo(call, v);
    InstantiationWrites(NOTHING, call, "m", [Some("n")], LateUse(), [v]);
    StagingIsSpecialisation(NOTHING, call, "m", [Some("n")], LateUse(), [v]);
    LateKids();
  }

  lemma LateKids()
    ensures LateDecl().kids[1] == LateUse() && LateUse().head.MetaContribution?
  {
  }
}
