/** Where the code falls short: the inputs are derived by the grammar and read
    without an error. */
module Examples {
  import opened Wrappers
  import opened Ast
  import opened Machine
  import opened Semantics
  import opened PlainReading
  import opened StmtCodegen
  import opened NullBlocks
  import opened DependencyAnalysis
  import opened Binding
  import opened LexicalScope
  import opened UnitBinding
  import opened ScopedReading
  import opened FunctionCodegen
  import opened Instantiation
  import opened SpecialisedUnits
  import opened BoundUnits
  import opened Grammar
  import ReadIsClosed
  import opened LateNames

  // Reading small trees

  /** Every name an expression mentions is in scope. */
  predicate Seen(chain: Chain, e: Tree)
    decreases e, 0
  {
    (e.head.DeclRef? ==> Lookup(chain, e.head.name).Some?) && AllSeen(chain, e.kids)
  }

  predicate AllSeen(chain: Chain, es: seq<Tree>)
    decreases es
  {
    es == [] || (Seen(chain, es[0]) && AllSeen(chain, es[1..]))
  }

  lemma {:induction false} ExprIsRead(w: Where, e: Tree, at: Path, chain: Chain, mode: Mode)
    requires DerivesExpr(e) && Seen(chain, e)
    ensures var r := Read(w, e, at, chain, mode); r.ok && r.chain == chain
    decreases e, 1
  {
    if e.kids != [] {
      ExprsAreRead(w, e.head, e.kids, at, 0, chain, mode);
    }
  }

  lemma {:induction false} ExprsAreRead(w: Where, h: Head, es: seq<Tree>, at: Path, i: nat, chain: Chain, mode: Mode)
    requires DerivesExprs(es) && AllSeen(chain, es) && (h.Binary? || h.Call? || h.MetaInstantiation?)
    ensures var r := ReadKids(w, h, es, at, i, chain, mode); r.ok && r.chain == chain
    decreases es, 0
  {
    if es != [] {
      ExprIsRead(w, es[0], at + [i], chain, mode);
      ExprsAreRead(w, h, es[1..], at, i + 1, chain, mode);
    }
  }

  lemma OperandIsRead(w: Where, h: Head, e: Tree, at: Path, chain: Chain, mode: Mode)
    requires DerivesExpr(e) && Seen(chain, e) && (h.Return? || h.ExpressionStmt?)
    ensures var r := Read(w, Tree(h, [e]), at, chain, mode); r.ok && r.chain == chain
  {
    ExprIsRead(w, e, at + [0], chain, mode);
    OneKid(w, h, e, at, 0, chain, mode);
  }

  /** Copied code is read without an error, and leaves nothing in scope. */
  lemma {:induction false} CopiedIsRead(w: Where, t: Tree, at: Path, chain: Chain)
    requires NoMeta(t) && MayReadAll(t, InsideMetaDecl) && !t.head.MetaDecl?
    ensures var r := Read(w, t, at, chain, InsideMetaDecl); r.ok && r.chain == chain
    decreases t, 1
  {
    var inner := if Opens(t.head) then [map[]] + chain else chain;
    CopiedKidsAreRead(w, t.head, t.kids, at, 0, inner);
  }

  lemma {:induction false} CopiedKidsAreRead(w: Where, h: Head, ts: seq<Tree>, at: Path, i: nat, chain: Chain)
    requires AllNoMeta(ts) && MayReadKids(h, ts, i, InsideMetaDecl)
    requires !h.MetaDecl? && !h.MetaIf? && !h.MetaCalculation?
    ensures var r := ReadKids(w, h, ts, at, i, chain, InsideMetaDecl); r.ok && r.chain == chain
    decreases ts, 0
  {
    if ts != [] {
      CopiedIsRead(w, ts[0], at + [i], chain);
      CopiedKidsAreRead(w, h, ts[1..], at, i + 1, chain);
    }
  }

  /** A function with the result type `int`. */
  function WithResult(args: seq<Tree>, body: Tree): Tree {
    Tree(FunctionDecl("f"), [Tree(ArgumentDeclList, args), Tree(AnonymousArgument, []), body])
  }

  lemma WithResultIsRead(w: Where, args: seq<Tree>, body: Tree, outer: Chain, known: Chain)
    requires var r := Read(w, Tree(ArgumentDeclList, args), [] + [0], [map[]] + outer, Outside);
             r.ok && r.chain == known
    requires Read(w, body, [] + [2], known, Outside).ok
    ensures Read(w, WithResult(args, body), [], outer, Outside).ok
  {
    hide Read, ReadKids;
    var f := WithResult(args, body);
    var list, result := f.kids[0], Tree(AnonymousArgument, []);
    var inner := [map[]] + outer;
    assert f.kids == [list, result, body] && f.kids[1..] == [result, body] && f.kids[1..][1..] == [body];
    AnonymousIsRead(w, [] + [1], known);
    OneKid(w, f.head, body, [], 2, known, Outside);
    ReadFirstKid(w, f.head, f.kids[1..], [], 1, known, Outside);
    ReadFirstKid(w, f.head, f.kids, [], 0, inner, Outside);
    FunctionReads(w, f, outer);
  }

  lemma AnonymousIsRead(w: Where, at: Path, chain: Chain)
    ensures var r := Read(w, Tree(AnonymousArgument, []), at, chain, Outside); r.ok && r.chain == chain
  {
  }

  lemma FunctionReads(w: Where, t: Tree, outer: Chain)
    requires t.head.FunctionDecl?
    ensures Read(w, t, [], outer, Outside).ok == ReadKids(w, t.head, t.kids, [], 0, [map[]] + outer, Outside).ok
  {
  }

  lemma NoArguments(w: Where, at: Path, chain: Chain)
    ensures var r := Read(w, Tree(ArgumentDeclList, []), at, chain, Outside); r.ok && r.chain == chain
  {
  }

  // Late loads

  /** `i + (i = 5)` */
  function LateSum(): Tree {
    Tree(Binary(Plus), [Ref("i"), Tree(Binary(Assign), [Ref("i"), Lit(5)])])
  }

  lemma LateSumFits(chain: Chain)
    requires Lookup(chain, "i").Some?
    ensures DerivesExpr(LateSum()) && Seen(chain, LateSum())
  {
    var set5 := Tree(Binary(Assign), [Ref("i"), Lit(5)]);
    assert [Ref("i"), Lit(5)][1..] == [Lit(5)];
    assert AllSeen(chain, []);
    OneSeen(chain, Lit(5));
    assert DerivesExprs([Ref("i"), Lit(5)]) && AllSeen(chain, [Ref("i"), Lit(5)]);
    assert DerivesExpr(set5) && Seen(chain, set5);
    assert [Ref("i"), set5][1..] == [set5];
    OneSeen(chain, set5);
  }

  /** `f(int i) int -> return i + (i = 5);` returns 10 for the argument 1, and not
      6. */
  lemma LateLoadInFunction(call: Oracle, w: Where, outer: Chain)
    requires outer != [] && Lookup(outer, "i").None?
    ensures var args := [Tree(NamedArgument("i"), [])];
            var body := Tree(Return, [LateSum()]);
            DerivesFunction(WithResult(args, body), []) && Read(w, WithResult(args, body), [], outer, Outside).ok
    ensures var g := Globals(map[], map[], map[]);
            var body := Tree(Return, [LateSum()]);
            var env := Bind(map[], [Some("i")], [1]);
            Exec(g, call, body, env) == Returned(Some(10)) && PlainExec(g, call, body, env) == Returned(Some(6))
  {
    hide Read, ReadKids, DerivesExpr, Exec, PlainExec;
    var arg, body := Tree(NamedArgument("i"), []), Tree(Return, [LateSum()]);
    var inner := [map[]] + outer;
    EnterKeepsLookup(outer, "i");
    NamedIsRead(w, "i", [] + [0], inner);
    var known := Read(w, Tree(ArgumentDeclList, [arg]), [] + [0], inner, Outside).chain;
    LateSumFits(known);
    OperandIsRead(w, Return, LateSum(), [] + [2], known, Outside);
    WithResultIsRead(w, [arg], body, outer, known);
    LateSumReturns(call);
  }

  lemma LateSumReturns(call: Oracle)
    ensures var g := Globals(map[], map[], map[]);
            var body := Tree(Return, [LateSum()]);
            var env := Bind(map[], [Some("i")], [1]);
            Exec(g, call, body, env) == Returned(Some(10)) && PlainExec(g, call, body, env) == Returned(Some(6))
  {
    hide Eval, Plain;
    LateLoadExample(call);
    LateSumIs();
    assert Bind(map[], [Some("i")], [1]) == map["i" := 1];
  }

  lemma LateSumIs()
    ensures var i := Tree(DeclRef("i"), []);
            LateSum() == Tree(Binary(Plus), [i, Tree(Binary(Assign), [i, Tree(IntegerLiteral(5), [])])])
  {
  }

  lemma NamedIsRead(w: Where, x: Name, at: Path, chain: Chain)
    requires chain != [] && Lookup(chain, x).None?
    ensures var r := Read(w, Tree(ArgumentDeclList, [Tree(NamedArgument(x), [])]), at, chain, Outside);
            r.ok && r.chain != [] && Lookup(r.chain, x).Some?
  {
    var arg := Tree(NamedArgument(x), []);
    var below, d := Reading(chain, map[], true), DeclAt(w, at + [0], arg.head);
    OneKid(w, ArgumentDeclList, arg, at, 0, chain, Outside);
    IntroduceLookup(below, x, d, x);
  }

  // Two returns

  /** `f() int -> { return 1; return 2; }`: the second return is generated into a
      block that is not there. */
  lemma ReturnTwiceInFunction(g: Globals, b: Builder, block: nat, w: Where, outer: Chain)
    ensures var first, second := Tree(Return, [Lit(1)]), Tree(Return, [Lit(2)]);
            var body := Tree(Compound, [first, second]);
            DerivesFunction(WithResult([], body), []) && Read(w, WithResult([], body), [], outer, Outside).ok &&
            TryGenStmt(g, b, block, body).None?
  {
    hide Read, ReadKids, TryGenStmt;
    var first, second := Tree(Return, [Lit(1)]), Tree(Return, [Lit(2)]);
    var body := Tree(Compound, [first, second]);
    var inner := [map[]] + outer;
    assert [first, second][1..] == [second] && [second][1..] == [];
    assert DerivesStatement(first, []) && DerivesStatement(second, []) && DerivesStatements([], []);
    assert DerivesStatements([second], []);
    assert DerivesStatements([first, second], []);
    NoArguments(w, [] + [0], inner);
    OperandIsRead(w, Return, Lit(1), [] + [2] + [0], [map[]] + inner, Outside);
    OperandIsRead(w, Return, Lit(2), [] + [2] + [1], [map[]] + inner, Outside);
    TwoKids(w, Compound, first, second, [] + [2], [map[]] + inner, Outside);
    CompoundReads(w, body, [] + [2], inner);
    WithResultIsRead(w, [], body, outer, inner);
    ReturnTwiceExample(g, b, block);
  }

  lemma CompoundReads(w: Where, t: Tree, at: Path, chain: Chain)
    requires t.head.Compound?
    ensures Read(w, t, at, chain, Outside).ok == ReadKids(w, t.head, t.kids, at, 0, [map[]] + chain, Outside).ok
  {
  }

  // Meta declarations

  function Meta(name: Name, args: seq<Tree>, nodes: seq<Tree>): Tree {
    Tree(MetaDecl(name), [Tree(ArgumentDeclList, args), Tree(MetaContribution, nodes)])
  }

  lemma MetaIsDerived(name: Name, args: seq<Tree>, node: Tree)
    requires (forall k | k in args :: DerivesArgument(k)) && DerivesScopeNode(node, [GlobalScope])
    ensures DerivesMetaDecl(Meta(name, args, [node]), [])
  {
    hide DerivesScopeNode, DerivesRuntimeNode, DerivesStatement, DerivesMetaStmt, DerivesFunction;
    assert [] + [GlobalScope] == [GlobalScope] && [node][1..] == [] && DerivesScopeNodes([], [GlobalScope]);
    assert DerivesScopeNodes([node], [GlobalScope]);
  }

  lemma MetaIsRead(w: Where, name: Name, args: seq<Tree>, node: Tree, outer: Chain, known: Chain)
    requires var r := Read(w, Tree(ArgumentDeclList, args), [] + [0], [map[]] + outer, Outside);
             r.ok && r.chain == known
    requires Read(w, node, [] + [1] + [0], known, InsideMetaDecl).ok
    ensures Read(w, Meta(name, args, [node]), [], outer, Outside).ok
  {
    hide Read, ReadKids;
    var list, contribution := Tree(ArgumentDeclList, args), Tree(MetaContribution, [node]);
    OneKid(w, MetaContribution, node, [] + [1], 0, known, InsideMetaDecl);
    TwoKids(w, MetaDecl(name), list, contribution, [], [map[]] + outer, Outside);
    MetaReads(w, Meta(name, args, [node]), outer);
    ContributionReads(w, contribution, [] + [1], known);
  }

  lemma MetaReads(w: Where, t: Tree, outer: Chain)
    requires t.head.MetaDecl?
    ensures Read(w, t, [], outer, Outside).ok == ReadKids(w, t.head, t.kids, [], 0, [map[]] + outer, Outside).ok
  {
  }

  lemma ContributionReads(w: Where, t: Tree, at: Path, chain: Chain)
    requires t.head.MetaContribution? || t.head.MetaIf?
    ensures Read(w, t, at, chain, InsideMetaDecl).ok == ReadKids(w, t.head, t.kids, at, 0, chain, InsideMetaDecl).ok
  {
  }

  /** `meta if 1 { ... }` */
  function MetaIfOne(nodes: seq<Tree>): Tree {
    Tree(MetaIf, [Lit(1), Tree(MetaContribution, nodes)])
  }

  lemma MetaIfOneIsRead(w: Where, nodes: seq<Tree>, at: Path, chain: Chain)
    requires ReadKids(w, MetaContribution, nodes, at + [1], 0, chain, InsideMetaDecl).ok
    ensures Read(w, MetaIfOne(nodes), at, chain, InsideMetaDecl).ok
  {
    hide Read, ReadKids;
    var taken := Tree(MetaContribution, nodes);
    ExprIsRead(w, Lit(1), at + [0], chain, InsideComputation);
    ContributionReads(w, taken, at + [1], chain);
    TwoKids(w, MetaIf, Lit(1), taken, at, chain, InsideMetaDecl);
    ContributionReads(w, MetaIfOne(nodes), at, chain);
  }

  // A meta statement as a whole body

  lemma MentionIsDerived(x: Name, stack: DepthStack)
    requires IsInMetaDepth(stack, LocalScope)
    ensures DerivesStatement(Mention(x), stack) && DerivesScopeNode(Mention(x), stack)
    ensures NoMeta(Mention(x)) && MayReadAll(Mention(x), InsideMetaDecl)
  {
    var g := Globals(map[], map[x := 0], map[]);
    MentionFits(g, x);
    StatementFits(Mention(x), stack);
  }

  lemma MetaBodyIsDerived(x: Name, y: Name)
    ensures DerivesMetaDecl(Tree(MetaDecl("m"), [Tree(ArgumentDeclList, []), MetaBody([Mention(x), Mention(y)])]), [])
  {
    hide DerivesStatement, DerivesScopeNode;
    var a, b := Mention(x), Mention(y);
    var stack := [GlobalScope] + [LocalScope];
    var body := MetaIfOne([a, b]);
    var f := Tree(FunctionDecl("f"), [Tree(ArgumentDeclList, []), body]);
    MentionIsDerived(x, stack);
    MentionIsDerived(y, stack);
    assert [a, b][1..] == [b] && [b][1..] == [] && DerivesScopeNodes([], stack);
    assert DerivesScopeNodes([b], stack);
    assert DerivesScopeNodes([a, b], stack);
    BodyIsDerived(f, stack);
    MetaIsDerived("m", [], f);
    assert MetaBody([a, b]) == Tree(MetaContribution, [f]);
  }

  lemma BodyIsDerived(f: Tree, stack: DepthStack)
    requires f.head.FunctionDecl? && stack == [GlobalScope] + [LocalScope] && |f.kids| == 2
    requires f.kids[0] == Tree(ArgumentDeclList, []) && f.kids[1].head.MetaIf? && |f.kids[1].kids| == 2
    requires f.kids[1].kids[0] == Lit(1) && f.kids[1].kids[1].head.MetaContribution?
    requires DerivesScopeNodes(f.kids[1].kids[1].kids, stack)
    ensures DerivesScopeNode(f, [GlobalScope])
  {
    assert DerivesContribution(f.kids[1].kids[1], stack);
    assert DerivesMetaStmt(f.kids[1], stack);
    assert DerivesStatement(f.kids[1], stack);
    assert DerivesFunction(f, [GlobalScope]);
    assert DerivesRuntimeNode(f, [GlobalScope]);
  }

  /** `m<> -> { f() -> meta if 1 { a; b; } }` */
  lemma MetaBodyInDecl(call: Oracle, w: Where, outer: Chain)
    ensures var c := MetaBody([Mention("a"), Mention("b")]);
            var t := Tree(MetaDecl("m"), [Tree(ArgumentDeclList, []), c]);
            DerivesMetaDecl(t, []) && Read(w, t, [], outer, Outside).ok
    ensures var g := Globals(map[], map["a" := 1, "b" := 2], map[]);
            var c := MetaBody([Mention("a"), Mention("b")]);
            Instantiate(g, call, "m", [], c, []).Some? && InstantiateByRunning(g, call, "m", [], c, []).None?
  {
    hide Read, ReadKids, Instantiate, InstantiateByRunning, Mention, DerivesMetaDecl;
    MetaBodyExample(call);
    MetaBodyIsDerived("a", "b");
    MetaBodyIsRead("a", "b", w, outer);
    assert MetaBody([Mention("a"), Mention("b")]) ==
             Tree(MetaContribution, [WithoutArguments(MetaIfOne([Mention("a"), Mention("b")]))]);
  }

  function WithoutArguments(body: Tree): Tree {
    Tree(FunctionDecl("f"), [Tree(ArgumentDeclList, []), body])
  }

  lemma MetaBodyIsRead(x: Name, y: Name, w: Where, outer: Chain)
    ensures Read(w, Meta("m", [], [WithoutArguments(MetaIfOne([Mention(x), Mention(y)]))]), [], outer, Outside).ok
  {
    hide Read, ReadKids, Mention, MayReadAll, NoMeta, DerivesStatement, DerivesScopeNode;
    var inner := [map[]] + outer;
    var place := [] + [1] + [0];
    var body := MetaIfOne([Mention(x), Mention(y)]);
    MentionsAreRead(x, y, w, place + [1] + [1], [map[]] + inner);
    MetaIfOneIsRead(w, [Mention(x), Mention(y)], place + [1], [map[]] + inner);
    CopiedFunctionReads(w, body, place, inner);
    NoArguments(w, [] + [0], inner);
    MetaIsRead(w, "m", [], WithoutArguments(body), outer, inner);
  }

  lemma MentionsAreRead(x: Name, y: Name, w: Where, at: Path, chain: Chain)
    ensures ReadKids(w, MetaContribution, [Mention(x), Mention(y)], at, 0, chain, InsideMetaDecl).ok
  {
    hide Read, ReadKids, MayReadAll, NoMeta, DerivesStatement, DerivesScopeNode;
    var a, b := Mention(x), Mention(y);
    MentionIsDerived(x, [LocalScope]);
    MentionIsDerived(y, [LocalScope]);
    assert [a, b][1..] == [b] && [b][1..] == [];
    CopiedKidsAreRead(w, MetaContribution, [a, b], at, 0, chain);
  }

  lemma CopiedFunctionReads(w: Where, body: Tree, at: Path, chain: Chain)
    requires Read(w, body, at + [1], [map[]] + chain, InsideMetaDecl).ok
    ensures Read(w, Tree(FunctionDecl("f"), [Tree(ArgumentDeclList, []), body]), at, chain, InsideMetaDecl).ok
  {
    var list := Tree(ArgumentDeclList, []);
    TwoKids(w, FunctionDecl("f"), list, body, at, [map[]] + chain, InsideMetaDecl);
    assert Read(w, list, at + [0], [map[]] + chain, InsideMetaDecl) == Reading([map[]] + chain, map[], true);
  }

  // A lookup that analysis does not cover

  lemma UsingIsDerived(stack: DepthStack)
    requires stack == [GlobalScope]
    ensures DerivesScopeNode(MetaIfOne(UsingBranch().kids), stack)
  {
    var name := Tree(DeclRef("m"), []);
    var used := Tree(MetaInstantiation, [name]);
    var call := Tree(Call, [used]);
    var stmt := Tree(ExpressionStmt, [call]);
    var block := Tree(UnscopedCompound, [stmt]);
    var compute := Tree(MetaCalculation, [block]);
    var taken := Tree(MetaContribution, [compute]);
    assert [name][1..] == [] && [used][1..] == [] && [stmt][1..] == [] && [compute][1..] == [];
    assert DerivesExprs([name]);
    assert DerivesExpr(used);
    assert DerivesExprs([used]);
    assert DerivesExpr(call);
    assert DerivesStatement(stmt, stack + [NoScope]) && DerivesStatements([], stack + [NoScope]);
    assert DerivesStatements([stmt], stack + [NoScope]);
    assert DerivesMetaStmt(compute, stack);
    assert DerivesRuntimeNode(compute, stack);
    assert DerivesScopeNode(compute, stack) && DerivesScopeNodes([], stack);
    assert DerivesScopeNodes([compute], stack);
    assert DerivesContribution(taken, stack);
    assert UsingBranch() == taken;
    assert DerivesMetaStmt(MetaIfOne([compute]), stack);
    assert DerivesRuntimeNode(MetaIfOne([compute]), stack);
  }

  lemma UsingIsRead(w: Where, at: Path, chain: Chain)
    requires Lookup(chain, "m").Some?
    ensures ReadKids(w, MetaContribution, UsingBranch().kids, at, 0, chain, InsideMetaDecl).ok
  {
    hide Read, ReadKids;
    var name := Tree(DeclRef("m"), []);
    var used := Tree(MetaInstantiation, [name]);
    var call := Tree(Call, [used]);
    var stmt := Tree(ExpressionStmt, [call]);
    var block := Tree(UnscopedCompound, [stmt]);
    var compute := Tree(MetaCalculation, [block]);
    UsedIsSeen(chain);
    OperandIsRead(w, ExpressionStmt, call, at + [0] + [0] + [0], chain, InsideComputation);
    OneKid(w, UnscopedCompound, stmt, at + [0] + [0], 0, chain, InsideComputation);
    BlockReads(w, block, at + [0] + [0], chain);
    OneKid(w, MetaCalculation, block, at + [0], 0, chain, InsideMetaDecl);
    CalculationReads(w, compute, at + [0], chain);
    OneKid(w, MetaContribution, compute, at, 0, chain, InsideMetaDecl);
    assert UsingBranch().kids == [compute];
  }

  lemma UsedIsSeen(chain: Chain)
    requires Lookup(chain, "m").Some?
    ensures var call := Tree(Call, [Tree(MetaInstantiation, [Tree(DeclRef("m"), [])])]);
            DerivesExpr(call) && Seen(chain, call)
  {
    var name := Tree(DeclRef("m"), []);
    var used := Tree(MetaInstantiation, [name]);
    var call := Tree(Call, [used]);
    OneSeen(chain, name);
    OneSeen(chain, used);
    assert DerivesExpr(call) && Seen(chain, call);
  }

  /** A node whose only child is an expression in scope. */
  lemma OneSeen(chain: Chain, e: Tree)
    requires DerivesExpr(e) && Seen(chain, e)
    ensures DerivesExprs([e]) && AllSeen(chain, [e])
  {
    assert [e][1..] == [] && AllSeen(chain, []) && DerivesExprs([]);
  }

  lemma BlockReads(w: Where, t: Tree, at: Path, chain: Chain)
    requires t.head.UnscopedCompound?
    ensures Read(w, t, at, chain, InsideComputation).ok ==
            ReadKids(w, t.head, t.kids, at, 0, chain, InsideComputation).ok
  {
  }

  lemma CalculationReads(w: Where, t: Tree, at: Path, chain: Chain)
    requires t.head.MetaCalculation?
    ensures Read(w, t, at, chain, InsideMetaDecl).ok == ReadKids(w, t.head, t.kids, at, 0, chain, InsideMetaDecl).ok
  {
  }

  /** `k<> -> { meta if 1 { meta { m<>(); } } }`: the call of the instantiation of
      `m` is never handed over, and looked up all the same. */
  lemma UncoveredInDecl(w: Where, outer: Chain, at: Path)
    requires outer != [] && Lookup(outer, "m").Some?
    ensures var t := Meta("k", [], [MetaIfOne(UsingBranch().kids)]);
            DerivesMetaDecl(t, []) && Read(w, t, [], outer, Outside).ok &&
            MetaInstantiations(t.kids[1], at) == [] && MetaLooksUp(t.kids[1], at) != {}
  {
    hide Read, ReadKids, DerivesScopeNode, UsingBranch, LooksUp, Instantiations;
    var meta := MetaIfOne(UsingBranch().kids);
    var inner := [map[]] + outer;
    EnterKeepsLookup(outer, "m");
    UsingIsDerived([GlobalScope]);
    MetaIsDerived("k", [], meta);
    NoArguments(w, [] + [0], inner);
    UsingIsRead(w, [] + [1] + [0] + [1], inner);
    MetaIfOneIsRead(w, UsingBranch().kids, [] + [1] + [0], inner);
    MetaIsRead(w, "k", [], meta, outer, inner);
    UncoveredExample(at + [0]);
    UsingBranchFits();
    assert meta == Tree(MetaIf, [Tree(IntegerLiteral(1), []), UsingBranch()]);
    assert [meta][1..] == [] && MetaInstantiationsOf([], at, 1) == [];
    OnlyChildLooksUp(Tree(MetaContribution, [meta]), at);
  }

  // A local over a parameter

  /** `f() -> int n = 1;` */
  function LocalFunction(): Tree {
    Tree(FunctionDecl("f"), [Tree(ArgumentDeclList, []), Tree(DeclStmt("n"), [Lit(1)])])
  }

  /** `m<int n> -> { f() -> int n = 1; }` */
  function LocalDecl(): Tree {
    Meta("m", [Tree(NamedArgument("n"), [])], [LocalFunction()])
  }

  lemma LocalIsDerived()
    ensures DerivesMetaDecl(LocalDecl(), []) && DerivesFunction(LocalFunction(), [GlobalScope])
    ensures NoMeta(LocalFunction()) && MayReadAll(LocalFunction(), InsideMetaDecl)
  {
    var f, body := LocalFunction(), Tree(DeclStmt("n"), [Lit(1)]);
    var list := Tree(ArgumentDeclList, []);
    assert DerivesStatement(body, [GlobalScope] + [LocalScope]);
    assert DerivesFunction(f, [GlobalScope]);
    assert DerivesRuntimeNode(f, [GlobalScope]);
    assert DerivesScopeNode(f, [GlobalScope]);
    MetaIsDerived("m", [Tree(NamedArgument("n"), [])], f);
    FunctionDerivedFits(f, [GlobalScope]);
    assert [Lit(1)][1..] == [] && [list, body][1..] == [body] && [body][1..] == [];
    assert NoMeta(Lit(1)) && AllNoMeta([Lit(1)]);
    assert NoMeta(body) && NoMeta(list);
    assert AllNoMeta([body]);
    assert AllNoMeta([list, body]);
  }

  lemma LocalComesTo(call: Oracle, v: int)
    ensures var meant := Instantiated(NOTHING, call, [Some("n")], LocalDecl().kids[1], [v]);
            meant.Done? && meant.trees == [Exported("n", v, false), LocalFunction()]
  {
    hide LocalFunction, Exported;
    var env: Env := map["n" := v];
    var f := LocalFunction();
    LocalIsDerived();
    ParameterComesTo(v);
    assert [f][1..] == [];
    assert AllNoMeta([f]);
    AllNoMetaCopied(NOTHING, call, false, [f], env);
    assert [Exported("n", v, false)] + [f] == [Exported("n", v, false), f];
  }

  lemma LocalIsClosed(w: Where)
    ensures Read(w, LocalDecl(), [], [map[]], Outside).ok
    ensures ClosedMetaFunction(NOTHING, [Some("n")], LocalDecl().kids[1])
  {
    hide Read, ReadKids, LocalFunction, ClosedMetaFunction, DerivesMetaDecl, DerivesFunction;
    var arg, f := Tree(NamedArgument("n"), []), LocalFunction();
    var outer: Chain := [map[]];
    var inner := [map[]] + outer;
    LocalIsDerived();
    NothingResolves();
    EnterKeepsLookup(outer, "n");
    NamedIsRead(w, "n", [] + [0], inner);
    var known := Read(w, Tree(ArgumentDeclList, [arg]), [] + [0], inner, Outside).chain;
    LocalIsFunction();
    CopiedIsRead(w, f, [] + [1] + [0], known);
    MetaIsRead(w, "m", [arg], f, outer, known);
    ReadIsClosed.MetaDeclIsClosed(NOTHING, w, LocalDecl(), outer);
    LocalIsUsable();
    assert [arg][1..] == [] && ReadIsClosed.ParamsOf([]) == [];
    assert ReadIsClosed.ParamsOf([arg]) == [Some("n")];
  }

  lemma LocalIsFunction()
    ensures LocalFunction().head == FunctionDecl("f")
  {
  }

  lemma LocalIsUsable()
    ensures ReadIsClosed.UsableMeta(NOTHING, [map[]], LocalDecl().kids[1]) && ReadIsClosed.FlowsOn(LocalDecl().kids[1])
  {
    var f, body := LocalFunction(), Tree(DeclStmt("n"), [Lit(1)]);
    var list := Tree(ArgumentDeclList, []);
    var outer: Chain := [map[]];
    assert [f][1..] == [] && [Lit(1)][1..] == [] && [list, body][1..] == [body] && [body][1..] == [];
    assert ReadIsClosed.AllUsableMeta(NOTHING, outer, []) && ReadIsClosed.AllFlowOn([]);
    assert ReadIsClosed.UsableMeta(NOTHING, outer, Lit(1)) && ReadIsClosed.FlowsOn(Lit(1));
    assert ReadIsClosed.AllUsableMeta(NOTHING, outer, [Lit(1)]) && ReadIsClosed.AllFlowOn([Lit(1)]);
    assert ReadIsClosed.UsableMeta(NOTHING, outer, body) && ReadIsClosed.FlowsOn(body);
    assert ReadIsClosed.AllUsableMeta(NOTHING, outer, [body]) && ReadIsClosed.AllFlowOn([body]);
    assert ReadIsClosed.UsableMeta(NOTHING, outer, list) && ReadIsClosed.FlowsOn(list);
    assert ReadIsClosed.UsableMeta(NOTHING, outer, f) && ReadIsClosed.FlowsOn(f);
    assert ReadIsClosed.AllUsableMeta(NOTHING, outer, [f]) && ReadIsClosed.AllFlowOn([f]);
  }

  /** A local of a contributed function may have the name of a parameter: the
      declaration is derived and read without an error, its instantiation can be
      read back for every argument, and never binds. */
  lemma LocalOverParameterExample(call: Oracle, w: Where, u: nat, instantiates: Decl, v: int)
    requires instantiates.head == MetaDecl("m") && instantiates.unit != u
    ensures DerivesMetaDecl(LocalDecl(), []) && Read(w, LocalDecl(), [], [map[]], Outside).ok
    ensures var c := LocalDecl().kids[1];
            var outer: Chain := [map["m" := instantiates]];
            InstantiateByRunning(NOTHING, call, "m", [Some("n")], c, [v]).Some? &&
            InstantiateAndBind(NOTHING, call, u, instantiates, outer, [Some("n")], c, [v]).None?
  {
    hide InstantiateByRunning, Read, LocalFunction, DerivesMetaDecl, ClosedMetaFunction, Instantiated,
         ReadUnit, Exported;
    var c := LocalDecl().kids[1];
    var outer: Chain := [map["m" := instantiates]];
    var kids := [Exported("n", v, false), LocalFunction()];
    LocalIsDerived();
    LocalIsClosed(w);
    LocalComesTo(call, v);
    MetaDeclFits(LocalDecl());
    StagingIsSpecialisation(NOTHING, call, "m", [Some("n")], c, [v]);
    InstantiatedMembers(NOTHING, call, [Some("n")], c, [v]);
    LocalUnitFits(v);
    MembersAreTops(kids);
    LocalClashes(u, instantiates, outer, v);
    ContributionFits(c, [] + [GlobalScope]);
  }

  lemma LocalUnitFits(v: int)
    ensures OneBodyEach([Exported("n", v, false), LocalFunction()])
  {
    var c, f := Exported("n", v, false), LocalFunction();
    assert [c, f][1..] == [f] && [f][1..] == [];
    assert OneBodyEach([]);
    assert OneBodyEach([f]);
  }

  lemma LocalClashes(u: nat, instantiates: Decl, outer: Chain, v: int)
    requires instantiates.head == MetaDecl("m") && instantiates.unit != u && outer == [map["m" := instantiates]]
    requires AreTops([Exported("n", v, false), LocalFunction()])
    ensures !ReadUnit(u, Some(instantiates), outer, [Exported("n", v, false), LocalFunction()]).ok
  {
    hide ReadUnit;
    var c, f := Exported("n", v, false), LocalFunction();
    var kids := [c, f];
    assert kids[0] == c && kids[1] == f;
    assert outer[1..] == [];
    forall x | Lookup(outer, x).Some?
      ensures Named(Lookup(outer, x).value, x)
    {
      assert Lookup([], x).None?;
    }
    assert [1 as nat][1..] == [];
    assert NodeAt(f, [1]) == NodeAt(f.kids[1], []);
    assert ModeAt(f, [1], Outside) == Outside;
    assert DeclaresAt(f, [1], Outside);
    LocalOverConstantFails(u, Some(instantiates), outer, kids, f, [1], c);
  }
}
