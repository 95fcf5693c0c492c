/** What the grammar derives and the reader binds without an error is what the
    code generators accept, and what is still left unchecked then. */
module ReadIsClosed {
  import opened Wrappers
  import opened Ast
  import opened Machine
  import opened Graph
  import opened Runs
  import opened Semantics
  import opened DependencyAnalysis
  import opened Binding
  import opened FunctionCodegen
  import opened MetaCodegen
  import opened SpecialisedUnits
  import opened Staging
  import opened Instantiation
  import opened CodegenInstances
  import opened UnitBinding
  import opened ScopedReading
  import opened Grammar

  /** The name stands for a function or a constant. */
  predicate HasValue(chain: Chain, x: Name) {
    var d := Lookup(chain, x);
    d.Some? && (d.value.head.FunctionDecl? || d.value.head.GlobalConstant?)
  }

  /** The generator resolves the functions and constants of the scopes outside,
      and nothing else. */
  ghost predicate Resolves(g: Globals, outer: Chain) {
    forall x :: g.Knows(x) <==> HasValue(outer, x)
  }

  /** The scopes hold what they hold outside and the names that may be declared. */
  ghost predicate InScope(outer: Chain, known: set<Name>, chain: Chain) {
    chain != [] && (forall x :: Lookup(chain, x).Some? <==> x in known || Lookup(outer, x).Some?) &&
    forall x | x in known :: Lookup(outer, x).None?
  }

  // What neither the grammar nor the reader checks

  /** References do not name what has no value, and every instantiation that is
      used has succeeded. */
  predicate Usable(g: Globals, outer: Chain, t: Tree)
    decreases t, 0
  {
    match t.head
    case DeclRef(x) => Lookup(outer, x).Some? ==> HasValue(outer, x)
    case MetaInstantiation => t in g.instances
    case _ => AllUsable(g, outer, t.kids)
  }

  predicate AllUsable(g: Globals, outer: Chain, ts: seq<Tree>)
    decreases ts
  {
    ts == [] || (Usable(g, outer, ts[0]) && AllUsable(g, outer, ts[1..]))
  }

  /** The same for what a meta declaration runs at compile time. */
  predicate UsableMeta(g: Globals, outer: Chain, t: Tree)
    decreases t, 0
  {
    match t.head
    case MetaCalculation => t.kids != [] ==> Usable(g, outer, t.kids[0])
    case MetaIf =>
      (t.kids != [] ==> Usable(g, outer, t.kids[0])) && (|t.kids| > 1 ==> UsableMeta(g, outer, t.kids[1])) &&
      (|t.kids| > 2 ==> UsableMeta(g, outer, t.kids[2]))
    case _ => AllUsableMeta(g, outer, t.kids)
  }

  predicate AllUsableMeta(g: Globals, outer: Chain, ts: seq<Tree>)
    decreases ts
  {
    ts == [] || (UsableMeta(g, outer, ts[0]) && AllUsableMeta(g, outer, ts[1..]))
  }

  /** Every calculation can be left, and nothing in it follows a return. */
  predicate FlowsOn(t: Tree)
    decreases t, 0
  {
    match t.head
    case MetaCalculation => t.kids != [] ==> NothingAfterReturn(t.kids[0]) && !Terminates(t.kids[0])
    case MetaIf => (|t.kids| > 1 ==> FlowsOn(t.kids[1])) && (|t.kids| > 2 ==> FlowsOn(t.kids[2]))
    case _ => AllFlowOn(t.kids)
  }

  predicate AllFlowOn(ts: seq<Tree>)
    decreases ts
  {
    ts == [] || (FlowsOn(ts[0]) && AllFlowOn(ts[1..]))
  }

  /** Usable as far as names are concerned. */
  predicate Valued(outer: Chain, t: Tree)
    decreases t, 0
  {
    match t.head
    case DeclRef(x) => Lookup(outer, x).Some? ==> HasValue(outer, x)
    case MetaInstantiation => true
    case _ => AllValued(outer, t.kids)
  }

  predicate AllValued(outer: Chain, ts: seq<Tree>)
    decreases ts
  {
    ts == [] || (Valued(outer, ts[0]) && AllValued(outer, ts[1..]))
  }

  lemma {:induction false} UsableIsValued(g: Globals, outer: Chain, t: Tree, at: Path)
    ensures Usable(g, outer, t) ==> Valued(outer, t)
    ensures Valued(outer, t) && (forall o | o in Instantiations(t, at) :: o.inst in g.instances) ==> Usable(g, outer, t)
    decreases t, 0
  {
    AllUsableIsValued(g, outer, t.kids, at, 0);
    if t.head.MetaInstantiation? {
      assert Instantiations(t, at)[0] == Occurrence(at, t);
    }
  }

  lemma {:induction false} AllUsableIsValued(g: Globals, outer: Chain, ts: seq<Tree>, at: Path, i: nat)
    ensures AllUsable(g, outer, ts) ==> AllValued(outer, ts)
    ensures AllValued(outer, ts) && (forall o | o in InstantiationsOf(ts, at, i) :: o.inst in g.instances) ==>
              AllUsable(g, outer, ts)
    decreases ts
  {
    if ts != [] {
      UsableIsValued(g, outer, ts[0], at + [i]);
      AllUsableIsValued(g, outer, ts[1..], at, i + 1);
    }
  }

  // Runtime code

  /** Entering a scope declares nothing. */
  lemma EnterInScope(outer: Chain, known: set<Name>, chain: Chain)
    requires InScope(outer, known, chain)
    ensures InScope(outer, known, [map[]] + chain)
  {
    forall x
      ensures Lookup([map[]] + chain, x) == Lookup(chain, x)
    {
      EnterKeepsLookup(chain, x);
    }
  }

  lemma DeclareInScope(outer: Chain, known: set<Name>, r: Reading, x: Name, d: Decl)
    requires InScope(outer, known, r.chain) && IntroduceDecl(r, x, d).ok
    ensures InScope(outer, known + {x}, IntroduceDecl(r, x, d).chain)
    ensures x !in known && Lookup(outer, x).None?
  {
    forall y
      ensures Lookup(IntroduceDecl(r, x, d).chain, y) == if y == x then Some(d) else Lookup(r.chain, y)
    {
      IntroduceLookup(r, x, d, y);
    }
    IntroduceLookup(r, x, d, x);
  }

  lemma {:induction false} ExprIsClosed(g: Globals, outer: Chain, known: set<Name>, w: Where, e: Tree, at: Path,
                                        chain: Chain, mode: Mode)
    requires DerivesExpr(e) && !mode.InsideMetaDecl? && Resolves(g, outer) && InScope(outer, known, chain)
    requires Read(w, e, at, chain, mode).ok
    ensures ClosedExpr(g, known, e) <==> Usable(g, outer, e)
    ensures Read(w, e, at, chain, mode).chain == chain
    decreases e, 1
  {
    if e.head.Binary? || e.head.Call? || e.head.MetaInstantiation? {
      ExprsAreClosed(g, outer, known, w, e.head, e.kids, at, 0, chain, mode);
      assert Read(w, e, at, chain, mode).chain == chain;
      if e.head.Binary? {
        var l, r := e.kids[0], e.kids[1];
        assert e.kids[1..] == [r] && [r][1..] == [] && AllUsable(g, outer, []) && ClosedExprs(g, known, []);
        assert AllUsable(g, outer, e.kids) <==> Usable(g, outer, l) && Usable(g, outer, r);
        assert ClosedExprs(g, known, e.kids) <==> ClosedExpr(g, known, l) && ClosedExpr(g, known, r);
      }
    }
  }

  lemma {:induction false} ExprsAreClosed(g: Globals, outer: Chain, known: set<Name>, w: Where, h: Head,
                                          es: seq<Tree>, at: Path, i: nat, chain: Chain, mode: Mode)
    requires DerivesExprs(es) && !mode.InsideMetaDecl? && Resolves(g, outer) && InScope(outer, known, chain)
    requires (h.Binary? || h.Call? || h.MetaInstantiation?) && ReadKids(w, h, es, at, i, chain, mode).ok
    ensures ClosedExprs(g, known, es) <==> AllUsable(g, outer, es)
    ensures ReadKids(w, h, es, at, i, chain, mode).chain == chain
    decreases es, 0
  {
    if es != [] {
      ExprIsClosed(g, outer, known, w, es[0], at + [i], chain, mode);
      ExprsAreClosed(g, outer, known, w, h, es[1..], at, i + 1, chain, mode);
    }
  }

  /** Reading the one expression of a statement. */
  lemma OperandIsClosed(g: Globals, outer: Chain, known: set<Name>, w: Where, t: Tree, at: Path, chain: Chain,
                        mode: Mode)
    requires |t.kids| == 1 && DerivesExpr(t.kids[0]) && KidMode(t.head, 0, mode) == mode && !mode.InsideMetaDecl?
    requires Resolves(g, outer) && InScope(outer, known, chain)
    requires ReadKids(w, t.head, t.kids, at, 0, chain, mode).ok
    ensures ClosedExpr(g, known, t.kids[0]) <==> AllUsable(g, outer, t.kids)
    ensures ReadKids(w, t.head, t.kids, at, 0, chain, mode).chain == chain
  {
    assert t.kids[1..] == [];
    ReadFirstKid(w, t.head, t.kids, at, 0, chain, mode);
    ExprIsClosed(g, outer, known, w, t.kids[0], at + [0], chain, mode);
  }

  /** A derived statement that is read without an error is closed exactly when
      what it refers to has a value and nothing follows a return. */
  lemma {:induction false} StmtIsClosed(g: Globals, outer: Chain, known: set<Name>, w: Where, s: Tree, at: Path,
                                        chain: Chain, stack: DepthStack)
    requires DerivesStatement(s, stack) && !ModeOf(stack).InsideMetaDecl? && Resolves(g, outer)
    requires InScope(outer, known, chain) && Read(w, s, at, chain, ModeOf(stack)).ok
    ensures ClosedStmt(g, known, s) <==> Usable(g, outer, s) && NothingAfterReturn(s)
    ensures InScope(outer, known + Declares(s), Read(w, s, at, chain, ModeOf(stack)).chain)
    decreases s, 1
  {
    hide ClosedExpr, Resolves, InScope, DerivesExpr;
    var mode := ModeOf(stack);
    match s.head
    case DeclStmt(x) =>
      OperandIsClosed(g, outer, known, w, s, at, chain, mode);
      var below := ReadKids(w, s.head, s.kids, at, 0, chain, mode);
      DeclareInScope(outer, known, below, x, DeclAt(w, at, s.head));
      NoValueOutside(g, outer, x);
    case ExpressionStmt =>
      OperandIsClosed(g, outer, known, w, s, at, chain, mode);
      assert known + Declares(s) == known;
    case Return =>
      if s.kids != [] {
        OperandIsClosed(g, outer, known, w, s, at, chain, mode);
      }
      assert Usable(g, outer, s) <==> AllUsable(g, outer, s.kids);
      assert Read(w, s, at, chain, mode).chain == chain;
      assert known + Declares(s) == known;
    case If => IfIsClosed(g, outer, known, w, s, at, chain, stack);
    case Compound =>
      EnterInScope(outer, known, chain);
      StmtsAreClosed(g, outer, known, w, s.head, s.kids, at, 0, [map[]] + chain, stack);
      assert known + Declares(s) == known;
  }

  lemma NoValueOutside(g: Globals, outer: Chain, x: Name)
    requires Resolves(g, outer) && Lookup(outer, x).None?
    ensures !g.Knows(x)
  {
  }

  lemma {:induction false} IfIsClosed(g: Globals, outer: Chain, known: set<Name>, w: Where, s: Tree, at: Path,
                                      chain: Chain, stack: DepthStack)
    requires DerivesStatement(s, stack) && s.head.If? && !ModeOf(stack).InsideMetaDecl? && Resolves(g, outer)
    requires InScope(outer, known, chain) && Read(w, s, at, chain, ModeOf(stack)).ok
    ensures ClosedStmt(g, known, s) <==> Usable(g, outer, s) && NothingAfterReturn(s)
    ensures InScope(outer, known + Declares(s), Read(w, s, at, chain, ModeOf(stack)).chain)
    decreases s, 0
  {
    hide ClosedExpr, Resolves, InScope, DerivesExpr;
    var mode, kids := ModeOf(stack), s.kids;
    assert kids[1..][0] == kids[1] && kids[1..][1..] == kids[2..];
    assert known + Declares(kids[1]) == known && known + Declares(s) == known;
    ReadFirstKid(w, If, kids, at, 0, chain, mode);
    ReadFirstKid(w, If, kids[1..], at, 1, chain, mode);
    ExprIsClosed(g, outer, known, w, kids[0], at + [0], chain, mode);
    StmtIsClosed(g, outer, known, w, kids[1], at + [1], chain, stack);
    assert AllUsable(g, outer, kids) <==>
           Usable(g, outer, kids[0]) && Usable(g, outer, kids[1]) && AllUsable(g, outer, kids[2..]);
    if |kids| == 3 {
      assert kids[2..] == [kids[2]] && kids[2..][1..] == [];
      ReadFirstKid(w, If, kids[2..], at, 2, chain, mode);
      StmtIsClosed(g, outer, known, w, kids[2], at + [2], chain, stack);
      assert AllUsable(g, outer, []) && ReadKids(w, If, [], at, 3, chain, mode).chain == chain;
    } else {
      assert kids[2..] == [] && AllUsable(g, outer, []);
      assert ReadKids(w, If, [], at, 2, chain, mode).chain == chain;
    }
  }

  lemma {:induction false} StmtsAreClosed(g: Globals, outer: Chain, known: set<Name>, w: Where, h: Head,
                                          ss: seq<Tree>, at: Path, i: nat, chain: Chain, stack: DepthStack)
    requires DerivesStatements(ss, stack) && !ModeOf(stack).InsideMetaDecl? && Resolves(g, outer)
    requires (h.Compound? || h.UnscopedCompound?) && InScope(outer, known, chain)
    requires ReadKids(w, h, ss, at, i, chain, ModeOf(stack)).ok
    ensures ClosedStmts(g, known, ss) <==> AllUsable(g, outer, ss) && NothingAfterReturns(ss)
    ensures InScope(outer, known + DeclaresAll(ss), ReadKids(w, h, ss, at, i, chain, ModeOf(stack)).chain)
    decreases ss, 0
  {
    hide ClosedStmt, Resolves, InScope, Usable, NothingAfterReturn, Read;
    if ss == [] {
      assert known + DeclaresAll(ss) == known;
    } else {
      var mode := ModeOf(stack);
      var more := known + Declares(ss[0]);
      StmtIsClosed(g, outer, known, w, ss[0], at + [i], chain, stack);
      StmtsAreClosed(g, outer, more, w, h, ss[1..], at, i + 1, Read(w, ss[0], at + [i], chain, mode).chain, stack);
      assert more + DeclaresAll(ss[1..]) == known + DeclaresAll(ss);
    }
  }

  // Functions

  function ParamsOf(args: seq<Tree>): (ps: Params)
    ensures |ps| == |args|
  {
    if args == [] then []
    else [if args[0].head.NamedArgument? then Some(args[0].head.name) else None] + ParamsOf(args[1..])
  }

  lemma {:induction false} ArgumentsInScope(g: Globals, outer: Chain, known: set<Name>, w: Where, ts: seq<Tree>,
                                            at: Path, i: nat, chain: Chain)
    requires (forall k | k in ts :: DerivesArgument(k)) && Resolves(g, outer) && InScope(outer, known, chain)
    requires ReadKids(w, ArgumentDeclList, ts, at, i, chain, Outside).ok
    ensures FreshParams(g, known, ParamsOf(ts))
    ensures InScope(outer, known + ParamNames(ParamsOf(ts)),
                    ReadKids(w, ArgumentDeclList, ts, at, i, chain, Outside).chain)
    decreases ts
  {
    hide Resolves, InScope;
    var ps := ParamsOf(ts);
    if ts == [] {
      assert known + ParamNames(ps) == known;
    } else {
      assert ts[0] in ts && forall k | k in ts[1..] :: k in ts;
      var first := Read(w, ts[0], at + [i], chain, Outside);
      ReadFirstKid(w, ArgumentDeclList, ts, at, i, chain, Outside);
      assert DerivesArgument(ts[0]);
      assert ps[1..] == ParamsOf(ts[1..]);
      if ts[0].head.NamedArgument? {
        var x := ts[0].head.name;
        DeclareInScope(outer, known, Reading(chain, map[], true), x, DeclAt(w, at + [i], ts[0].head));
        NoValueOutside(g, outer, x);
        ArgumentsInScope(g, outer, known + {x}, w, ts[1..], at, i + 1, first.chain);
        assert known + {x} + ParamNames(ps[1..]) == known + ParamNames(ps);
      } else {
        ArgumentsInScope(g, outer, known, w, ts[1..], at, i + 1, first.chain);
        assert known + ParamNames(ps) == known + ParamNames(ps[1..]);
      }
    }
  }

  /** The scopes outside of a function's body: a named result is visible there,
      but it is no parameter and has no value. */
  function AroundBody(w: Where, t: Tree, outer: Chain): Chain {
    if |t.kids| == 3 && t.kids[1].head.NamedArgument?
    then [map[t.kids[1].head.name := DeclAt(w, [1], t.kids[1].head)]] + outer else outer
  }

  lemma ResultInScope(g: Globals, outer: Chain, known: set<Name>, r: Reading, x: Name, d: Decl)
    requires Resolves(g, outer) && InScope(outer, known, r.chain) && IntroduceDecl(r, x, d).ok && d.head.NamedArgument?
    ensures var around := [map[x := d]] + outer;
            Resolves(g, around) && InScope(around, known, IntroduceDecl(r, x, d).chain)
  {
    var around := [map[x := d]] + outer;
    assert around[1..] == outer;
    forall y
      ensures Lookup(IntroduceDecl(r, x, d).chain, y) == if y == x then Some(d) else Lookup(r.chain, y)
      ensures Lookup(around, y) == if y == x then Some(d) else Lookup(outer, y)
    {
      IntroduceLookup(r, x, d, y);
    }
    IntroduceLookup(r, x, d, x);
    assert Lookup(r.chain, x).None?;
  }

  /** A derived function that is read without an error may be generated exactly
      when its body refers to no meta declaration and not to the named result,
      its instantiations have succeeded, and nothing follows a return. */
  lemma FunctionIsClosed(g: Globals, w: Where, t: Tree, outer: Chain)
    requires DerivesFunction(t, []) && Resolves(g, outer) && outer != [] && Read(w, t, [], outer, Outside).ok
    ensures var body := t.kids[|t.kids| - 1];
            ClosedFunction(g, ParamsOf(t.kids[0].kids), body) <==>
            Usable(g, AroundBody(w, t, outer), body) && NothingAfterReturn(body)
  {
    hide Resolves, InScope, ClosedStmt, Usable, NothingAfterReturn, FreshParams, DerivesStatement, Lookup;
    var kids, n := t.kids, |t.kids| - 1;
    var args, body := kids[0], kids[n];
    var ps := ParamsOf(args.kids);
    var inner := [map[]] + outer;
    var known := {} + ParamNames(ps);
    assert known == ParamNames(ps);
    OuterInScope(outer);
    assert kids[1..][0] == kids[1] && kids[1..][1..] == kids[2..];
    ReadFirstKid(w, t.head, kids, [], 0, inner, Outside);
    ReadFirstKid(w, t.head, kids[1..], [], 1, Read(w, args, [] + [0], inner, Outside).chain, Outside);
    ArgumentsInScope(g, outer, {}, w, args.kids, [] + [0], 0, inner);
    var first := Read(w, args, [] + [0], inner, Outside);
    assert InScope(outer, known, first.chain);
    if n == 2 {
      var second := Read(w, kids[1], [] + [1], first.chain, Outside);
      ReadFirstKid(w, t.head, kids[2..], [], 2, second.chain, Outside);
      assert [] + [1] == [1];
      if kids[1].head.NamedArgument? {
        ResultInScope(g, outer, known, Reading(first.chain, map[], true), kids[1].head.name,
                      DeclAt(w, [1], kids[1].head));
      }
      StmtIsClosed(g, AroundBody(w, t, outer), known, w, body, [] + [2], second.chain, []);
    } else {
      StmtIsClosed(g, outer, known, w, body, [] + [1], first.chain, []);
    }
  }

  /** What generating a unit asks of its functions: derived ones that are read
      without an error become closed once their instantiations succeed, exactly
      when their references have values and nothing follows a return. */
  lemma DerivedIsResolvable(g: Globals, w: Where, t: Tree, outer: Chain)
    requires DerivesFunction(t, []) && Resolves(g, outer) && outer != [] && Read(w, t, [], outer, Outside).ok
    ensures var body := t.kids[|t.kids| - 1];
            Resolvable(FunctionDef(g, ParamsOf(t.kids[0].kids), body)) <==>
            Valued(AroundBody(w, t, outer), body) && NothingAfterReturn(body)
  {
    hide Read, ClosedFunction, Usable, Valued, NothingAfterReturn, Lookup, Instantiations, HasValue;
    var body := t.kids[|t.kids| - 1];
    var def := FunctionDef(g, ParamsOf(t.kids[0].kids), body);
    if Resolvable(def) {
      var h :| SameNames(g, h) && ClosedFunction(h, def.params, body);
      FunctionIsClosed(h, w, t, outer);
      UsableIsValued(h, AroundBody(w, t, outer), body, []);
    }
    if Valued(AroundBody(w, t, outer), body) && NothingAfterReturn(body) {
      var insts := set o | o in Instantiations(body, []) :: o.inst;
      var h := g.(instances := map e | e in insts :: "");
      UsableIsValued(h, AroundBody(w, t, outer), body, []);
      FunctionIsClosed(h, w, t, outer);
      assert SameNames(g, h) && ClosedFunction(h, def.params, body);
    }
  }

  lemma OuterInScope(outer: Chain)
    ensures InScope(outer, {}, [map[]] + outer)
  {
    forall x
      ensures Lookup([map[]] + outer, x) == Lookup(outer, x)
    {
      EnterKeepsLookup(outer, x);
    }
  }

  // Meta declarations

  /** Copied expressions and argument lists neither run nor declare anything. */
  lemma {:induction false} SimpleOnlyCopied(g: Globals, outer: Chain, known: set<Name>, inside: bool, t: Tree)
    requires WellKinded(t) && IsSimple(t.head)
    ensures ClosedMeta(g, known, inside, t) && UsableMeta(g, outer, t) && FlowsOn(t) && DeclaresMeta(t) == {}
    decreases t, 1
  {
    SimpleKidsCopied(g, outer, known, inside, t.head, [], t.kids);
  }

  lemma {:induction false} SimpleKidsCopied(g: Globals, outer: Chain, known: set<Name>, inside: bool, h: Head,
                                            done: seq<Head>, ts: seq<Tree>)
    requires KidsFit(h, done, ts) && (IsSimple(h) || h.Return? || h.ExpressionStmt? || h.DeclStmt?)
    ensures ClosedMetas(g, known, inside, ts) && AllUsableMeta(g, outer, ts) && AllFlowOn(ts) && DeclaresMetas(ts) == {}
    decreases ts, 0
  {
    hide ClosedMeta, UsableMeta, FlowsOn, DeclaresMeta, WellKinded;
    if ts != [] {
      SimpleOnlyCopied(g, outer, known, inside, ts[0]);
      SimpleKidsCopied(g, outer, known, inside, h, done + [ts[0].head], ts[1..]);
      assert known + DeclaresMeta(ts[0]) == known;
    }
  }

  /** Reading what is only copied declares nothing. */
  lemma {:induction false} SimpleKeepsScope(w: Where, t: Tree, at: Path, chain: Chain)
    requires WellKinded(t) && IsSimple(t.head)
    ensures Read(w, t, at, chain, InsideMetaDecl).chain == chain
    decreases t, 1
  {
    SimpleKidsKeepScope(w, t.head, [], t.kids, at, 0, chain);
  }

  lemma {:induction false} SimpleKidsKeepScope(w: Where, h: Head, done: seq<Head>, ts: seq<Tree>, at: Path, i: nat,
                                               chain: Chain)
    requires KidsFit(h, done, ts) && (IsSimple(h) || h.Return? || h.ExpressionStmt? || h.DeclStmt?)
    ensures ReadKids(w, h, ts, at, i, chain, InsideMetaDecl).chain == chain
    decreases ts, 0
  {
    hide Read, WellKinded;
    if ts != [] {
      SimpleKeepsScope(w, ts[0], at + [i], chain);
      SimpleKidsKeepScope(w, h, done + [ts[0].head], ts[1..], at, i + 1, chain);
    }
  }

  /** What reading and closedness of a meta tree have to do with each other. */
  ghost predicate MetaFits(g: Globals, outer: Chain, known: set<Name>, inside: bool, w: Where, t: Tree, at: Path,
                           chain: Chain)
  {
    (ClosedMeta(g, known, inside, t) <==> UsableMeta(g, outer, t) && FlowsOn(t)) &&
    InScope(outer, known + DeclaresMeta(t), Read(w, t, at, chain, InsideMetaDecl).chain)
  }

  ghost predicate MetasFit(g: Globals, outer: Chain, known: set<Name>, inside: bool, w: Where, h: Head, ts: seq<Tree>,
                           at: Path, i: nat, chain: Chain)
  {
    (ClosedMetas(g, known, inside, ts) <==> AllUsableMeta(g, outer, ts) && AllFlowOn(ts)) &&
    InScope(outer, known + DeclaresMetas(ts), ReadKids(w, h, ts, at, i, chain, InsideMetaDecl).chain)
  }

  /** The first of several trees, then the others. */
  lemma FitsThen(g: Globals, outer: Chain, known: set<Name>, inside: bool, w: Where, h: Head, ts: seq<Tree>,
                 at: Path, i: nat, chain: Chain)
    requires ts != [] && KidMode(h, i, InsideMetaDecl) == InsideMetaDecl
    requires MetaFits(g, outer, known, inside, w, ts[0], at + [i], chain)
    requires var next := Read(w, ts[0], at + [i], chain, InsideMetaDecl).chain;
             MetasFit(g, outer, known + DeclaresMeta(ts[0]), inside, w, h, ts[1..], at, i + 1, next)
    ensures MetasFit(g, outer, known, inside, w, h, ts, at, i, chain)
  {
    assert known + DeclaresMeta(ts[0]) + DeclaresMetas(ts[1..]) == known + DeclaresMetas(ts);
  }

  lemma FitsNone(g: Globals, outer: Chain, known: set<Name>, inside: bool, w: Where, h: Head, at: Path, i: nat,
                 chain: Chain)
    requires InScope(outer, known, chain)
    ensures MetasFit(g, outer, known, inside, w, h, [], at, i, chain)
  {
    assert known + DeclaresMetas([]) == known;
  }

  lemma FitsCopied(g: Globals, outer: Chain, known: set<Name>, inside: bool, w: Where, t: Tree, at: Path, chain: Chain)
    requires WellKinded(t) && IsSimple(t.head) && InScope(outer, known, chain)
    ensures MetaFits(g, outer, known, inside, w, t, at, chain)
    ensures Read(w, t, at, chain, InsideMetaDecl).chain == chain && known + DeclaresMeta(t) == known
  {
    SimpleOnlyCopied(g, outer, known, inside, t);
    SimpleKeepsScope(w, t, at, chain);
    assert known + DeclaresMeta(t) == known;
  }

  /** A copied node around trees that fit. */
  lemma FitsNode(g: Globals, outer: Chain, known: set<Name>, inside: bool, w: Where, t: Tree, at: Path, chain: Chain)
    requires !t.head.MetaIf? && !t.head.MetaCalculation? && !t.head.MetaDecl? && !t.head.MetaUnit?
    requires t.head.FunctionDecl? ==> !inside
    requires InScope(outer, known, chain)
    requires MetasFit(g, outer, known, Deeper(inside, t.head), w, t.head, t.kids, at, 0,
                      if Opens(t.head) then [map[]] + chain else chain)
    ensures MetaFits(g, outer, known, inside, w, t, at, chain)
  {
    var inner := if Opens(t.head) then [map[]] + chain else chain;
    var below := ReadKids(w, t.head, t.kids, at, 0, inner, InsideMetaDecl);
    assert known + DeclaresMeta(t) == if Opens(t.head) then known else known + DeclaresMetas(t.kids);
    assert Read(w, t, at, chain, InsideMetaDecl).chain == if Opens(t.head) then chain else below.chain;
    assert UsableMeta(g, outer, t) <==> AllUsableMeta(g, outer, t.kids);
    assert FlowsOn(t) <==> AllFlowOn(t.kids);
    assert ClosedMeta(g, known, inside, t) <==> ClosedMetas(g, known, Deeper(inside, t.head), t.kids);
  }

  lemma {:induction false} CopiedStmtFits(g: Globals, outer: Chain, known: set<Name>, w: Where, t: Tree, at: Path,
                                          chain: Chain, stack: DepthStack)
    requires DerivesStatement(t, stack) && IsInMetaDepth(stack, LocalScope) && Resolves(g, outer)
    requires InScope(outer, known, chain) && Read(w, t, at, chain, InsideMetaDecl).ok
    ensures MetaFits(g, outer, known, true, w, t, at, chain)
    decreases t, 2
  {
    hide Resolves, InScope, DerivesStatement, MetaFits;
    DerivedHead(t, stack);
    match t.head
    case DeclStmt(_) | ExpressionStmt | Return =>
      StatementFits(t, stack);
      SimpleKidsCopied(g, outer, known, true, t.head, [], t.kids);
      SimpleKidsKeepScope(w, t.head, [], t.kids, at, 0, chain);
      assert known + DeclaresMetas(t.kids) == known;
      FitsNode(g, outer, known, true, w, t, at, chain);
    case If =>
      CopiedIfFits(g, outer, known, w, t, at, chain, stack);
    case Compound =>
      EnterInScope(outer, known, chain);
      DerivedList(t, stack);
      CopiedStmtsFit(g, outer, known, w, Compound, t.kids, at, 0, [map[]] + chain, stack);
      FitsNode(g, outer, known, true, w, t, at, chain);
    case MetaIf | MetaCalculation =>
      DerivedMeta(t, stack);
      MetaStmtIsClosed(g, outer, known, w, t, at, chain, stack);
  }

  lemma DerivedHead(t: Tree, stack: DepthStack)
    requires DerivesStatement(t, stack)
    ensures t.head.DeclStmt? || t.head.ExpressionStmt? || t.head.Return? || t.head.If? || t.head.Compound? ||
            t.head.MetaIf? || t.head.MetaCalculation?
  {
  }

  lemma DerivedNode(t: Tree, stack: DepthStack)
    requires DerivesScopeNode(t, stack) && IsInMetaDepth(stack, GlobalScope)
    ensures if t.head.FunctionDecl? then DerivesFunction(t, stack) else DerivesMetaStmt(t, stack)
  {
    assert DerivesRuntimeNode(t, stack);
    assert DerivesMetaStmt(t, stack) ==> t.head.MetaIf? || t.head.MetaCalculation?;
  }

  lemma DerivedList(t: Tree, stack: DepthStack)
    requires DerivesStatement(t, stack) && t.head.Compound?
    ensures DerivesStatements(t.kids, stack)
  {
  }

  lemma DerivedMeta(t: Tree, stack: DepthStack)
    requires DerivesStatement(t, stack) && (t.head.MetaIf? || t.head.MetaCalculation?)
    ensures DerivesMetaStmt(t, stack)
  {
  }

  lemma {:induction false} CopiedIfFits(g: Globals, outer: Chain, known: set<Name>, w: Where, t: Tree, at: Path,
                                        chain: Chain, stack: DepthStack)
    requires DerivesStatement(t, stack) && IsInMetaDepth(stack, LocalScope) && Resolves(g, outer) && t.head.If?
    requires InScope(outer, known, chain) && Read(w, t, at, chain, InsideMetaDecl).ok
    ensures MetaFits(g, outer, known, true, w, t, at, chain)
    decreases t, 0
  {
    hide Resolves, InScope, MetaFits, MetasFit, WellKinded;
    var kids := t.kids;
    ExprFits(kids[0]);
    ReadFirstKid(w, If, kids, at, 0, chain, InsideMetaDecl);
    FitsCopied(g, outer, known, true, w, kids[0], at + [0], chain);
    assert DerivesStatements(kids[1..], stack) by {
      assert kids[1..][1..] == kids[2..];
      if |kids| == 3 {
        assert kids[2..] == [kids[2]] && kids[2..][1..] == [] && DerivesStatements([], stack);
      }
    }
    CopiedStmtsFit(g, outer, known, w, If, kids[1..], at, 1, chain, stack);
    FitsThen(g, outer, known, true, w, If, kids, at, 0, chain);
    FitsNode(g, outer, known, true, w, t, at, chain);
  }

  lemma {:induction false} CopiedStmtsFit(g: Globals, outer: Chain, known: set<Name>, w: Where, h: Head, ts: seq<Tree>,
                                          at: Path, i: nat, chain: Chain, stack: DepthStack)
    requires DerivesStatements(ts, stack) && IsInMetaDepth(stack, LocalScope) && Resolves(g, outer)
    requires (h.Compound? || h.If?) && InScope(outer, known, chain)
    requires ReadKids(w, h, ts, at, i, chain, InsideMetaDecl).ok
    ensures MetasFit(g, outer, known, true, w, h, ts, at, i, chain)
    decreases ts, 0
  {
    hide Resolves, InScope, MetasFit, DerivesStatement, Read;
    if ts == [] {
      FitsNone(g, outer, known, true, w, h, at, i, chain);
    } else {
      var next := Read(w, ts[0], at + [i], chain, InsideMetaDecl).chain;
      ReadFirstKid(w, h, ts, at, i, chain, InsideMetaDecl);
      CopiedStmtFits(g, outer, known, w, ts[0], at + [i], chain, stack);
      CopiedStmtsFit(g, outer, known + DeclaresMeta(ts[0]), w, h, ts[1..], at, i + 1, next, stack);
      FitsThen(g, outer, known, true, w, h, ts, at, i, chain);
    }
  }

  /** A derived meta statement that is read without an error is closed exactly
      when what it refers to has a value and its calculations flow on. */
  lemma {:induction false} MetaStmtIsClosed(g: Globals, outer: Chain, known: set<Name>, w: Where, t: Tree, at: Path,
                                            chain: Chain, stack: DepthStack)
    requires DerivesMetaStmt(t, stack) && (IsInMetaDepth(stack, GlobalScope) || IsInMetaDepth(stack, LocalScope))
    requires Resolves(g, outer) && InScope(outer, known, chain) && Read(w, t, at, chain, InsideMetaDecl).ok
    ensures MetaFits(g, outer, known, IsInMetaDepth(stack, LocalScope), w, t, at, chain)
    decreases t, 1
  {
    hide Resolves, InScope, MetaFits, Read;
    if t.head.MetaCalculation? {
      CalculationIsClosed(g, outer, known, IsInMetaDepth(stack, LocalScope), w, t, at, chain, stack);
    } else {
      MetaIfIsClosed(g, outer, known, w, t, at, chain, stack);
    }
  }

  lemma CalculationIsClosed(g: Globals, outer: Chain, known: set<Name>, inside: bool, w: Where, t: Tree, at: Path,
                            chain: Chain, stack: DepthStack)
    requires DerivesMetaStmt(t, stack) && t.head.MetaCalculation? && Resolves(g, outer) && InScope(outer, known, chain)
    requires Read(w, t, at, chain, InsideMetaDecl).ok
    ensures MetaFits(g, outer, known, inside, w, t, at, chain)
  {
    hide Resolves, InScope, ClosedStmts, AllUsable, NothingAfterReturns, DerivesStatements, AllCompoundBranches;
    var block, inner := t.kids[0], stack + [NoScope];
    assert t.kids[1..] == [] && ModeOf(inner) == InsideComputation;
    StatementsFit(UnscopedCompound, [], block.kids, inner);
    ReadFirstKid(w, t.head, t.kids, at, 0, chain, InsideMetaDecl);
    StmtsAreClosed(g, outer, known, w, UnscopedCompound, block.kids, at + [0], 0, chain, inner);
    assert Read(w, t, at, chain, InsideMetaDecl).chain ==
           ReadKids(w, UnscopedCompound, block.kids, at + [0], 0, chain, InsideComputation).chain;
  }

  lemma {:induction false} MetaIfIsClosed(g: Globals, outer: Chain, known: set<Name>, w: Where, t: Tree, at: Path,
                                          chain: Chain, stack: DepthStack)
    requires DerivesMetaStmt(t, stack) && (IsInMetaDepth(stack, GlobalScope) || IsInMetaDepth(stack, LocalScope))
    requires Resolves(g, outer) && InScope(outer, known, chain) && Read(w, t, at, chain, InsideMetaDecl).ok
    requires t.head.MetaIf?
    ensures MetaFits(g, outer, known, IsInMetaDepth(stack, LocalScope), w, t, at, chain)
    decreases t, 0
  {
    hide Resolves, InScope, ClosedExpr, Usable, DerivesExpr;
    var kids, inside := t.kids, IsInMetaDepth(stack, LocalScope);
    assert kids[1..][0] == kids[1] && kids[1..][1..] == kids[2..];
    ReadFirstKid(w, MetaIf, kids, at, 0, chain, InsideMetaDecl);
    ReadFirstKid(w, MetaIf, kids[1..], at, 1, chain, InsideMetaDecl);
    ExprIsClosed(g, outer, known, w, kids[0], at + [0], chain, InsideComputation);
    ContributionIsClosed(g, outer, known, w, kids[1], at + [1], chain, stack);
    var more := known + DeclaresMeta(kids[1]);
    var next := Read(w, kids[1], at + [1], chain, InsideMetaDecl).chain;
    if |kids| == 3 {
      assert kids[2..] == [kids[2]] && kids[2..][1..] == [];
      ReadFirstKid(w, MetaIf, kids[2..], at, 2, next, InsideMetaDecl);
      ContributionIsClosed(g, outer, more, w, kids[2], at + [2], next, stack);
      assert more + DeclaresMeta(kids[2]) == known + DeclaresMeta(t);
    } else {
      assert kids[2..] == [] && ReadKids(w, MetaIf, [], at, 2, next, InsideMetaDecl).chain == next;
      assert more == known + DeclaresMeta(t);
    }
  }

  lemma {:induction false} ContributionIsClosed(g: Globals, outer: Chain, known: set<Name>, w: Where, t: Tree,
                                                at: Path, chain: Chain, stack: DepthStack)
    requires DerivesContribution(t, stack) && (IsInMetaDepth(stack, GlobalScope) || IsInMetaDepth(stack, LocalScope))
    requires Resolves(g, outer) && InScope(outer, known, chain) && Read(w, t, at, chain, InsideMetaDecl).ok
    ensures MetaFits(g, outer, known, IsInMetaDepth(stack, LocalScope), w, t, at, chain)
    decreases t, 0
  {
    hide Resolves, InScope, MetaFits, MetasFit;
    ScopeNodesAreClosed(g, outer, known, w, t.kids, at, 0, chain, stack);
    FitsNode(g, outer, known, IsInMetaDepth(stack, LocalScope), w, t, at, chain);
  }

  lemma {:induction false} ScopeNodesAreClosed(g: Globals, outer: Chain, known: set<Name>, w: Where, ts: seq<Tree>,
                                               at: Path, i: nat, chain: Chain, stack: DepthStack)
    requires DerivesScopeNodes(ts, stack) && (IsInMetaDepth(stack, GlobalScope) || IsInMetaDepth(stack, LocalScope))
    requires Resolves(g, outer) && InScope(outer, known, chain)
    requires ReadKids(w, MetaContribution, ts, at, i, chain, InsideMetaDecl).ok
    ensures MetasFit(g, outer, known, IsInMetaDepth(stack, LocalScope), w, MetaContribution, ts, at, i, chain)
    decreases ts, 0
  {
    hide Resolves, InScope, MetasFit, DerivesStatement, Read;
    var inside := IsInMetaDepth(stack, LocalScope);
    if ts == [] {
      FitsNone(g, outer, known, inside, w, MetaContribution, at, i, chain);
    } else {
      var next := Read(w, ts[0], at + [i], chain, InsideMetaDecl).chain;
      ReadFirstKid(w, MetaContribution, ts, at, i, chain, InsideMetaDecl);
      if inside {
        CopiedStmtFits(g, outer, known, w, ts[0], at + [i], chain, stack);
      } else if ts[0].head.FunctionDecl? {
        DerivedNode(ts[0], stack);
        CopiedFunctionFits(g, outer, known, w, ts[0], at + [i], chain, stack);
      } else {
        DerivedNode(ts[0], stack);
        MetaStmtIsClosed(g, outer, known, w, ts[0], at + [i], chain, stack);
      }
      ScopeNodesAreClosed(g, outer, known + DeclaresMeta(ts[0]), w, ts[1..], at, i + 1, next, stack);
      FitsThen(g, outer, known, inside, w, MetaContribution, ts, at, i, chain);
    }
  }

  lemma {:induction false} CopiedFunctionFits(g: Globals, outer: Chain, known: set<Name>, w: Where, t: Tree, at: Path,
                                              chain: Chain, stack: DepthStack)
    requires DerivesFunction(t, stack) && IsInMetaDepth(stack, GlobalScope) && Resolves(g, outer)
    requires InScope(outer, known, chain) && Read(w, t, at, chain, InsideMetaDecl).ok
    ensures MetaFits(g, outer, known, false, w, t, at, chain)
    decreases t, 0
  {
    hide Resolves, InScope, MetaFits, MetasFit, DerivesStatement, WellKinded, Read, ReadKids;
    var kids, inner := t.kids, [map[]] + chain;
    var n := |kids| - 1;
    ReadIsKids(w, t, at, 0, chain, InsideMetaDecl);
    EnterInScope(outer, known, chain);
    ArgumentsFit(kids[0]);
    ReadFirstKid(w, t.head, kids, at, 0, inner, InsideMetaDecl);
    FitsCopied(g, outer, known, true, w, kids[0], at + [0], inner);
    if n == 2 {
      ArgumentFits(kids[1]);
      assert kids[1..][1..] == kids[2..];
      ReadFirstKid(w, t.head, kids[1..], at, 1, inner, InsideMetaDecl);
      FitsCopied(g, outer, known, true, w, kids[1], at + [1], inner);
      BodyFits(g, outer, known, w, t, at, inner, stack);
      FitsThen(g, outer, known, true, w, t.head, kids[1..], at, 1, inner);
    } else {
      BodyFits(g, outer, known, w, t, at, inner, stack);
    }
    FitsThen(g, outer, known, true, w, t.head, kids, at, 0, inner);
    FitsNode(g, outer, known, false, w, t, at, chain);
  }

  /** The body is the last child. */
  lemma {:induction false} BodyFits(g: Globals, outer: Chain, known: set<Name>, w: Where, t: Tree, at: Path,
                                    inner: Chain, stack: DepthStack)
    requires DerivesFunction(t, stack) && IsInMetaDepth(stack, GlobalScope) && Resolves(g, outer)
    requires InScope(outer, known, inner)
    requires var n := |t.kids| - 1; ReadKids(w, t.head, t.kids[n..], at, n, inner, InsideMetaDecl).ok
    ensures var n := |t.kids| - 1; MetasFit(g, outer, known, true, w, t.head, t.kids[n..], at, n, inner)
    decreases t, 0, 0
  {
    hide Resolves, InScope, MetaFits, MetasFit, DerivesStatement, DerivesArguments, DerivesArgument;
    var n := |t.kids| - 1;
    var body := t.kids[n];
    assert t.kids[n..] == [body] && [body][1..] == [];
    assert IsInMetaDepth(stack + [LocalScope], LocalScope);
    ReadFirstKid(w, t.head, [body], at, n, inner, InsideMetaDecl);
    CopiedStmtFits(g, outer, known, w, body, at + [n], inner, stack + [LocalScope]);
    assert InScope(outer, known + DeclaresMeta(body), Read(w, body, at + [n], inner, InsideMetaDecl).chain) by {
      MetaFitsScope(g, outer, known, true, w, body, at + [n], inner);
    }
    FitsNone(g, outer, known + DeclaresMeta(body), true, w, t.head, at, n + 1,
             Read(w, body, at + [n], inner, InsideMetaDecl).chain);
    FitsThen(g, outer, known, true, w, t.head, [body], at, n, inner);
  }

  lemma MetaFitsScope(g: Globals, outer: Chain, known: set<Name>, inside: bool, w: Where, t: Tree, at: Path,
                      chain: Chain)
    requires MetaFits(g, outer, known, inside, w, t, at, chain)
    ensures InScope(outer, known + DeclaresMeta(t), Read(w, t, at, chain, InsideMetaDecl).chain)
  {
  }

  /** A derived meta declaration that is read without an error may be staged
      exactly when what it refers to at compile time has a value, its
      instantiations have succeeded, and its calculations flow on. */
  lemma MetaDeclIsClosed(g: Globals, w: Where, t: Tree, outer: Chain)
    requires DerivesMetaDecl(t, []) && Resolves(g, outer) && outer != [] && Read(w, t, [], outer, Outside).ok
    ensures ClosedMetaFunction(g, ParamsOf(t.kids[0].kids), t.kids[1]) <==>
            UsableMeta(g, outer, t.kids[1]) && FlowsOn(t.kids[1])
  {
    hide Resolves, InScope, ClosedMeta, UsableMeta, FlowsOn, FreshParams, DerivesContribution, Lookup;
    var args, contribution := t.kids[0], t.kids[1];
    var ps, inner := ParamsOf(args.kids), [map[]] + outer;
    var known := {} + ParamNames(ps);
    assert known == ParamNames(ps);
    assert t.kids[1..] == [contribution] && [contribution][1..] == [] && [] + [GlobalScope] == [GlobalScope];
    OuterInScope(outer);
    var first := Read(w, args, [] + [0], inner, Outside);
    ReadFirstKid(w, t.head, t.kids, [], 0, inner, Outside);
    ReadFirstKid(w, t.head, [contribution], [], 1, first.chain, Outside);
    ArgumentsInScope(g, outer, {}, w, args.kids, [] + [0], 0, inner);
    ContributionIsClosed(g, outer, known, w, contribution, [] + [1], first.chain, [GlobalScope]);
  }

  // Units

  /** Whatever a unit declares may be generated or staged once it is derived and
      read without an error, under the conditions that are left. */
  lemma UnitIsClosed(g: Globals, u: nat, outer: Chain, t: Tree)
    requires DerivesUnit(t) && ReadUnit(u, None, outer, t.kids).ok
    requires Resolves(g, ReadUnit(u, None, outer, t.kids).top.chain)
    ensures var chain := ReadUnit(u, None, outer, t.kids).top.chain;
            forall k | k in t.kids :: MayBeGenerated(g, Where(u, k.head), k, chain)
  {
    hide Resolves, Read, ReadTops, AllOk, WellKinded, DerivesFunction, DerivesMetaDecl, MayReadAll;
    var chain := ReadUnit(u, None, outer, t.kids).top.chain;
    UnitFits(t);
    UnitIntroduced(u, None, outer, t.kids);
    ReadsApart(u, t.kids, chain);
    forall k | k in t.kids
      ensures MayBeGenerated(g, Where(u, k.head), k, chain)
    {
      DerivedTop(k);
      assert ReadTop(u, k, chain).ok;
      if k.head.FunctionDecl? {
        FunctionIsClosed(g, Where(u, k.head), k, chain);
      } else {
        MetaDeclIsClosed(g, Where(u, k.head), k, chain);
      }
    }
  }

  lemma DerivedTop(t: Tree)
    requires DerivesRuntimeNode(t, []) || DerivesMetaDecl(t, [])
    ensures if t.head.FunctionDecl? then DerivesFunction(t, []) && 2 <= |t.kids|
            else DerivesMetaDecl(t, []) && t.head.MetaDecl? && |t.kids| == 2
  {
  }

  /** What is left to check of a function or a meta declaration decides whether
      it may be generated. */
  ghost predicate MayBeGenerated(g: Globals, w: Where, t: Tree, outer: Chain) {
    if t.head.FunctionDecl? then
      |t.kids| >= 2 &&
      var body := t.kids[|t.kids| - 1];
      (ClosedFunction(g, ParamsOf(t.kids[0].kids), body) <==>
       Usable(g, AroundBody(w, t, outer), body) && NothingAfterReturn(body))
    else
      |t.kids| == 2 &&
      (ClosedMetaFunction(g, ParamsOf(t.kids[0].kids), t.kids[1]) <==>
       UsableMeta(g, outer, t.kids[1]) && FlowsOn(t.kids[1]))
  }

  /** From the grammar to the machine: a derived function that is read without
      an error and passes what is left to check is generated into a well-formed
      graph, and a call of it returns what the function means. */
  lemma DerivedFunctionMeans(g: Globals, call: Oracle, w: Where, t: Tree, outer: Chain, args: seq<int>)
    requires DerivesFunction(t, []) && Resolves(g, outer) && outer != [] && Read(w, t, [], outer, Outside).ok
    requires var body := t.kids[|t.kids| - 1]; Usable(g, AroundBody(w, t, outer), body) && NothingAfterReturn(body)
    requires |args| == |t.kids[0].kids|
    ensures var ps, body := ParamsOf(t.kids[0].kids), t.kids[|t.kids| - 1];
            WellFormed(GenFunction(g, ps, body)) &&
            Run(GenFunction(g, ps, body), call, args) == Ended(Exec(g, call, body, Bind(map[], ps, args)))
  {
    hide Resolves, Read, Usable, NothingAfterReturn, ClosedFunction, Run, GenFunction, Exec, Bind, WellFormed;
    var ps, body := ParamsOf(t.kids[0].kids), t.kids[|t.kids| - 1];
    FunctionIsClosed(g, w, t, outer);
    FunctionWellFormed(g, ps, body);
    FunctionMeans(g, call, ps, body, args);
  }

  /** From the grammar to the instantiation: running a derived declaration that
      is read without an error, and reading back what it wrote, is direct
      specialisation. */
  lemma DerivedStaging(g: Globals, call: Oracle, w: Where, t: Tree, outer: Chain, args: seq<int>)
    requires DerivesMetaDecl(t, []) && Resolves(g, outer) && outer != [] && Read(w, t, [], outer, Outside).ok
    requires UsableMeta(g, outer, t.kids[1]) && FlowsOn(t.kids[1])
    requires |args| == |t.kids[0].kids|
    ensures var ps := ParamsOf(t.kids[0].kids);
            InstantiateByRunning(g, call, t.head.name, ps, t.kids[1], args) ==
            ReadBack(t.head.name, Instantiated(g, call, ps, t.kids[1], args))
  {
    hide Resolves, Read, UsableMeta, FlowsOn, ClosedMetaFunction, InstantiateByRunning, Instantiated,
         ReadBack, Derivable;
    var ps := ParamsOf(t.kids[0].kids);
    MetaDeclIsClosed(g, w, t, outer);
    MetaDeclFits(t);
    ContributionFits(t.kids[1], [] + [GlobalScope]);
    StagingIsSpecialisation(g, call, t.head.name, ps, t.kids[1], args);
  }

  /** `f() int r -> return r;` */
  function NamedResult(): Tree {
    Tree(FunctionDecl("f"), [Tree(ArgumentDeclList, []), Tree(NamedArgument("r"), []), ReturnIt()])
  }

  function ReturnIt(): Tree {
    Tree(Return, [Tree(DeclRef("r"), [])])
  }

  lemma ReturnItIsRead(w: Where, at: Path, chain: Chain)
    requires Lookup(chain, "r").Some?
    ensures Read(w, ReturnIt(), at, chain, Outside).ok
  {
    var reference := Tree(DeclRef("r"), []);
    assert [reference][1..] == [];
    ReadFirstKid(w, Return, [reference], at, 0, chain, Outside);
  }

  lemma NamedResultIsRead(w: Where, outer: Chain)
    requires outer != [] && Lookup(outer, "r").None?
    ensures Read(w, NamedResult(), [], outer, Outside).ok
  {
    hide Read, ReturnIt;
    var args, result, body := Tree(ArgumentDeclList, []), Tree(NamedArgument("r"), []), ReturnIt();
    var f := FunctionDecl("f");
    var kids, inner := [args, result, body], [map[]] + outer;
    var d := DeclAt(w, [] + [1], result.head);
    assert kids[1..] == [result, body] && [result, body][1..] == [body] && [body][1..] == [];
    assert inner[1..] == outer;
    assert Read(w, args, [] + [0], inner, Outside) == Reading(inner, map[], true) by {
      LeavesAreRead(w, inner);
    }
    assert Read(w, result, [] + [1], inner, Outside) == IntroduceDecl(Reading(inner, map[], true), "r", d) by {
      LeavesAreRead(w, inner);
    }
    var after := IntroduceDecl(Reading(inner, map[], true), "r", d);
    IntroduceLookup(Reading(inner, map[], true), "r", d, "r");
    ReturnItIsRead(w, [] + [2], after.chain);
    ReadFirstKid(w, f, [body], [], 2, after.chain, Outside);
    ReadFirstKid(w, f, [result, body], [], 1, inner, Outside);
    ReadFirstKid(w, f, kids, [], 0, inner, Outside);
    FunctionIsRead(w, outer);
  }

  lemma LeavesAreRead(w: Where, chain: Chain)
    ensures Read(w, Tree(ArgumentDeclList, []), [] + [0], chain, Outside) == Reading(chain, map[], true)
    ensures Read(w, Tree(NamedArgument("r"), []), [] + [1], chain, Outside) ==
            IntroduceDecl(Reading(chain, map[], true), "r", DeclAt(w, [] + [1], NamedArgument("r")))
  {
  }

  lemma FunctionIsRead(w: Where, outer: Chain)
    ensures Read(w, NamedResult(), [], outer, Outside).ok ==
            ReadKids(w, FunctionDecl("f"), NamedResult().kids, [], 0, [map[]] + outer, Outside).ok
  {
  }

  /** The grammar derives the function and the reader binds the reference to the
      named result, for which no value is ever generated. */
  lemma NamedResultExample(g: Globals, w: Where, outer: Chain)
    requires Resolves(g, outer) && outer != [] && Lookup(outer, "r").None?
    ensures DerivesFunction(NamedResult(), []) && Read(w, NamedResult(), [], outer, Outside).ok
    ensures !ClosedFunction(g, [], ReturnIt())
  {
    hide Read;
    var reference, f := Tree(DeclRef("r"), []), NamedResult();
    assert [reference][1..] == [] && [] + [1] == [1];
    var d := DeclAt(w, [1], NamedArgument("r"));
    NamedResultIsRead(w, outer);
    FunctionIsClosed(g, w, f, outer);
    assert AroundBody(w, f, outer) == [map["r" := d]] + outer;
    assert Lookup(AroundBody(w, f, outer), "r") == Some(d);
    assert !Usable(g, AroundBody(w, f, outer), reference);
    assert !Usable(g, AroundBody(w, f, outer), ReturnIt());
  }
}
