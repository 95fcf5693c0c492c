/** The code of a whole unit: a worklist of the functions that still have to be
    generated (src/Codegen/CodegenInstance.cpp). */
module CodegenInstances {
  import opened Wrappers
  import opened Ast
  import opened Machine
  import opened Semantics
  import opened Graph
  import opened FunctionCodegen
  import opened Runs
  import opened FunctionGeneration
  import opened DependencyAnalysis
  import opened Symbols

  /** A generated function: how many arguments it takes, and its blocks. */
  datatype Generated = Generated(arity: nat, blocks: Cfg)

  type Module = map<Sym, Generated>

  /** The top-level nodes of a unit, as far as the worklist is concerned. */
  datatype UnitChild = FunctionNode(sym: Sym) | OtherNode(head: Head)

  ghost predicate SameNames(g: Globals, h: Globals) {
    g.functions == h.functions && g.constants == h.constants
  }

  /** Every instantiation in the function succeeds. */
  ghost predicate Instantiable(def: FunctionDef) {
    forall o | o in Instantiations(def.body, []) :: o.inst in def.g.instances
  }

  /** The function is closed once its instantiations succeed. */
  ghost predicate Resolvable(def: FunctionDef) {
    exists h :: SameNames(def.g, h) && ClosedFunction(h, def.params, def.body)
  }

  /** The functions a function depends on: those its code mentions and those
      its instantiations export. */
  ghost predicate DependsOn(def: FunctionDef, s: Sym) {
    s in Mentions(def.g, def.body) ||
    exists o :: o in Instantiations(def.body, []) && o.inst in def.g.instances && s == def.g.instances[o.inst]
  }

  /** Symbols belong to functions of the program. */
  ghost predicate SymbolsResolve(p: Program) {
    forall f, s | f in p && DependsOn(p[f], s) :: s in p
  }

  /** A set of functions that holds the roots and all their dependencies. */
  ghost predicate Closure(p: Program, roots: set<Sym>, fs: set<Sym>) {
    roots <= fs && forall f, s | f in fs && f in p && DependsOn(p[f], s) :: s in fs
  }

  ghost predicate Needed(p: Program, roots: set<Sym>, s: Sym) {
    forall fs: set<Sym> | Closure(p, roots, fs) :: s in fs
  }

  lemma NeededNext(p: Program, roots: set<Sym>, f: Sym, s: Sym)
    requires Needed(p, roots, f) && f in p && DependsOn(p[f], s)
    ensures Needed(p, roots, s)
  {
  }

  lemma {:induction false} InstantiatedExprIsClosed(g: Globals, h: Globals, known: set<Name>, e: Tree, at: Path)
    requires SameNames(g, h) && ClosedExpr(h, known, e)
    requires forall o | o in Instantiations(e, at) :: o.inst in g.instances
    ensures ClosedExpr(g, known, e)
    decreases e, 0
  {
    match e.head
    case MetaInstantiation => assert Instantiations(e, at)[0] == Occurrence(at, e);
    case Binary(_) =>
      ChildInstantiations(e, at, 0);
      ChildInstantiations(e, at, 1);
      InstantiatedExprIsClosed(g, h, known, e.kids[0], at + [0]);
      InstantiatedExprIsClosed(g, h, known, e.kids[1], at + [1]);
    case Call => InstantiatedExprsAreClosed(g, h, known, e.kids, at, 0);
    case _ =>
  }

  lemma {:induction false} InstantiatedExprsAreClosed(g: Globals, h: Globals, known: set<Name>, es: seq<Tree>,
                                                      at: Path, i: nat)
    requires SameNames(g, h) && ClosedExprs(h, known, es)
    requires forall o | o in InstantiationsOf(es, at, i) :: o.inst in g.instances
    ensures ClosedExprs(g, known, es)
    decreases es
  {
    if es != [] {
      InstantiatedExprIsClosed(g, h, known, es[0], at + [i]);
      InstantiatedExprsAreClosed(g, h, known, es[1..], at, i + 1);
    }
  }

  lemma {:induction false} KidInstantiations(ts: seq<Tree>, at: Path, i: nat, k: nat)
    requires k < |ts|
    ensures forall o | o in Instantiations(ts[k], at + [i + k]) :: o in InstantiationsOf(ts, at, i)
    decreases ts
  {
    if k != 0 {
      KidInstantiations(ts[1..], at, i + 1, k - 1);
    }
  }

  /** The instantiations below a child are below its parent. */
  lemma ChildInstantiations(t: Tree, at: Path, k: nat)
    requires k < |t.kids|
    ensures forall o | o in Instantiations(t.kids[k], at + [k]) :: o in Instantiations(t, at)
  {
    KidInstantiations(t.kids, at, 0, k);
    assert at + [0 + k] == at + [k];
  }

  lemma {:induction false} InstantiatedStmtIsClosed(g: Globals, h: Globals, known: set<Name>, s: Tree, at: Path)
    requires SameNames(g, h) && ClosedStmt(h, known, s)
    requires forall o | o in Instantiations(s, at) :: o.inst in g.instances
    ensures ClosedStmt(g, known, s)
    decreases s, 0
  {
    match s.head
    case UnscopedCompound | Compound => InstantiatedStmtsAreClosed(g, h, known, s.kids, at, 0);
    case Return | ExpressionStmt | DeclStmt(_) =>
      if s.kids != [] {
        ChildInstantiations(s, at, 0);
        InstantiatedExprIsClosed(g, h, known, s.kids[0], at + [0]);
      }
    case If =>
      ChildInstantiations(s, at, 0);
      ChildInstantiations(s, at, 1);
      InstantiatedExprIsClosed(g, h, known, s.kids[0], at + [0]);
      InstantiatedStmtIsClosed(g, h, known, s.kids[1], at + [1]);
      if |s.kids| == 3 {
        ChildInstantiations(s, at, 2);
        InstantiatedStmtIsClosed(g, h, known + Declares(s.kids[1]), s.kids[2], at + [2]);
      }
  }

  lemma {:induction false} InstantiatedStmtsAreClosed(g: Globals, h: Globals, known: set<Name>, ss: seq<Tree>,
                                                      at: Path, i: nat)
    requires SameNames(g, h) && ClosedStmts(h, known, ss)
    requires forall o | o in InstantiationsOf(ss, at, i) :: o.inst in g.instances
    ensures ClosedStmts(g, known, ss)
    decreases ss
  {
    if ss != [] {
      InstantiatedStmtIsClosed(g, h, known, ss[0], at + [i]);
      InstantiatedStmtsAreClosed(g, h, known + Declares(ss[0]), ss[1..], at, i + 1);
    }
  }

  lemma {:induction false} SameNamesFreshParams(g: Globals, h: Globals, known: set<Name>, ps: Params)
    requires SameNames(g, h) && FreshParams(h, known, ps)
    ensures FreshParams(g, known, ps)
    decreases ps
  {
    if ps != [] {
      SameNamesFreshParams(g, h, if ps[0].Some? then known + {ps[0].value} else known, ps[1..]);
    }
  }

  /** With all its instantiations done, a function may be generated. */
  lemma InstantiatedIsClosed(def: FunctionDef)
    requires Resolvable(def) && Instantiable(def)
    ensures ClosedFunction(def.g, def.params, def.body)
  {
    var h :| SameNames(def.g, h) && ClosedFunction(h, def.params, def.body);
    SameNamesFreshParams(def.g, h, {}, def.params);
    InstantiatedStmtIsClosed(def.g, h, ParamNames(def.params), def.body, []);
  }

  /** What is generated for a function of the program. */
  ghost predicate IsGenerated(def: FunctionDef, r: Generated) {
    r == Generated(|def.params|, GenFunction(def.g, def.params, def.body)) &&
    Instantiable(def) && ClosedFunction(def.g, def.params, def.body) && WellFormed(r.blocks) && Acyclic(r.blocks)
  }

  /** The functions of a unit. */
  function Roots(p: Program, children: set<UnitChild>): set<Sym> {
    set f | f in p && FunctionNode(f) in children
  }

  /** The state between two steps of the worklist, with `todo` still to be
      done: everything generated or waiting is needed, and everything needed
      next or looked up is generated or waiting.  `history` lists what was generated. */
  ghost predicate SoundState(p: Program, m: Module, source: set<Sym>, history: seq<Sym>, roots: set<Sym>,
                             todo: set<UnitChild>)
  {
    (forall f | FunctionNode(f) in todo :: f in p && Needed(p, roots, f)) &&
    (forall f | f in m :: f in p && f in source && IsGenerated(p[f], m[f]) && Needed(p, roots, f)) &&
    (forall f, s | f in m && DependsOn(p[f], s) :: Waits(m, todo, s)) &&
    (forall f | f in roots :: Waits(m, todo, f)) &&
    (forall f | f in source :: Waits(m, todo, f)) &&
    (forall f :: f in history <==> f in m) &&
    (forall i, j | 0 <= i < j < |history| :: history[i] != history[j])
  }

  /** Generated already, or waiting for it. */
  predicate Waits(m: Module, todo: set<UnitChild>, f: Sym) {
    f in m || FunctionNode(f) in todo
  }

  lemma SoundStart(p: Program, children: set<UnitChild>)
    requires forall f | FunctionNode(f) in children :: f in p
    ensures SoundState(p, map[], {}, [], Roots(p, children), children)
  {
  }

  lemma WaitingIsNeeded(p: Program, m: Module, source: set<Sym>, history: seq<Sym>, roots: set<Sym>,
                        todo: set<UnitChild>, f: Sym)
    requires SoundState(p, m, source, history, roots, todo + {FunctionNode(f)})
    ensures f in p && Needed(p, roots, f)
  {
    assert FunctionNode(f) in todo + {FunctionNode(f)};
  }

  lemma GeneratedFunction(def: FunctionDef, r: Generated)
    requires Instantiable(def) && ClosedFunction(def.g, def.params, def.body)
    requires WellFormed(r.blocks) && Acyclic(r.blocks)
    requires r == Generated(|def.params|, GenFunction(def.g, def.params, def.body))
    ensures IsGenerated(def, r)
  {
  }

  /** What is not a function to be generated may be dropped. */
  lemma SoundDrop(p: Program, m: Module, source: set<Sym>, history: seq<Sym>, roots: set<Sym>, todo: set<UnitChild>,
                  c: UnitChild)
    requires SoundState(p, m, source, history, roots, todo + {c})
    requires c.FunctionNode? ==> c.sym in m
    ensures SoundState(p, m, source + (if c.FunctionNode? then {c.sym} else {}), history, roots, todo)
  {
    forall f | Waits(m, todo + {c}, f)
      ensures Waits(m, todo, f)
    {
    }
  }

  /** A function that was generated leaves the worklist and puts what it depends on into it. */
  lemma SoundAdd(p: Program, m: Module, source: set<Sym>, history: seq<Sym>, roots: set<Sym>, todo: set<UnitChild>,
                 f: Sym, r: Generated, more: set<Sym>, later: set<UnitChild>)
    requires SymbolsResolve(p) && SoundState(p, m, source, history, roots, todo + {FunctionNode(f)}) && f !in m
    requires IsGenerated(p[f], r) && source <= more && f in more && todo <= later
    requires forall s | s in more && s !in source :: s == f || DependsOn(p[f], s)
    requires forall c | c in later && c !in todo :: c == FunctionNode(f) || (c.FunctionNode? && DependsOn(p[f], c.sym))
    requires forall s | DependsOn(p[f], s) :: Waits(m[f := r], later, s)
    ensures SoundState(p, m[f := r], more, history + [f], roots, later)
  {
    hide Needed, IsGenerated, DependsOn;
    var n := m[f := r];
    assert FunctionNode(f) in todo + {FunctionNode(f)};
    forall s | DependsOn(p[f], s)
      ensures s in p && Needed(p, roots, s)
    {
      NeededNext(p, roots, f, s);
    }
    forall s | Waits(m, todo + {FunctionNode(f)}, s)
      ensures Waits(n, later, s)
    {
    }
    forall h | h in n
      ensures h in p && h in more && IsGenerated(p[h], n[h]) && Needed(p, roots, h)
    {
    }
    forall h, s | h in n && DependsOn(p[h], s)
      ensures Waits(n, later, s)
    {
      if h != f {
        assert h in m && Waits(m, todo + {FunctionNode(f)}, s);
      }
    }
  }

  ghost predicate InstantiatesAt(def: FunctionDef, q: Path) {
    exists o :: o in Instantiations(def.body, []) && o.path == q
  }

  /** What is complete are the instantiations of the generated functions, place by place. */
  ghost predicate AreCompleted(p: Program, m: Module, completed: set<(Sym, Path)>) {
    forall f, q :: (f, q) in completed <==> f in m && f in p && InstantiatesAt(p[f], q)
  }

  lemma CompletedStart(p: Program)
    ensures AreCompleted(p, map[], {})
  {
  }

  lemma CompletedAdd(p: Program, m: Module, f: Sym, r: Generated, before: set<(Sym, Path)>, after: set<(Sym, Path)>)
    requires AreCompleted(p, m, before) && f in p && f !in m && before <= after
    requires forall e | e in after && e !in before :: exists o :: o in Instantiations(p[f].body, []) && e == (f, o.path)
    requires forall o | o in Instantiations(p[f].body, []) :: (f, o.path) in after
    ensures AreCompleted(p, m[f := r], after)
  {
    forall h, q
      ensures (h, q) in after <==> h in m[f := r] && h in p && InstantiatesAt(p[h], q)
    {
      assert (h, q) in before <==> h in m && h in p && InstantiatesAt(p[h], q);
    }
  }

  class CodegenInstance {
    const program: Program
    /** The nodes whose code is still missing. */
    var dependencies: set<UnitChild>
    /** The amalgamated module: the functions that have a body. */
    var generated: Module
    /** The functions whose declaration is known, by symbol. */
    var functionSource: set<Sym>
    /** The instantiations that are complete, by function and place. */
    var completed: set<(Sym, Path)>
    var hadError: bool
    /** The functions in the order of their generation. */
    ghost var history: seq<Sym>

    constructor (program: Program)
      ensures this.program == program && dependencies == {} && generated == map[] && functionSource == {}
      ensures completed == {} && !hadError && history == []
    {
      this.program := program;
      dependencies, generated, functionSource, completed := {}, map[], {}, {};
      hadError, history := false, [];
    }

    /** A prototype of the function; it is generated later if it has no body yet. */
    method LookupFunction(f: Sym)
      modifies this`dependencies, this`functionSource
      ensures dependencies == old(dependencies) + (if f in generated then {} else {FunctionNode(f)})
      ensures functionSource == old(functionSource) + {f}
    {
      if f !in generated {
        dependencies := dependencies + {FunctionNode(f)};
      }
      functionSource := functionSource + {f};
    }

    /** Instantiates, and looks up what the instantiation exports. */
    method LookupInstantiation(owner: Sym, o: Occurrence) returns (r: Option<Sym>)
      requires owner in program
      modifies this`dependencies, this`functionSource, this`completed, this`hadError
      ensures r.Some? <==> o.inst in program[owner].g.instances
      ensures r.Some? ==> r.value == program[owner].g.instances[o.inst] && hadError == old(hadError)
      ensures r.Some? ==>
                dependencies == old(dependencies) + (if r.value in generated then {} else {FunctionNode(r.value)})
      ensures r.Some? ==> functionSource == old(functionSource) + {r.value}
      ensures r.Some? ==> completed == old(completed) + {(owner, o.path)}
      ensures r.None? ==> hadError && dependencies == old(dependencies) && functionSource == old(functionSource)
      ensures r.None? ==> completed == old(completed)
    {
      var instances := program[owner].g.instances;
      if o.inst !in instances {
        hadError := true;
        return None;
      }
      completed := completed + {(owner, o.path)};
      LookupFunction(instances[o.inst]);
      return Some(instances[o.inst]);
    }

    /** What looking up the instantiations of `os` does to the state. */
    twostate predicate Consumed(owner: Sym, os: seq<Occurrence>, ok: bool)
      requires owner in program
      reads this
    {
      var instances := program[owner].g.instances;
      generated == old(generated) && history == old(history) && functionSource >= old(functionSource) &&
      dependencies >= old(dependencies) && completed >= old(completed) &&
      (ok <==> forall o | o in os :: o.inst in instances) &&
      hadError == (old(hadError) || !ok) &&
      (forall c | c in dependencies && c !in old(dependencies) ::
         exists o :: o in os && o.inst in instances && c == FunctionNode(instances[o.inst])) &&
      (forall s | s in functionSource && s !in old(functionSource) ::
         exists o :: o in os && o.inst in instances && s == instances[o.inst]) &&
      (forall e | e in completed && e !in old(completed) :: exists o :: o in os && e == (owner, o.path)) &&
      (ok ==> forall o | o in os ::
         (owner, o.path) in completed &&
          (instances[o.inst] in generated || FunctionNode(instances[o.inst]) in dependencies))
    }

    /** Looks up every instantiation below a node, in pre-order, until one fails. */
    method ConsumeAll(owner: Sym, t: Tree, at: Path) returns (ok: bool)
      requires owner in program
      modifies this`dependencies, this`functionSource, this`completed, this`hadError
      ensures Consumed(owner, Instantiations(t, at), ok)
      decreases t, 0
    {
      ghost var below := InstantiationsOf(t.kids, at, 0);
      if t.head.MetaInstantiation? {
        var r := LookupInstantiation(owner, Occurrence(at, t));
        assert Instantiations(t, at)[0] == Occurrence(at, t);
        if r.None? {
          return false;
        }
      }
      ok := ConsumeChildren(owner, t.kids, at);
      assert forall o | o in below :: o in Instantiations(t, at);
    }

    method ConsumeChildren(owner: Sym, ts: seq<Tree>, at: Path) returns (ok: bool)
      requires owner in program
      modifies this`dependencies, this`functionSource, this`completed, this`hadError
      ensures Consumed(owner, InstantiationsOf(ts, at, 0), ok)
      decreases ts
    {
      assert ts[0..] == ts;
      ghost var done: seq<Occurrence> := [];
      for i := 0 to |ts|
        invariant Consumed(owner, done, true)
        invariant InstantiationsOf(ts, at, 0) == done + InstantiationsOf(ts[i..], at, i)
      {
        assert ts[i..][1..] == ts[i + 1..];
        ghost var next := Instantiations(ts[i], at + [i]);
        assert done + (next + InstantiationsOf(ts[i + 1..], at, i + 1)) ==
               done + next + InstantiationsOf(ts[i + 1..], at, i + 1);
        ok := ConsumeAll(owner, ts[i], at + [i]);
        if !ok {
          return false;
        }
        done := done + next;
      }
      assert ts[|ts|..] == [];
      return true;
    }

    ghost predicate Sound(roots: set<Sym>, todo: set<UnitChild>)
      reads this
    {
      SoundState(program, generated, functionSource, history, roots, todo)
    }

    /** Generates a function unless it has a body already. */
    method CodegenFunction(ghost roots: set<Sym>, f: Sym) returns (ok: bool)
      requires SymbolsResolve(program) && f in program && Resolvable(program[f]) && !hadError
      requires Sound(roots, dependencies + {FunctionNode(f)}) && AreCompleted(program, generated, completed)
      modifies this
      ensures ok ==> !hadError && Sound(roots, dependencies) && f in generated
      ensures ok && f in old(generated) ==> generated == old(generated) && dependencies == old(dependencies)
      ensures ok ==> generated.Keys >= old(generated.Keys) && AreCompleted(program, generated, completed)
      ensures !ok ==> hadError && !Instantiable(program[f]) && Needed(program, roots, f)
    {
      hide SoundState, Needed, IsGenerated, SymbolsResolve, Resolvable, ClosedFunction, AreCompleted, Instantiations,
           Mentions, LooksUp, GenFunction, WellFormed, Acyclic;
      ghost var todo, m, source := dependencies, generated, functionSource;
      assert FunctionNode(f) in todo + {FunctionNode(f)};
      LookupFunction(f);
      if f in generated {
        SoundDrop(program, m, source, history, roots, todo, FunctionNode(f));
        assert dependencies == todo;
        return true;
      }
      var def := program[f];
      var consumed := ConsumeAll(f, def.body, []);
      if hadError {
        WaitingIsNeeded(program, m, source, history, roots, todo, f);
        return false;
      }
      InstantiatedIsClosed(def);
      LookupsAreConsumed(def.body, []);
      assert forall o | o in LooksUp(def.body, []) :: (f, o.path) in completed;
      var generator := new FunctionGenerator(def.g);
      generator.Codegen(def.params, def.body);
      var r := Generated(|def.params|, generator.blocks);
      GeneratedFunction(def, r);
      CompletedAdd(program, generated, f, r, old(completed), completed);
      generated := generated[f := r];
      history := history + [f];
      LookupMentions(Mentions(def.g, def.body));
      SoundAdd(program, m, source, old(history), roots, todo, f, r, functionSource, dependencies);
      return true;
    }

    /** The lookups while the body of a function is generated. */
    method LookupMentions(ss: seq<Sym>)
      modifies this`dependencies, this`functionSource
      ensures functionSource >= old(functionSource) && dependencies >= old(dependencies)
      ensures forall s | s in ss :: s in generated || FunctionNode(s) in dependencies
      ensures forall c | c in dependencies && c !in old(dependencies) :: exists s :: s in ss && c == FunctionNode(s)
      ensures forall s | s in functionSource && s !in old(functionSource) :: s in ss
    {
      for i := 0 to |ss|
        invariant functionSource >= old(functionSource) && dependencies >= old(dependencies)
        invariant forall k | 0 <= k < i :: ss[k] in generated || FunctionNode(ss[k]) in dependencies
        invariant forall c | c in dependencies && c !in old(dependencies) :: exists s :: s in ss && c == FunctionNode(s)
        invariant forall s | s in functionSource && s !in old(functionSource) :: s in ss
      {
        LookupFunction(ss[i]);
      }
    }

    /** Generates a unit and everything its functions depend on. */
    method CodegenUnit(children: set<UnitChild>) returns (ok: bool)
      requires dependencies == {} && generated == map[] && functionSource == {} && completed == {}
      requires history == [] && !hadError
      requires SymbolsResolve(program) && forall f | f in program :: Resolvable(program[f])
      requires forall f | FunctionNode(f) in children :: f in program
      modifies this
      ensures ok ==>
                !hadError && SelfContained(program, generated) &&
                NoMoreThan(program, generated, Roots(program, children))
      ensures ok ==>
                generated.Keys == functionSource && forall i, j | 0 <= i < j < |history| :: history[i] != history[j]
      ensures ok ==> AreCompleted(program, generated, completed) && forall f :: f in history <==> f in generated
      ensures ok <==>
                forall f | f in program && Needed(program, Roots(program, children), f) :: Instantiable(program[f])
      ensures !ok ==> hadError
    {
      hide SoundState, Needed, IsGenerated, SymbolsResolve, Resolvable, Instantiable, AreCompleted;
      ghost var roots := Roots(program, children);
      dependencies := children;
      SoundStart(program, children);
      CompletedStart(program);
      while dependencies != {}
        invariant Sound(roots, dependencies) && AreCompleted(program, generated, completed) && !hadError
        decreases |program.Keys - generated.Keys|, |dependencies|
      {
        ghost var before := generated.Keys;
        var dependency :| dependency in dependencies;
        ghost var todo := dependencies;
        dependencies := dependencies - {dependency};
        assert todo == dependencies + {dependency};
        if dependency.OtherNode? {
          SoundDrop(program, generated, functionSource, history, roots, dependencies, dependency);
          assert functionSource + {} == functionSource;
        } else {
          WaitingIsNeeded(program, generated, functionSource, history, roots, dependencies, dependency.sym);
          var done := CodegenFunction(roots, dependency.sym);
          if !done {
            return false;
          }
          if dependency.sym !in before {
            Fewer(program.Keys - generated.Keys, program.Keys - before);
          }
        }
      }
      SoundEnd(program, generated, functionSource, history, roots);
      SoundHistory(program, generated, functionSource, history, roots);
      NeededIsGenerated(program, generated, roots);
      return true;
    }
  }

  lemma Fewer(a: set<Sym>, b: set<Sym>)
    requires a < b
    ensures |a| < |b|
  {
    var x :| x in b && x !in a;
    assert a <= b - {x};
    NoMore(a, b - {x});
  }

  lemma {:induction false} NoMore(a: set<Sym>, b: set<Sym>)
    requires a <= b
    ensures |a| <= |b|
    decreases a
  {
    if a != {} {
      var x :| x in a;
      NoMore(a - {x}, b - {x});
    }
  }

  /** Every function of the module is generated from its source and finds all
      it depends on in the module. */
  ghost predicate SelfContained(p: Program, m: Module) {
    forall f | f in m :: f in p && IsGenerated(p[f], m[f]) && Holds(p[f], m.Keys)
  }

  /** The module has the roots, and nothing they do not need. */
  ghost predicate NoMoreThan(p: Program, m: Module, roots: set<Sym>) {
    roots <= m.Keys && forall f | f in m :: Needed(p, roots, f)
  }

  ghost predicate Holds(def: FunctionDef, fs: set<Sym>) {
    forall s | DependsOn(def, s) :: s in fs
  }

  lemma SoundEnd(p: Program, m: Module, source: set<Sym>, history: seq<Sym>, roots: set<Sym>)
    requires SoundState(p, m, source, history, roots, {})
    ensures SelfContained(p, m) && NoMoreThan(p, m, roots)
  {
    hide Needed, IsGenerated, DependsOn;
    forall f | f in m
      ensures Holds(p[f], m.Keys)
    {
      forall s | DependsOn(p[f], s)
        ensures s in m
      {
        assert Waits(m, {}, s);
      }
    }
    forall f | f in roots
      ensures f in m
    {
      assert Waits(m, {}, f);
    }
  }

  lemma SoundHistory(p: Program, m: Module, source: set<Sym>, history: seq<Sym>, roots: set<Sym>)
    requires SoundState(p, m, source, history, roots, {})
    ensures m.Keys == source && (forall f :: f in history <==> f in m)
    ensures forall i, j | 0 <= i < j < |history| :: history[i] != history[j]
  {
    forall f | f in source
      ensures f in m
    {
      assert Waits(m, {}, f);
    }
  }

  /** What was generated is exactly what the roots need: the least set of
      functions that holds them and their dependencies. */
  lemma SelfContainedIsLeast(p: Program, m: Module, roots: set<Sym>)
    requires SelfContained(p, m) && NoMoreThan(p, m, roots)
    ensures Closure(p, roots, m.Keys) && forall fs: set<Sym> | Closure(p, roots, fs) :: m.Keys <= fs
  {
    hide IsGenerated, DependsOn;
    forall f, s | f in m.Keys && f in p && DependsOn(p[f], s)
      ensures s in m.Keys
    {
      assert Holds(p[f], m.Keys);
    }
    forall fs: set<Sym> | Closure(p, roots, fs)
      ensures m.Keys <= fs
    {
      forall f | f in m.Keys
        ensures f in fs
      {
        assert Needed(p, roots, f);
      }
    }
  }

  lemma NeededIsGenerated(p: Program, m: Module, roots: set<Sym>)
    requires SelfContained(p, m) && NoMoreThan(p, m, roots)
    ensures forall f | Needed(p, roots, f) :: f in m && Instantiable(p[f])
  {
    SelfContainedIsLeast(p, m, roots);
  }

  /** Every function generated code refers to has been generated. */
  lemma SelfContainedRefersToItself(p: Program, m: Module, f: Sym)
    requires SelfContained(p, m) && f in m
    ensures GraphRefers(m[f].blocks, m.Keys)
  {
    hide Needed, Instantiable, ClosedFunction, WellFormed, Acyclic, GraphRefers, Mentions;
    var def := p[f];
    assert Holds(def, m.Keys);
    forall s | s in Mentions(def.g, def.body)
      ensures s in m
    {
      assert DependsOn(def, s);
    }
    FunctionRefers(def.g, def.params, def.body, m.Keys);
  }

  /** A call into the module with at most `depth` nested calls. */
  function ModuleCall(m: Module, depth: nat, f: Sym, args: seq<int>): Option<Option<int>>
    decreases depth
  {
    if depth == 0 || f !in m || |args| != m[f].arity then None
    else
      var callee := (s: Sym, a: seq<int>) => ModuleCall(m, depth - 1, s, a);
      match Run(m[f].blocks, callee, args)
      case Finished(v, _) => Some(v)
      case _ => None
  }

  /** The generated module computes what the source means, for every function
      in it: nothing it calls is missing. */
  lemma {:induction false} ModulePreserved(p: Program, m: Module, depth: nat, f: Sym, args: seq<int>)
    requires SelfContained(p, m) && f in m
    ensures ModuleCall(m, depth, f, args) == ExactCall(p, depth, f, args)
    decreases depth
  {
    hide Needed, Holds, Instantiable, ClosedFunction, WellFormed, Acyclic, GraphRefers, Exec, GenFunction, Bind,
         BlockSteps;
    if depth != 0 && |args| == m[f].arity {
      var def := p[f];
      var linked: Oracle := (s: Sym, a: seq<int>) => ModuleCall(m, depth - 1, s, a);
      var exact: Oracle := (s: Sym, a: seq<int>) => ExactCall(p, depth - 1, s, a);
      forall s, a | s in m.Keys
        ensures linked(s, a) == exact(s, a)
      {
        ModulePreserved(p, m, depth - 1, s, a);
      }
      SelfContainedRefersToItself(p, m, f);
      BlockStepsSame(m[f].blocks, linked, exact, Start(args), |m[f].blocks|, m.Keys);
      FunctionMeans(def.g, exact, def.params, def.body, args);
    }
  }
}
