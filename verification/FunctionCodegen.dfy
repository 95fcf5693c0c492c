/** Whole functions: the stack frame, the body and the final return
    (codegen and setUpStackFrame in src/Codegen/FunctionCodegen.cpp), and
    programs of functions that call each other. */
module FunctionCodegen {
  import opened Wrappers
  import opened Ast
  import opened Machine
  import opened Semantics
  import opened PlainReading
  import opened ExprCodegen
  import opened Graph
  import opened StmtCodegen
  import opened Acyclicity
  import opened Runs
  import opened Simulation

  /** The parameters of a function; one without a name is `None`. */
  type Params = seq<Option<Name>>

  function ParamNames(ps: Params): set<Name> {
    if ps == [] then {} else (if ps[0].Some? then {ps[0].value} else {}) + ParamNames(ps[1..])
  }

  /** Every named parameter gets a slot holding its argument; `i` counts the
      arguments already passed. */
  function SetUpStackFrame(b: Builder, ps: Params, i: nat): Builder
    decreases ps
  {
    if ps == [] then b
    else if ps[0].None? then SetUpStackFrame(b, ps[1..], i + 1)
    else
      SetUpStackFrame(AddParam(b, ps[0].value, i), ps[1..], i + 1)
  }

  function AddParam(b: Builder, x: Name, i: nat): Builder {
    Emit(b.(reg := b.reg + 1), [Alloca(b.reg)] + [Store(Arg(i), Slot(b.reg))]).(values := b.values[x := Slot(b.reg)])
  }

  const ENTRY := Builder([[]], 0, 0, map[])

  function GenFunction(g: Globals, ps: Params, body: Tree): Cfg {
    var b := SetUpStackFrame(ENTRY, ps, 0);
    var (r, end) := GenStmt(g, b, b.at, body);
    Finish(r, end)
  }

  /** A body that can be left ends in a plain return. */
  function Finish(r: Builder, end: Option<nat>): Cfg {
    (if end.Some? then Emit(r, [RetVoid]) else r).blocks
  }

  function Bind(env: Env, ps: Params, args: seq<int>): Env
    requires |ps| == |args|
    decreases ps
  {
    if ps == [] then env
    else Bind(if ps[0].Some? then env[ps[0].value := args[0]] else env, ps[1..], args[1..])
  }

  /** Named parameters differ from each other and from everything known. */
  predicate FreshParams(g: Globals, known: set<Name>, ps: Params)
    decreases ps
  {
    ps == [] ||
    (if ps[0].None? then FreshParams(g, known, ps[1..])
     else ps[0].value !in known && !g.Knows(ps[0].value) && FreshParams(g, known + {ps[0].value}, ps[1..]))
  }

  predicate ClosedFunction(g: Globals, ps: Params, body: Tree) {
    FreshParams(g, {}, ps) && ClosedStmt(g, ParamNames(ps), body)
  }

  /** What a call returns, given how the body ended. */
  function Ended(o: Outcome): Conf {
    match o
    case Normal(_) => Finished(None, [])
    case Returned(v) => Finished(v, [])
    case Wrong => Stuck
  }

  lemma {:induction false} FrameScopes(g: Globals, known: set<Name>, b: Builder, ps: Params, i: nat)
    requires Ready(b) && Scoped(known, b.values, b.reg) && FreshParams(g, known, ps)
    ensures var r := SetUpStackFrame(b, ps, i);
            Region(b, r, Some(b.at)) && |r.blocks| == |b.blocks| &&
            Scoped(known + ParamNames(ps), r.values, r.reg)
    decreases ps
  {
    if ps == [] {
      RegionStarts(b);
      assert known + ParamNames(ps) == known;
    } else if ps[0].None? {
      FrameScopes(g, known, b, ps[1..], i + 1);
      assert known + ParamNames(ps) == known + ParamNames(ps[1..]);
    } else {
      var m := AddParam(b, ps[0].value, i);
      ParamScopes(known, b, ps[0].value, i);
      FrameScopes(g, known + {ps[0].value}, m, ps[1..], i + 1);
      RegionTwice(b, m, SetUpStackFrame(m, ps[1..], i + 1), Some(b.at));
      assert known + {ps[0].value} + ParamNames(ps[1..]) == known + ParamNames(ps);
    }
  }

  /** The frame holds the arguments. */
  lemma {:induction false} FrameRuns(g: Globals, call: Oracle, known: set<Name>, b: Builder, ps: Params,
                                     args: seq<int>, i: nat, env: Env, st: State, f: Cfg)
    returns (n: nat, last: State)
    requires Ready(b) && Sits(known, b, env, st) && FreshParams(g, known, ps)
    requires |ps| == |args| && i + |args| == |st.args| && st.args[i..] == args
    requires Grows(SetUpStackFrame(b, ps, i).blocks, f)
    ensures var r := SetUpStackFrame(b, ps, i);
            r.at == b.at && r.at < |r.blocks| && StepN(f, call, Here(b, st), n) == Here(r, last) &&
            Sits(known + ParamNames(ps), r, Bind(env, ps, args), last) && last.out == st.out && last.args == st.args
    decreases ps
  {
    hide Agree, Scoped, Fresh, Region, Grows, StepN, Step;
    FrameScopes(g, known, b, ps, i);
    if ps == [] {
      n, last := 0, st;
      StaysAt(f, call, Here(b, st));
      assert known + ParamNames(ps) == known;
    } else if ps[0].None? {
      assert st.args[i + 1..] == args[1..];
      n, last := FrameRuns(g, call, known, b, ps[1..], args[1..], i + 1, env, st, f);
      assert known + ParamNames(ps) == known + ParamNames(ps[1..]);
    } else {
      var x := ps[0].value;
      var m := AddParam(b, x, i);
      ParamScopes(known, b, x, i);
      FrameScopes(g, known + {x}, m, ps[1..], i + 1);
      var r := SetUpStackFrame(m, ps[1..], i + 1);
      RegionGrows(m, r, Some(b.at));
      GrowsTwice(m.blocks, r.blocks, f);
      assert st.args[i] == args[0];
      var st2 := ParamRuns(call, known, b, x, i, env, st, f);
      assert st.args[i + 1..] == args[1..];
      n, last := FrameRuns(g, call, known + {x}, m, ps[1..], args[1..], i + 1, env[x := args[0]], st2, f);
      Onwards(f, call, Here(b, st), 2, Here(m, st2), n);
      n := 2 + n;
      assert known + {x} + ParamNames(ps[1..]) == known + ParamNames(ps);
    }
  }

  lemma ParamScopes(known: set<Name>, b: Builder, x: Name, i: nat)
    requires Ready(b) && Scoped(known, b.values, b.reg) && x !in known
    ensures var m := AddParam(b, x, i);
            Region(b, m, Some(b.at)) && |m.blocks| == |b.blocks| && Scoped(known + {x}, m.values, m.reg)
  {
    RegionEmitOpen(b, [Alloca(b.reg)] + [Store(Arg(i), Slot(b.reg))], b.reg + 1, b.values[x := Slot(b.reg)]);
  }

  lemma ParamRuns(call: Oracle, known: set<Name>, b: Builder, x: Name, i: nat, env: Env, st: State, f: Cfg)
    returns (last: State)
    requires Ready(b) && Sits(known, b, env, st) && x !in known
    requires i < |st.args| && Grows(AddParam(b, x, i).blocks, f)
    ensures var m := AddParam(b, x, i);
            StepN(f, call, Here(b, st), 2) == Here(m, last) &&
            Sits(known + {x}, m, env[x := st.args[i]], last) && last.out == st.out && last.args == st.args
  {
    var alloca, store := Alloca(b.reg), Store(Arg(i), Slot(b.reg));
    var m := AddParam(b, x, i);
    assert m.blocks[b.at] == b.blocks[b.at] + ([alloca] + [store]);
    assert m.blocks[b.at] <= f[b.at];
    EmittedRuns(f, call, b.at, b.blocks[b.at], [alloca] + [store], st);
    ExecuteAppend([alloca], [store], st, call);
    ExecuteOne(alloca, st, call);
    var st1 := Execute(alloca, st, call).value;
    ExecuteOne(store, st1, call);
    last := Execute(store, st1, call).value;
  }

  /** The graph before the final return is added. */
  lemma BodyRegion(g: Globals, ps: Params, body: Tree)
    requires ClosedFunction(g, ps, body)
    ensures var b := SetUpStackFrame(ENTRY, ps, 0);
            var r := GenStmt(g, b, b.at, body);
            Region(ENTRY, b, Some(0)) && Region(b, r.0, r.1) && b.at == 0 && |b.blocks| == 1 &&
            Scoped(ParamNames(ps), b.values, b.reg)
  {
    FrameScopes(g, {}, ENTRY, ps, 0);
    assert {} + ParamNames(ps) == ParamNames(ps);
    var b := SetUpStackFrame(ENTRY, ps, 0);
    StmtRegion(g, ParamNames(ps), b, body);
  }

  lemma FinalReturn(r: Builder, end: Option<nat>)
    requires end.Some? ==> r.at < |r.blocks| && Open(r.blocks[r.at])
    ensures var f := Finish(r, end);
            Grows(r.blocks, f) && |f| == |r.blocks| &&
            (forall i | 0 <= i < |f| :: Succs(f[i]) == Succs(r.blocks[i])) &&
            (forall i | 0 <= i < |f| && end.Some? && i != r.at :: f[i] == r.blocks[i]) &&
            (end.Some? ==> Terminated(f[r.at]) && f[r.at] == r.blocks[r.at] + [RetVoid])
  {
    if end.Some? {
      var code := r.blocks[r.at];
      assert (code + [RetVoid])[..|code|] == code;
      SuccsAppend(code, [RetVoid]);
      assert Succs([RetVoid]) == {};
    }
  }

  lemma FinishWellFormed(b: Builder, r: Builder, end: Option<nat>)
    requires b.at == 0 && |b.blocks| == 1 && Region(b, r, end)
    ensures WellFormed(Finish(r, end))
  {
    FinalReturn(r, end);
    var f := Finish(r, end);
    forall i | 0 <= i < |f|
      ensures Terminated(f[i]) && JumpsWithin(f[i], 0, |f|)
    {
      assert IsPart(b, r, i);
      assert JumpsWithin(r.blocks[i], |b.blocks|, |r.blocks|);
      if end != Some(i) {
        assert f[i] == r.blocks[i];
      }
    }
  }

  lemma FinishAcyclic(b: Builder, r: Builder, end: Option<nat>, order: seq<nat>)
    requires b.at == 0 && |b.blocks| == 1 && Region(b, r, end) && OrderOf(b, r, order)
    ensures Acyclic(Finish(r, end))
  {
    FinalReturn(r, end);
    var f := Finish(r, end);
    var all := [b.at] + order;
    OrderedGrows(r.blocks, f, all, {}, {});
    var none: set<nat> := {};
    assert none + none == none;
    forall i: nat
      ensures i in all <==> 0 <= i < |f|
    {
      assert i in order <==> |b.blocks| <= i < |r.blocks|;
    }
    assert Lists(all, 0, |f|);
  }

  /** Every generated graph is well formed: each block ends in its only
      terminator and jumps stay inside the function. */
  lemma FunctionWellFormed(g: Globals, ps: Params, body: Tree)
    requires ClosedFunction(g, ps, body)
    ensures WellFormed(GenFunction(g, ps, body))
  {
    BodyRegion(g, ps, body);
    var b := SetUpStackFrame(ENTRY, ps, 0);
    var (r, end) := GenStmt(g, b, b.at, body);
    FinishWellFormed(b, r, end);
  }

  /** Every generated graph is acyclic. */
  lemma FunctionAcyclic(g: Globals, ps: Params, body: Tree)
    requires ClosedFunction(g, ps, body)
    ensures Acyclic(GenFunction(g, ps, body))
  {
    BodyRegion(g, ps, body);
    var b := SetUpStackFrame(ENTRY, ps, 0);
    var (r, end) := GenStmt(g, b, b.at, body);
    var order := StmtOrder(g, ParamNames(ps), b, body);
    FinishAcyclic(b, r, end, order);
  }

  /** A call of the generated function returns what the function means, for
      every argument list and every meaning of the functions it calls. */
  lemma FunctionMeans(g: Globals, call: Oracle, ps: Params, body: Tree, args: seq<int>)
    requires ClosedFunction(g, ps, body) && |args| == |ps|
    ensures Run(GenFunction(g, ps, body), call, args) == Ended(Exec(g, call, body, Bind(map[], ps, args)))
  {
    var n := FunctionRuns(g, call, ps, body, args);
    FunctionAcyclic(g, ps, body);
    RunIsTheEnd(GenFunction(g, ps, body), call, args, n);
  }

  lemma FunctionRuns(g: Globals, call: Oracle, ps: Params, body: Tree, args: seq<int>) returns (n: nat)
    requires ClosedFunction(g, ps, body) && |args| == |ps|
    ensures GenFunction(g, ps, body) != []
    ensures StepN(GenFunction(g, ps, body), call, Start(args), n) ==
            Ended(Exec(g, call, body, Bind(map[], ps, args)))
  {
    hide Exec, GenStmt, SetUpStackFrame, Agree, Scoped, Sits, Region, Step, StepN, ClosedStmt;
    var f := GenFunction(g, ps, body);
    var b := SetUpStackFrame(ENTRY, ps, 0);
    var r := GenStmt(g, b, b.at, body);
    var env := Bind(map[], ps, args);
    BodyRegion(g, ps, body);
    FinalReturn(r.0, r.1);
    RegionGrows(b, r.0, r.1);
    GrowsTwice(b.blocks, r.0.blocks, f);
    var mid: State;
    n, mid := FrameStarts(g, call, ps, args, f);
    var k, last := StmtSimulates(g, call, ParamNames(ps), b, body, env, mid, f);
    Onwards(f, call, Start(args), n, Here(b, mid), k);
    n := n + k;
    FinalStep(f, call, ParamNames(ps) + Declares(body), r.0, r.1, Exec(g, call, body, env), b.reg, mid,
              StepN(f, call, Here(b, mid), k), last);
    if Exec(g, call, body, env).Normal? {
      OneMore(f, call, Start(args), n);
      n := n + 1;
    }
  }

  lemma FrameStarts(g: Globals, call: Oracle, ps: Params, args: seq<int>, f: Cfg) returns (n: nat, mid: State)
    requires FreshParams(g, {}, ps) && |args| == |ps| && Grows(SetUpStackFrame(ENTRY, ps, 0).blocks, f)
    ensures var b := SetUpStackFrame(ENTRY, ps, 0);
            b.at < |b.blocks| && StepN(f, call, Start(args), n) == Here(b, mid) && mid.out == [] &&
            Sits(ParamNames(ps), b, Bind(map[], ps, args), mid)
  {
    var st := State(map[], map[], args, []);
    assert args[0..] == args;
    assert {} + ParamNames(ps) == ParamNames(ps);
    n, mid := FrameRuns(g, call, {}, ENTRY, ps, args, 0, map[], st, f);
  }

  /** A body that can be left is followed by a plain return. */
  lemma FinalStep(f: Cfg, call: Oracle, known: set<Name>, r: Builder, end: Option<nat>, outcome: Outcome,
                  low: nat, st: State, reached: Conf, last: State)
    requires Arrives(known, r, end, outcome, low, st, reached, last) && st.out == []
    requires outcome.Normal? ==> r.at < |f| && f[r.at] == r.blocks[r.at] + [RetVoid]
    ensures if outcome.Normal? then Step(f, call, reached) == Ended(outcome) else reached == Ended(outcome)
  {
  }

  /** A function of a program: what its names resolve to, its parameters and its body. */
  datatype FunctionDef = FunctionDef(g: Globals, params: Params, body: Tree)

  type Program = map<Sym, FunctionDef>

  function ResultOf(o: Outcome): Option<Option<int>> {
    match o
    case Normal(_) => Some(None)
    case Returned(v) => Some(v)
    case Wrong => None
  }

  /** A call with at most `depth` nested calls, in the exact reading. */
  function ExactCall(p: Program, depth: nat, f: Sym, args: seq<int>): Option<Option<int>>
    decreases depth
  {
    if depth == 0 || f !in p || |args| != |p[f].params| then None
    else
      var callee := (s: Sym, a: seq<int>) => ExactCall(p, depth - 1, s, a);
      ResultOf(Exec(p[f].g, callee, p[f].body, Bind(map[], p[f].params, args)))
  }

  /** The same in the plain reading. */
  function PlainCall(p: Program, depth: nat, f: Sym, args: seq<int>): Option<Option<int>>
    decreases depth
  {
    if depth == 0 || f !in p || |args| != |p[f].params| then None
    else
      var callee := (s: Sym, a: seq<int>) => PlainCall(p, depth - 1, s, a);
      ResultOf(PlainExec(p[f].g, callee, p[f].body, Bind(map[], p[f].params, args)))
  }

  /** The same for the generated code. */
  function MachineCall(p: Program, depth: nat, f: Sym, args: seq<int>): Option<Option<int>>
    decreases depth
  {
    if depth == 0 || f !in p || |args| != |p[f].params| then None
    else
      var callee := (s: Sym, a: seq<int>) => MachineCall(p, depth - 1, s, a);
      match Run(GenFunction(p[f].g, p[f].params, p[f].body), callee, args)
      case Finished(v, _) => Some(v)
      case _ => None
  }

  ghost predicate SameOracle(a: Oracle, b: Oracle) {
    forall s, ns :: a(s, ns) == b(s, ns)
  }

  lemma {:induction false} EvalSame(g: Globals, a: Oracle, b: Oracle, e: Tree, env: Env)
    requires SameOracle(a, b)
    ensures Eval(g, a, e, env) == Eval(g, b, e, env)
    decreases e, 0
  {
    match e.head
    case Binary(_) =>
      if |e.kids| == 2 {
        EvalSame(g, a, b, e.kids[0], env);
        if Eval(g, a, e.kids[0], env).Some? {
          EvalSame(g, a, b, e.kids[1], Eval(g, a, e.kids[0], env).value.1);
        }
      }
    case Call =>
      if e.kids != [] {
        EvalSame(g, a, b, e.kids[0], env);
        if Eval(g, a, e.kids[0], env).Some? {
          EvalArgsSame(g, a, b, e.kids[1..], Eval(g, a, e.kids[0], env).value.1);
        }
      }
    case _ =>
  }

  lemma {:induction false} EvalArgsSame(g: Globals, a: Oracle, b: Oracle, es: seq<Tree>, env: Env)
    requires SameOracle(a, b)
    ensures EvalArgs(g, a, es, env) == EvalArgs(g, b, es, env)
    decreases es
  {
    if es != [] {
      EvalSame(g, a, b, es[0], env);
      if Eval(g, a, es[0], env).Some? {
        EvalArgsSame(g, a, b, es[1..], Eval(g, a, es[0], env).value.1);
      }
    }
  }

  /** The meaning of a statement depends only on what its calls return. */
  lemma {:induction false} ExecSame(g: Globals, a: Oracle, b: Oracle, s: Tree, env: Env)
    requires SameOracle(a, b)
    ensures Exec(g, a, s, env) == Exec(g, b, s, env)
    decreases s, 0
  {
    match s.head
    case UnscopedCompound | Compound => ExecAllSame(g, a, b, s.kids, env);
    case Return | ExpressionStmt | DeclStmt(_) =>
      if s.kids != [] {
        EvalSame(g, a, b, s.kids[0], env);
      }
    case If =>
      if |s.kids| >= 2 {
        EvalSame(g, a, b, s.kids[0], env);
        if Eval(g, a, s.kids[0], env).Some? {
          var env1 := Eval(g, a, s.kids[0], env).value.1;
          ExecSame(g, a, b, s.kids[1], env1);
          if |s.kids| > 2 {
            ExecSame(g, a, b, s.kids[2], env1);
          }
        }
      }
    case _ =>
  }

  lemma {:induction false} ExecAllSame(g: Globals, a: Oracle, b: Oracle, ss: seq<Tree>, env: Env)
    requires SameOracle(a, b)
    ensures ExecAll(g, a, ss, env) == ExecAll(g, b, ss, env)
    decreases ss
  {
    if ss != [] {
      ExecSame(g, a, b, ss[0], env);
      if Exec(g, a, ss[0], env).Normal? {
        ExecAllSame(g, a, b, ss[1..], Exec(g, a, ss[0], env).env);
      }
    }
  }

  ghost predicate ClosedProgram(p: Program) {
    forall f | f in p :: ClosedFunction(p[f].g, p[f].params, p[f].body)
  }

  ghost predicate DisciplinedProgram(p: Program) {
    forall f | f in p :: DisciplinedStmt(p[f].g, p[f].body)
  }

  /** Code generation preserves the exact meaning of every program, for every
      call and every depth of recursion: results, missing results and
      undefined behaviour alike. */
  lemma {:induction false} ProgramPreserved(p: Program, depth: nat, f: Sym, args: seq<int>)
    requires ClosedProgram(p)
    ensures MachineCall(p, depth, f, args) == ExactCall(p, depth, f, args)
    decreases depth
  {
    if depth != 0 && f in p && |args| == |p[f].params| {
      var machine: Oracle := (s: Sym, a: seq<int>) => MachineCall(p, depth - 1, s, a);
      var exact: Oracle := (s: Sym, a: seq<int>) => ExactCall(p, depth - 1, s, a);
      forall s, a
        ensures machine(s, a) == exact(s, a)
      {
        ProgramPreserved(p, depth - 1, s, a);
      }
      FunctionMeans(p[f].g, machine, p[f].params, p[f].body, args);
      ExecSame(p[f].g, machine, exact, p[f].body, Bind(map[], p[f].params, args));
    }
  }

  lemma {:induction false} BindNames(env: Env, ps: Params, args: seq<int>)
    requires |ps| == |args|
    ensures Bind(env, ps, args).Keys == env.Keys + ParamNames(ps)
    decreases ps
  {
    if ps != [] {
      BindNames(if ps[0].Some? then env[ps[0].value := args[0]] else env, ps[1..], args[1..]);
    }
  }

  /** For disciplined programs the generated code computes the plain meaning. */
  lemma {:induction false} DisciplinedProgramPreserved(p: Program, depth: nat, f: Sym, args: seq<int>)
    requires ClosedProgram(p) && DisciplinedProgram(p)
    ensures MachineCall(p, depth, f, args) == PlainCall(p, depth, f, args)
    decreases depth
  {
    hide Exec, PlainExec, GenFunction, Run, ClosedStmt, DisciplinedStmt, Bind;
    ProgramPreserved(p, depth, f, args);
    if depth != 0 && f in p && |args| == |p[f].params| {
      var plain: Oracle := (s: Sym, a: seq<int>) => PlainCall(p, depth - 1, s, a);
      var exact: Oracle := (s: Sym, a: seq<int>) => ExactCall(p, depth - 1, s, a);
      forall s, a
        ensures exact(s, a) == plain(s, a)
      {
        DisciplinedProgramPreserved(p, depth - 1, s, a);
        ProgramPreserved(p, depth - 1, s, a);
      }
      var env := Bind(map[], p[f].params, args);
      ExecSame(p[f].g, exact, plain, p[f].body, env);
      ReadingsAgree(p[f].g, plain, ParamNames(p[f].params), p[f].body, env);
    }
  }
}
