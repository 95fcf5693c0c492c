/** Instantiating a meta declaration: its compiled function runs, the layout it
    writes is read back as a unit (codegen in src/Codegen/MetaCodegen.cpp,
    instantiate in src/Codegen/CodeExecutor.cpp). */
module Instantiation {
  import opened Wrappers
  import opened Ast
  import opened Layout
  import opened Sequences
  import opened Machine
  import opened Semantics
  import opened ExprCodegen
  import opened Graph
  import opened StmtCodegen
  import opened Runs
  import opened Simulation
  import opened FunctionCodegen
  import opened MetaCodegen
  import opened Staging

  function ParamNamesInOrder(ps: Params): (r: seq<Name>)
    ensures forall x :: x in r <==> x in ParamNames(ps)
  {
    if ps == [] then [] else (if ps[0].Some? then [ps[0].value] else []) + ParamNamesInOrder(ps[1..])
  }

  /** The frame of a meta function; the parameters are exported first. */
  function MetaFrame(ps: Params): Builder {
    var b := SetUpStackFrame(ENTRY, ps, 0);
    Emit(b, IntroduceCode(ParamNamesInOrder(ps), b.values, false))
  }

  function GenMetaFunction(g: Globals, ps: Params, contribution: Tree): Cfg {
    var b := MetaFrame(ps);
    var r := GenMeta(g, b, b.at, false, contribution);
    Finish(r.0, r.1)
  }

  predicate ClosedMetaFunction(g: Globals, ps: Params, contribution: Tree) {
    FreshParams(g, {}, ps) && ClosedMeta(g, ParamNames(ps), false, contribution)
  }

  /** What an instantiation comes to: constants for the parameters, then the
      specialised contribution. */
  function Instantiated(g: Globals, call: Oracle, ps: Params, contribution: Tree, args: seq<int>): Staged
    requires |args| == |ps|
  {
    var env := Bind(map[], ps, args);
    After(ExportTrees(ParamNamesInOrder(ps), env, false), Specialise(g, call, false, contribution, env))
  }

  /** How many of the parameters have a name. */
  function NamedIn(ps: Params): nat {
    if ps == [] then 0 else (if ps[0].Some? then 1 else 0) + NamedIn(ps[1..])
  }

  /** One constant for every named parameter and no other tree: each holds its
      argument and stands behind those of the named parameters before it. */
  ghost predicate AreParameters(ps: Params, args: seq<int>, ts: seq<Tree>)
    requires |args| == |ps|
  {
    |ts| == NamedIn(ps) &&
    (forall i | 0 <= i < |ps| && ps[i].Some? ::
       NamedIn(ps[..i]) < |ts| &&
       ts[NamedIn(ps[..i])] == Tree(GlobalConstant(ps[i].value), [Tree(IntegerLiteral(args[i]), [])])) &&
    forall j: nat | j < |ts| :: BelongsToOne(ps, j)
  }

  ghost predicate BelongsToOne(ps: Params, j: nat) {
    exists i :: 0 <= i < |ps| && ps[i].Some? && NamedIn(ps[..i]) == j
  }

  /** The whole is the constants of the parameters and then the rest. */
  ghost predicate ParametersFirst(ps: Params, args: seq<int>, rest: Staged, whole: Staged)
    requires |args| == |ps|
  {
    var n := NamedIn(ps);
    match rest
    case Undefined => whole.Undefined?
    case Done(ts, env) =>
      whole.Done? && whole.env == env && n <= |whole.trees| &&
      AreParameters(ps, args, whole.trees[..n]) && whole.trees[n..] == ts
    case Cut(ts, beginning, v) =>
      whole.Cut? && whole.beginning == beginning && whole.value == v && n <= |whole.trees| &&
      AreParameters(ps, args, whole.trees[..n]) && whole.trees[n..] == ts
  }

  /** The names in order: the name of a parameter stands where it is counted. */
  lemma {:induction false} NamesAreCounted(ps: Params, i: nat)
    requires i < |ps|
    ensures |ParamNamesInOrder(ps)| == NamedIn(ps) && NamedIn(ps[..i]) <= NamedIn(ps)
    ensures ps[i].Some? ==>
              NamedIn(ps[..i]) < NamedIn(ps) && ParamNamesInOrder(ps)[NamedIn(ps[..i])] == ps[i].value
    decreases ps
  {
    if i == 0 {
      LengthIsCounted(ps);
      assert ps[..0] == [];
    } else {
      NamesAreCounted(ps[1..], i - 1);
      assert ps[..i][1..] == ps[1..][..i - 1] && ps[..i][0] == ps[0];
    }
  }

  lemma {:induction false} LengthIsCounted(ps: Params)
    ensures |ParamNamesInOrder(ps)| == NamedIn(ps)
    decreases ps
  {
    if ps != [] {
      LengthIsCounted(ps[1..]);
    }
  }

  /** Every number below the count is the place of a named parameter. */
  lemma {:induction false} CountedAt(ps: Params, j: nat) returns (i: nat)
    requires j < NamedIn(ps)
    ensures i < |ps| && ps[i].Some? && NamedIn(ps[..i]) == j
    decreases ps
  {
    if ps[0].Some? && j == 0 {
      i := 0;
      assert ps[..0] == [];
    } else {
      var k := CountedAt(ps[1..], if ps[0].Some? then j - 1 else j);
      i := k + 1;
      assert ps[..i][1..] == ps[1..][..k] && ps[..i][0] == ps[0];
    }
  }

  /** A named parameter is bound to its argument. */
  lemma {:induction false} BoundToArgument(g: Globals, known: set<Name>, env: Env, ps: Params, args: seq<int>, i: nat)
    requires |ps| == |args| && i < |ps| && FreshParams(g, known, ps) && ps[i].Some?
    ensures ps[i].value in Bind(env, ps, args) && Bind(env, ps, args)[ps[i].value] == args[i]
    decreases ps
  {
    var more := if ps[0].Some? then known + {ps[0].value} else known;
    var later := if ps[0].Some? then env[ps[0].value := args[0]] else env;
    if i == 0 {
      BindLeaves(g, more, later, ps[1..], args[1..], ps[0].value);
    } else {
      BoundToArgument(g, more, later, ps[1..], args[1..], i - 1);
    }
  }

  lemma {:induction false} BindLeaves(g: Globals, known: set<Name>, env: Env, ps: Params, args: seq<int>, x: Name)
    requires |ps| == |args| && FreshParams(g, known, ps) && x in known && x in env
    ensures x in Bind(env, ps, args) && Bind(env, ps, args)[x] == env[x]
    decreases ps
  {
    if ps != [] {
      var later := if ps[0].Some? then env[ps[0].value := args[0]] else env;
      BindLeaves(g, if ps[0].Some? then known + {ps[0].value} else known, later, ps[1..], args[1..], x);
    }
  }

  /** The constants a meta function writes for its arguments. */
  lemma ParametersExported(g: Globals, ps: Params, args: seq<int>)
    requires FreshParams(g, {}, ps) && |args| == |ps|
    ensures AreParameters(ps, args, ExportTrees(ParamNamesInOrder(ps), Bind(map[], ps, args), false))
  {
    hide FreshParams, ExportTrees, Bind;
    var names, env := ParamNamesInOrder(ps), Bind(map[], ps, args);
    var ts := ExportTrees(names, env, false);
    BindNames(map[], ps, args);
    LengthIsCounted(ps);
    ExportsInOrder(names, env, false);
    forall i | 0 <= i < |ps| && ps[i].Some?
      ensures NamedIn(ps[..i]) < |ts|
      ensures ts[NamedIn(ps[..i])] == Tree(GlobalConstant(ps[i].value), [Tree(IntegerLiteral(args[i]), [])])
    {
      NamesAreCounted(ps, i);
      BoundToArgument(g, {}, map[], ps, args, i);
    }
    forall j: nat | j < |ts|
      ensures BelongsToOne(ps, j)
    {
      var i := CountedAt(ps, j);
    }
  }

  /** An instantiation begins with exactly one constant per named parameter, in
      order; the specialised contribution follows. */
  lemma ParametersComeFirst(g: Globals, call: Oracle, ps: Params, contribution: Tree, args: seq<int>)
    requires FreshParams(g, {}, ps) && |args| == |ps|
    ensures ParametersFirst(ps, args, Specialise(g, call, false, contribution, Bind(map[], ps, args)),
                            Instantiated(g, call, ps, contribution, args))
  {
    hide FreshParams, ExportTrees, Bind, Specialise, AreParameters;
    var params := ExportTrees(ParamNamesInOrder(ps), Bind(map[], ps, args), false);
    var rest := Specialise(g, call, false, contribution, Bind(map[], ps, args));
    ParametersExported(g, ps, args);
    assert |params| == NamedIn(ps) by {
      ParametersCounted(ps, args, params);
    }
    if !rest.Undefined? {
      assert (params + rest.trees)[..|params|] == params && (params + rest.trees)[|params|..] == rest.trees;
    }
  }

  lemma ParametersCounted(ps: Params, args: seq<int>, ts: seq<Tree>)
    requires |args| == |ps| && AreParameters(ps, args, ts)
    ensures |ts| == NamedIn(ps)
  {
  }

  /** The unit an instantiation stands for. */
  function Instantiate(g: Globals, call: Oracle, name: Name, ps: Params, contribution: Tree, args: seq<int>)
    : Option<Tree>
    requires |args| == |ps|
  {
    var meant := Instantiated(g, call, ps, contribution, args);
    if meant.Done? then Some(Tree(MetaUnit(name), meant.trees)) else None
  }

  /** What the executor does: it opens a meta unit, runs the compiled function,
      closes the unit and reads the layout. */
  function InstantiateByRunning(g: Globals, call: Oracle, name: Name, ps: Params, contribution: Tree, args: seq<int>)
    : Option<Tree>
  {
    match Run(GenMetaFunction(g, ps, contribution), call, args)
    case Finished(_, out) =>
      var (unit, rest) :- ParseNode([Some(MetaUnit(name))] + out + [None]);
      Some(unit)
    case _ => None
  }

  lemma MetaFrameRegion(g: Globals, ps: Params)
    requires FreshParams(g, {}, ps)
    ensures var b := MetaFrame(ps);
            Ready(b) && b.at == 0 && |b.blocks| == 1 && Scoped(ParamNames(ps), b.values, b.reg)
  {
    FrameScopes(g, {}, ENTRY, ps, 0);
    assert {} + ParamNames(ps) == ParamNames(ps);
    var b := SetUpStackFrame(ENTRY, ps, 0);
    IntroduceIsOpen(ParamNamesInOrder(ps), b.values, false);
  }

  /** A compiled meta function is a well-formed, acyclic graph. */
  lemma MetaFunctionWellFormed(g: Globals, ps: Params, contribution: Tree)
    requires ClosedMetaFunction(g, ps, contribution)
    ensures WellFormed(GenMetaFunction(g, ps, contribution)) && Acyclic(GenMetaFunction(g, ps, contribution))
  {
    var b := MetaFrame(ps);
    MetaFrameRegion(g, ps);
    MetaRegion(g, ParamNames(ps), b, false, contribution);
    var r := GenMeta(g, b, b.at, false, contribution);
    FinishWellFormed(b, r.0, r.1);
    var order := MetaOrder(g, ParamNames(ps), b, false, contribution);
    FinishAcyclic(b, r.0, r.1, order);
  }

  /** The frame of a meta function writes the constants of its parameters. */
  lemma MetaFrameRuns(g: Globals, call: Oracle, ps: Params, args: seq<int>, f: Cfg) returns (n: nat, last: State)
    requires FreshParams(g, {}, ps) && |args| == |ps| && Grows(MetaFrame(ps).blocks, f)
    ensures var b := MetaFrame(ps);
            var env := Bind(map[], ps, args);
            b.at < |b.blocks| && StepN(f, call, Start(args), n) == Here(b, last) &&
            Sits(ParamNames(ps), b, env, last) &&
            last.out == EncodeAll(ExportTrees(ParamNamesInOrder(ps), env, false)) &&
            AreParameters(ps, args, ExportTrees(ParamNamesInOrder(ps), env, false))
  {
    hide FreshParams, Agree, Scoped, Fresh, Grows, StepN, Execute, ExecuteAll, SetUpStackFrame, AreParameters;
    var frame := SetUpStackFrame(ENTRY, ps, 0);
    var code := IntroduceCode(ParamNamesInOrder(ps), frame.values, false);
    var env := Bind(map[], ps, args);
    EmitGrows(frame, code);
    GrowsTwice(frame.blocks, MetaFrame(ps).blocks, f);
    var mid: State;
    n, mid := FrameStarts(g, call, ps, args, f);
    IntroduceIsOpen(ParamNamesInOrder(ps), frame.values, false);
    BindNames(map[], ps, args);
    ParametersExported(g, ps, args);
    IntroduceWrites(call, ParamNames(ps), frame.values, ParamNamesInOrder(ps), false, env, mid);
    EmitRuns(f, call, frame, code, mid);
    last := ExecuteAll(code, mid, call).value;
    SitsAfter(ParamNames(ps), frame, MetaFrame(ps), env, mid, last);
    EmptyLeft(EncodeAll(ExportTrees(ParamNamesInOrder(ps), env, false)));
    Onwards(f, call, Start(args), n, Here(frame, mid), |code|);
    n := n + |code|;
  }

  /** Staging is correct: for every meta declaration, every argument list and
      every meaning of the functions called at compile time, the compiled
      function writes exactly the layout of the specialised unit; it ends early,
      with what was written so far, exactly when a calculation returns, and
      gets stuck exactly when the specialisation is undefined. */
  lemma InstantiationWrites(g: Globals, call: Oracle, name: Name, ps: Params, contribution: Tree, args: seq<int>)
    requires ClosedMetaFunction(g, ps, contribution) && |args| == |ps|
    ensures var run := Run(GenMetaFunction(g, ps, contribution), call, args);
            match Instantiated(g, call, ps, contribution, args)
            case Undefined => run == Stuck
            case Cut(ts, beginning, v) => run == Finished(v, EncodeAll(ts) + beginning)
            case Done(ts, _) =>
              run.Finished? && run.result.None? &&
              [Some(MetaUnit(name))] + run.out + [None] == Encode(Tree(MetaUnit(name), ts))
    ensures ParametersFirst(ps, args, Specialise(g, call, false, contribution, Bind(map[], ps, args)),
                            Instantiated(g, call, ps, contribution, args))
  {
    hide Specialise, Run, GenMeta, ClosedMeta, FreshParams, ParametersFirst, Instantiated, Bind, StepN;
    var f := GenMetaFunction(g, ps, contribution);
    var n := InstantiationRuns(g, call, ps, contribution, args);
    MetaFunctionWellFormed(g, ps, contribution);
    RunIsTheEnd(f, call, args, n);
    ParametersComeFirst(g, call, ps, contribution, args);
  }

  /** What a run of the compiled function has to end in. */
  ghost predicate Wrote(meant: Staged, reached: Conf) {
    match meant
    case Undefined => reached == Stuck
    case Cut(ts, beginning, v) => reached == Finished(v, EncodeAll(ts) + beginning)
    case Done(ts, _) => reached == Finished(None, EncodeAll(ts))
  }

  lemma InstantiationRuns(g: Globals, call: Oracle, ps: Params, contribution: Tree, args: seq<int>) returns (n: nat)
    requires ClosedMetaFunction(g, ps, contribution) && |args| == |ps|
    ensures Wrote(Instantiated(g, call, ps, contribution, args),
                  StepN(GenMetaFunction(g, ps, contribution), call, Start(args), n))
  {
    hide Specialise, GenMeta, StepN, Grows, Agree, Scoped, Sits, Allocates, Region, FreshParams, ClosedMeta,
         MetaFrame, Step;
    var f := GenMetaFunction(g, ps, contribution);
    var b := MetaFrame(ps);
    var env := Bind(map[], ps, args);
    var params := ExportTrees(ParamNamesInOrder(ps), env, false);
    var meant := Specialise(g, call, false, contribution, env);
    var r := GenMeta(g, b, b.at, false, contribution);
    MetaFrameRegion(g, ps);
    MetaRegion(g, ParamNames(ps), b, false, contribution);
    FinalRegion(b, r.0, r.1);
    var mid: State;
    n, mid := MetaFrameRuns(g, call, ps, args, f);
    var k, last := MetaWrites(g, call, ParamNames(ps), b, false, contribution, env, mid, f);
    Onwards(f, call, Start(args), n, Here(b, mid), k);
    n := n + k;
    if !meant.Undefined? {
      EncodeAllAppend(params, meant.trees);
    }
    if meant.Done? {
      FinalRetVoid(f, call, r.0, last);
      OneMore(f, call, Start(args), n);
      n := n + 1;
    } else if meant.Cut? {
      Assoc(EncodeAll(params), EncodeAll(meant.trees), meant.beginning);
    }
    assert Wrote(After(params, meant), StepN(f, call, Start(args), n));
  }

  lemma FinalRegion(b: Builder, r: Builder, end: Option<nat>)
    requires Region(b, r, end) && end == Some(r.at)
    ensures var f := Finish(r, end);
            Grows(r.blocks, f) && Grows(b.blocks, f) && r.at < |f| && f[r.at] == r.blocks[r.at] + [RetVoid]
  {
    FinalReturn(r, end);
    RegionGrows(b, r, end);
    GrowsTwice(b.blocks, r.blocks, Finish(r, end));
  }

  lemma FinalRetVoid(f: Cfg, call: Oracle, r: Builder, st: State)
    requires r.at < |r.blocks| && r.at < |f| && f[r.at] == r.blocks[r.at] + [RetVoid]
    ensures Step(f, call, Here(r, st)) == Finished(None, st.out)
  {
  }
}
