/** Staging in the plain reading: what a reader of a meta declaration expects
    its instantiations to be, and when they are that. */
module PlainStaging {
  import opened Ast
  import opened Machine
  import opened Semantics
  import opened PlainReading
  import opened FunctionCodegen
  import opened MetaCodegen
  import opened Staging
  import opened Instantiation
  import opened SpecialisedUnits

  /** Direct specialisation with conditions tested by value. */
  function PlainSpecialise(g: Globals, call: Oracle, inside: bool, t: Tree, env: Env): Staged
    decreases t, 0
  {
    match t.head
    case MetaContribution => PlainSpecialiseAll(g, call, inside, t.kids, env)
    case MetaIf =>
      if |t.kids| < 2 then Undefined
      else
        var p := Plain(g, call, t.kids[0], env);
        if p.None? || PlainTruth(p.value.0).None? then Undefined
        else if PlainTruth(p.value.0).value then PlainSpecialise(g, call, inside, t.kids[1], p.value.1)
        else if |t.kids| > 2 then PlainSpecialise(g, call, inside, t.kids[2], p.value.1)
        else Done([], p.value.1)
    case MetaCalculation =>
      if t.kids == [] then Undefined
      else Calculated(Exports(t.kids[0]), inside, PlainExec(g, call, t.kids[0], env))
    case _ => Under(t.head, env, PlainSpecialiseAll(g, call, inside || t.head.FunctionDecl?, t.kids, env))
  }

  function PlainSpecialiseAll(g: Globals, call: Oracle, inside: bool, ts: seq<Tree>, env: Env): Staged
    decreases ts
  {
    if ts == [] then Done([], env)
    else
      match PlainSpecialise(g, call, inside, ts[0], env)
      case Done(first, env1) => After(first, PlainSpecialiseAll(g, call, inside, ts[1..], env1))
      case other => other
  }

  /** What runs at compile time is disciplined, and meta-ifs test values. */
  predicate DisciplinedMeta(g: Globals, t: Tree)
    decreases t, 0
  {
    match t.head
    case MetaIf =>
      |t.kids| >= 2 && Disciplined(g, t.kids[0]) && !TestsAddress(g, t.kids[0]) &&
      DisciplinedMeta(g, t.kids[1]) && (|t.kids| > 2 ==> DisciplinedMeta(g, t.kids[2]))
    case MetaCalculation => t.kids != [] ==> DisciplinedStmt(g, t.kids[0])
    case _ => DisciplinedMetas(g, t.kids)
  }

  predicate DisciplinedMetas(g: Globals, ts: seq<Tree>)
    decreases ts
  {
    ts == [] || (DisciplinedMeta(g, ts[0]) && DisciplinedMetas(g, ts[1..]))
  }

  /** For disciplined meta declarations both readings specialise alike. */
  lemma {:induction false} StagedReadingsAgree(g: Globals, call: Oracle, known: set<Name>, inside: bool, t: Tree,
                                               env: Env)
    requires ClosedMeta(g, known, inside, t) && DisciplinedMeta(g, t)
    ensures Specialise(g, call, inside, t, env) == PlainSpecialise(g, call, inside, t, env)
    decreases t, 1
  {
    if t.head.MetaContribution? {
      AllStagedReadingsAgree(g, call, known, inside, t.kids, env);
    } else if t.head.MetaIf? {
      TestedReadingsAgree(g, call, known, inside, t, env);
    } else if t.head.MetaCalculation? {
      ReadingsAgree(g, call, known, t.kids[0], env);
    } else {
      AllStagedReadingsAgree(g, call, known, Deeper(inside, t.head), t.kids, env);
      SpecialiseCopy(g, call, inside, t, env);
    }
  }

  lemma {:induction false} TestedReadingsAgree(g: Globals, call: Oracle, known: set<Name>, inside: bool, t: Tree,
                                               env: Env)
    requires ClosedMeta(g, known, inside, t) && DisciplinedMeta(g, t) && t.head.MetaIf?
    ensures Specialise(g, call, inside, t, env) == PlainSpecialise(g, call, inside, t, env)
    decreases t, 0
  {
    LateIsEager(g, call, known, t.kids[0], env);
    SpecialiseIf(g, call, inside, t, env);
    var p := Eval(g, call, t.kids[0], env);
    if p.Some? && Truth(p.value.0).Some? {
      if Truth(p.value.0).value {
        StagedReadingsAgree(g, call, known, inside, t.kids[1], p.value.1);
      } else if |t.kids| > 2 {
        StagedReadingsAgree(g, call, known + DeclaresMeta(t.kids[1]), inside, t.kids[2], p.value.1);
      }
    }
  }

  lemma {:induction false} AllStagedReadingsAgree(g: Globals, call: Oracle, known: set<Name>, inside: bool,
                                                  ts: seq<Tree>,
                                                  env: Env)
    requires ClosedMetas(g, known, inside, ts) && DisciplinedMetas(g, ts)
    ensures SpecialiseAll(g, call, inside, ts, env) == PlainSpecialiseAll(g, call, inside, ts, env)
    decreases ts
  {
    if ts != [] {
      StagedReadingsAgree(g, call, known, inside, ts[0], env);
      var first := Specialise(g, call, inside, ts[0], env);
      if first.Done? {
        AllStagedReadingsAgree(g, call, known + DeclaresMeta(ts[0]), inside, ts[1..], first.env);
      }
    }
  }

  /** What a reader of the declaration expects an instantiation to come to. */
  function PlainInstantiated(g: Globals, call: Oracle, ps: Params, contribution: Tree, args: seq<int>): Staged
    requires |args| == |ps|
  {
    var env := Bind(map[], ps, args);
    After(ExportTrees(ParamNamesInOrder(ps), env, false), PlainSpecialise(g, call, false, contribution, env))
  }

  /** Compiling, running and reading back a disciplined meta declaration gives
      the unit its reader expects. */
  lemma DisciplinedStaging(g: Globals, call: Oracle, name: Name, ps: Params, contribution: Tree, args: seq<int>)
    requires ClosedMetaFunction(g, ps, contribution) && |args| == |ps| && DisciplinedMeta(g, contribution)
    requires contribution.head.MetaContribution? && WellKinded(contribution) && Derivable(false, contribution)
    ensures InstantiateByRunning(g, call, name, ps, contribution, args) ==
            ReadBack(name, PlainInstantiated(g, call, ps, contribution, args))
  {
    hide InstantiateByRunning, Derivable, DisciplinedMeta, Specialise, PlainSpecialise, ReadBack;
    var env := Bind(map[], ps, args);
    StagingIsSpecialisation(g, call, name, ps, contribution, args);
    StagedReadingsAgree(g, call, ParamNames(ps), false, contribution, env);
  }
}
