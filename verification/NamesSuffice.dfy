/** A declaration that keeps to the branches of its meta-ifs does not depend on
    what else is declared: no run of it is undefined for want of a name. */
module NamesSuffice {
  import opened Wrappers
  import opened Ast
  import opened Machine
  import opened Runs
  import opened Semantics
  import opened FunctionCodegen
  import opened MetaCodegen
  import opened Staging
  import opened Instantiation
  import opened WaysThrough

  /** Both environments hold the names, with the same values. */
  ghost predicate AgreeOnNames(names: set<Name>, a: Env, b: Env) {
    forall x | x in names :: x in a && x in b && a[x] == b[x]
  }

  ghost predicate SameEval(names: set<Name>, a: Option<(Meaning, Env)>, b: Option<(Meaning, Env)>) {
    if a.None? || b.None? then a == b
    else
      a.value.0 == b.value.0 && (a.value.0.Variable? ==> a.value.0.x in names) &&
      AgreeOnNames(names, a.value.1, b.value.1)
  }

  ghost predicate SameArgs(names: set<Name>, a: Option<(seq<int>, Env)>, b: Option<(seq<int>, Env)>) {
    if a.None? || b.None? then a == b
    else a.value.0 == b.value.0 && AgreeOnNames(names, a.value.1, b.value.1)
  }

  lemma {:induction false} EvalSuffices(g: Globals, call: Oracle, names: set<Name>, e: Tree, a: Env, b: Env)
    requires ClosedExpr(g, names, e) && AgreeOnNames(names, a, b)
    ensures SameEval(names, Eval(g, call, e, a), Eval(g, call, e, b))
    decreases e, 0
  {
    hide Operate;
    match e.head
    case Binary(_) =>
      EvalSuffices(g, call, names, e.kids[0], a, b);
      var l, m := Eval(g, call, e.kids[0], a), Eval(g, call, e.kids[0], b);
      if l.Some? {
        EvalSuffices(g, call, names, e.kids[1], l.value.1, m.value.1);
      }
    case Call =>
      EvalSuffices(g, call, names, e.kids[0], a, b);
      var l, m := Eval(g, call, e.kids[0], a), Eval(g, call, e.kids[0], b);
      if l.Some? {
        ArgsSuffice(g, call, names, e.kids[1..], l.value.1, m.value.1);
      }
    case _ =>
  }

  lemma {:induction false} ArgsSuffice(g: Globals, call: Oracle, names: set<Name>, es: seq<Tree>, a: Env, b: Env)
    requires ClosedExprs(g, names, es) && AgreeOnNames(names, a, b)
    ensures SameArgs(names, EvalArgs(g, call, es, a), EvalArgs(g, call, es, b))
    decreases es
  {
    if es != [] {
      EvalSuffices(g, call, names, es[0], a, b);
      var l, m := Eval(g, call, es[0], a), Eval(g, call, es[0], b);
      if l.Some? {
        ArgsSuffice(g, call, names, es[1..], l.value.1, m.value.1);
      }
    }
  }

  ghost predicate SameOutcome(names: set<Name>, a: Outcome, b: Outcome) {
    if a.Normal? && b.Normal? then AgreeOnNames(names, a.env, b.env) else a == b
  }

  /** A statement that surely has its names does the same wherever it has them. */
  lemma {:induction false} ExecSuffices(g: Globals, call: Oracle, names: set<Name>, s: Tree, a: Env, b: Env)
    requires SureStmt(g, names, s) && AgreeOnNames(names, a, b)
    ensures SameOutcome(names + SurelyLeft(s), Exec(g, call, s, a), Exec(g, call, s, b))
    decreases s, 0
  {
    hide Eval, ClosedExpr, Truth;
    match s.head
    case UnscopedCompound | Compound => ExecAllSuffices(g, call, names, s.kids, a, b);
    case Return | DeclStmt(_) =>
      if s.kids != [] {
        EvalSuffices(g, call, names, s.kids[0], a, b);
      }
    case ExpressionStmt =>
      if s.kids != [] && ClosedExpr(g, names, s.kids[0]) {
        EvalSuffices(g, call, names, s.kids[0], a, b);
      } else if s.kids != [] {
        PlainReading.VariableStands(g, call, s.kids[0], a);
        PlainReading.VariableStands(g, call, s.kids[0], b);
      }
    case If =>
      EvalSuffices(g, call, names, s.kids[0], a, b);
      var l, m := Eval(g, call, s.kids[0], a), Eval(g, call, s.kids[0], b);
      if l.Some? {
        ExecSuffices(g, call, names, s.kids[1], l.value.1, m.value.1);
        if |s.kids| > 2 {
          ExecSuffices(g, call, names, s.kids[2], l.value.1, m.value.1);
        }
      }
    case _ =>
  }

  lemma {:induction false} ExecAllSuffices(g: Globals, call: Oracle, names: set<Name>, ss: seq<Tree>, a: Env, b: Env)
    requires AllSure(g, names, ss) && AgreeOnNames(names, a, b)
    ensures SameOutcome(names + AllSurelyLeft(ss), ExecAll(g, call, ss, a), ExecAll(g, call, ss, b))
    decreases ss
  {
    if ss != [] {
      ExecSuffices(g, call, names, ss[0], a, b);
      var l, m := Exec(g, call, ss[0], a), Exec(g, call, ss[0], b);
      if l.Normal? {
        var more := names + SurelyLeft(ss[0]);
        ExecAllSuffices(g, call, more, ss[1..], l.env, m.env);
        assert more + AllSurelyLeft(ss[1..]) == names + AllSurelyLeft(ss);
      }
    }
  }

  lemma {:induction false} SameExports(xs: seq<Name>, names: set<Name>, a: Env, b: Env, inside: bool)
    requires AgreeOnNames(names, a, b) && forall x | x in xs :: x in names
    ensures ExportTrees(xs, a, inside) == ExportTrees(xs, b, inside)
    decreases xs
  {
    if xs != [] {
      SameExports(xs[1..], names, a, b, inside);
      assert xs[0] in xs;
    }
  }

  ghost predicate SameStaged(names: set<Name>, a: Staged, b: Staged) {
    if a.Done? && b.Done? then a.trees == b.trees && AgreeOnNames(names, a.env, b.env) else a == b
  }

  /** A tree that keeps to its branches comes to the same, from every
      environment that has the names declared around it, whatever other names it
      has and whatever they hold. */
  lemma {:induction false} NamesAreEnough(g: Globals, call: Oracle, most: set<Name>, inside: bool, names: set<Name>,
                                          t: Tree, a: Env, b: Env)
    requires ClosedMeta(g, most, inside, t) && KeepsToBranches(g, names, t) && AgreeOnNames(names, a, b)
    ensures SameStaged(names + SurelyDeclares(t), Specialise(g, call, inside, t, a), Specialise(g, call, inside, t, b))
    decreases t, 1
  {
    hide Specialise, SpecialiseAll;
    if t.head.MetaCalculation? {
      CalculationSuffices(g, call, most, inside, names, t, a, b);
    } else if t.head.MetaIf? {
      BranchesSuffice(g, call, most, inside, names, t, a, b);
    } else {
      ClosedBelow(g, most, inside, t);
      AllNamesSuffice(g, call, most, Deeper(inside, t.head), names, t.kids, a, b);
      CopySuffices(g, call, inside, names, t, a, b);
    }
  }

  lemma CopySuffices(g: Globals, call: Oracle, inside: bool, names: set<Name>, t: Tree, a: Env, b: Env)
    requires !t.head.MetaIf? && !t.head.MetaCalculation? && AgreeOnNames(names, a, b)
    requires var deeper := Deeper(inside, t.head);
             SameStaged(names + SurelyDeclaresAll(t.kids), SpecialiseAll(g, call, deeper, t.kids, a),
                        SpecialiseAll(g, call, deeper, t.kids, b))
    ensures SameStaged(names + SurelyDeclares(t), Specialise(g, call, inside, t, a), Specialise(g, call, inside, t, b))
  {
    hide SpecialiseAll;
    if !t.head.MetaContribution? {
      SpecialiseCopy(g, call, inside, t, a);
      SpecialiseCopy(g, call, inside, t, b);
    }
  }

  lemma CalculationSuffices(g: Globals, call: Oracle, most: set<Name>, inside: bool, names: set<Name>, t: Tree,
                            a: Env, b: Env)
    requires ClosedMeta(g, most, inside, t) && KeepsToBranches(g, names, t) && AgreeOnNames(names, a, b)
    requires t.head.MetaCalculation?
    ensures SameStaged(names + SurelyDeclares(t), Specialise(g, call, inside, t, a), Specialise(g, call, inside, t, b))
  {
    var s := t.kids[0];
    ExecSuffices(g, call, names, s, a, b);
    SureIsDeclared(s);
    ExportsAreDeclared(s);
    var l, m := Exec(g, call, s, a), Exec(g, call, s, b);
    if l.Normal? {
      SameExports(Exports(s), names + SurelyLeft(s), l.env, m.env, inside);
    }
  }

  lemma {:induction false} BranchesSuffice(g: Globals, call: Oracle, most: set<Name>, inside: bool, names: set<Name>,
                                           t: Tree, a: Env, b: Env)
    requires ClosedMeta(g, most, inside, t) && KeepsToBranches(g, names, t) && AgreeOnNames(names, a, b)
    requires t.head.MetaIf?
    ensures SameStaged(names + SurelyDeclares(t), Specialise(g, call, inside, t, a), Specialise(g, call, inside, t, b))
    decreases t, 0
  {
    hide Eval;
    EvalSuffices(g, call, names, t.kids[0], a, b);
    SpecialiseIf(g, call, inside, t, a);
    SpecialiseIf(g, call, inside, t, b);
    var l, m := Eval(g, call, t.kids[0], a), Eval(g, call, t.kids[0], b);
    if l.Some? && Truth(l.value.0).Some? {
      if Truth(l.value.0).value {
        NamesAreEnough(g, call, most, inside, names, t.kids[1], l.value.1, m.value.1);
      } else if |t.kids| > 2 {
        NamesAreEnough(g, call, most + DeclaresMeta(t.kids[1]), inside, names, t.kids[2], l.value.1, m.value.1);
      }
    }
  }

  lemma {:induction false} AllNamesSuffice(g: Globals, call: Oracle, most: set<Name>, inside: bool, names: set<Name>,
                                           ts: seq<Tree>, a: Env, b: Env)
    requires ClosedMetas(g, most, inside, ts) && AllKeepToBranches(g, names, ts) && AgreeOnNames(names, a, b)
    ensures SameStaged(names + SurelyDeclaresAll(ts), SpecialiseAll(g, call, inside, ts, a),
                       SpecialiseAll(g, call, inside, ts, b))
    decreases ts, 0
  {
    if ts != [] {
      SpecialiseFirst(g, call, inside, ts, a);
      SpecialiseFirst(g, call, inside, ts, b);
      NamesAreEnough(g, call, most, inside, names, ts[0], a, b);
      var l, m := Specialise(g, call, inside, ts[0], a), Specialise(g, call, inside, ts[0], b);
      if l.Done? {
        var more := names + SurelyDeclares(ts[0]);
        AllNamesSuffice(g, call, most + DeclaresMeta(ts[0]), inside, more, ts[1..], l.env, m.env);
        assert more + SurelyDeclaresAll(ts[1..]) == names + SurelyDeclaresAll(ts);
      }
    }
  }

  /** What an instantiation would come to if other names, too, had values. */
  function InstantiatedBeside(g: Globals, call: Oracle, ps: Params, contribution: Tree, args: seq<int>, others: Env)
    : Staged
    requires |args| == |ps|
  {
    var env := Bind(map[], ps, args);
    After(ExportTrees(ParamNamesInOrder(ps), env, false), Specialise(g, call, false, contribution, others + env))
  }

  /** The compiled function of a declaration that keeps to its branches writes
      what specialisation writes beside any other names, and gets stuck exactly
      when that is undefined: it never gets stuck for want of a name. */
  lemma NeverStuckForNames(g: Globals, call: Oracle, ps: Params, contribution: Tree, args: seq<int>, others: Env)
    requires ClosedMetaFunction(g, ps, contribution) && |args| == |ps|
    requires KeepsToBranches(g, ParamNames(ps), contribution)
    ensures var run := Run(GenMetaFunction(g, ps, contribution), call, args);
            var meant := InstantiatedBeside(g, call, ps, contribution, args, others);
            Wrote(meant, run) && (run == Stuck <==> meant.Undefined?)
  {
    hide Run, GenMetaFunction, Specialise, ClosedMeta, KeepsToBranches, FreshParams;
    var env := Bind(map[], ps, args);
    BindNames(map[], ps, args);
    assert AgreeOnNames(ParamNames(ps), env, others + env);
    NamesAreEnough(g, call, ParamNames(ps), false, ParamNames(ps), contribution, env, others + env);
    var n := InstantiationRuns(g, call, ps, contribution, args);
    MetaFunctionWellFormed(g, ps, contribution);
    RunIsTheEnd(GenMetaFunction(g, ps, contribution), call, args, n);
  }
}
