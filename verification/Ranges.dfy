/** Every value is a 32-bit integer: what literals, constants and arguments are,
    results and exported values are as well. */
module Ranges {
  import opened Wrappers
  import opened Ast
  import opened Machine
  import opened Semantics
  import opened FunctionCodegen
  import opened MetaCodegen
  import opened Staging
  import opened Instantiation

  /** The integer literals of a tree fit. */
  predicate WordSized(t: Tree)
    decreases t, 0
  {
    (t.head.IntegerLiteral? ==> IsWord(t.head.value)) && AllWordSized(t.kids)
  }

  predicate AllWordSized(ts: seq<Tree>)
    decreases ts
  {
    ts == [] || (WordSized(ts[0]) && AllWordSized(ts[1..]))
  }

  lemma {:induction false} WordSizedAt(ts: seq<Tree>, i: nat)
    requires AllWordSized(ts) && i < |ts|
    ensures WordSized(ts[i])
    decreases ts
  {
    if i != 0 {
      WordSizedAt(ts[1..], i - 1);
    }
  }

  ghost predicate GlobalsFit(g: Globals) {
    forall x | x in g.constants :: IsWord(g.constants[x])
  }

  ghost predicate EnvFits(env: Env) {
    forall x | x in env :: IsWord(env[x])
  }

  predicate WordsOnly(ns: seq<int>) {
    forall i | 0 <= i < |ns| :: IsWord(ns[i])
  }

  ghost predicate ResultFits(r: Option<Option<int>>) {
    r.Some? && r.value.Some? ==> IsWord(r.value.value)
  }

  ghost predicate CallsFit(call: Oracle) {
    forall s, ns | WordsOnly(ns) :: ResultFits(call(s, ns))
  }

  lemma OperatorFits(op: BinaryOp, a: int, b: int)
    requires IsWord(a) && IsWord(b)
    ensures Operate(op, a, b).Some? ==> IsWord(Operate(op, a, b).value)
  {
    if op.Div? && Operate(op, a, b).Some? {
      QuotientFits(a, b);
    }
  }

  lemma QuotientFits(a: int, b: int)
    requires IsWord(a) && IsWord(b) && b != 0 && !(a == -TWO_TO_THE_31 && b == -1)
    ensures IsWord(Quotient(a, b))
  {
  }

  ghost predicate MeaningFits(p: Option<(Meaning, Env)>) {
    p.Some? ==> EnvFits(p.value.1) && (p.value.0.Number? ==> IsWord(p.value.0.n))
  }

  lemma {:induction false} EvalFits(g: Globals, call: Oracle, e: Tree, env: Env)
    requires GlobalsFit(g) && CallsFit(call) && WordSized(e) && EnvFits(env)
    ensures MeaningFits(Eval(g, call, e, env))
    decreases e, 0
  {
    match e.head
    case Binary(op) =>
      if |e.kids| == 2 {
        assert AllWordSized(e.kids[1..]) && e.kids[1..][0] == e.kids[1];
        EvalFits(g, call, e.kids[0], env);
        var l := Eval(g, call, e.kids[0], env);
        if l.Some? {
          EvalFits(g, call, e.kids[1], l.value.1);
          var r := Eval(g, call, e.kids[1], l.value.1);
          if r.Some? && Content(l.value.0, r.value.1).Some? && Content(r.value.0, r.value.1).Some? {
            OperatorFits(op, Content(l.value.0, r.value.1).value, Content(r.value.0, r.value.1).value);
          }
        }
      }
    case Call =>
      if e.kids != [] {
        EvalFits(g, call, e.kids[0], env);
        var f := Eval(g, call, e.kids[0], env);
        if f.Some? {
          EvalArgsFit(g, call, e.kids[1..], f.value.1);
        }
      }
    case _ =>
  }

  lemma {:induction false} EvalArgsFit(g: Globals, call: Oracle, es: seq<Tree>, env: Env)
    requires GlobalsFit(g) && CallsFit(call) && AllWordSized(es) && EnvFits(env)
    ensures var p := EvalArgs(g, call, es, env); p.Some? ==> WordsOnly(p.value.0) && EnvFits(p.value.1)
    decreases es
  {
    if es != [] {
      EvalFits(g, call, es[0], env);
      var first := Eval(g, call, es[0], env);
      if first.Some? {
        EvalArgsFit(g, call, es[1..], first.value.1);
      }
    }
  }

  ghost predicate OutcomeFits(o: Outcome) {
    match o
    case Normal(env) => EnvFits(env)
    case Returned(v) => v.Some? ==> IsWord(v.value)
    case Wrong => true
  }

  lemma {:induction false} ExecFits(g: Globals, call: Oracle, s: Tree, env: Env)
    requires GlobalsFit(g) && CallsFit(call) && WordSized(s) && EnvFits(env)
    ensures OutcomeFits(Exec(g, call, s, env))
    decreases s, 0
  {
    hide Eval, GlobalsFit, CallsFit;
    match s.head
    case UnscopedCompound | Compound => ExecAllFits(g, call, s.kids, env);
    case Return | ExpressionStmt | DeclStmt(_) =>
      if s.kids != [] {
        EvalFits(g, call, s.kids[0], env);
      }
    case If =>
      if |s.kids| >= 2 {
        WordSizedAt(s.kids, 1);
        EvalFits(g, call, s.kids[0], env);
        var p := Eval(g, call, s.kids[0], env);
        if p.Some? {
          ExecFits(g, call, s.kids[1], p.value.1);
          if |s.kids| > 2 {
            WordSizedAt(s.kids, 2);
            ExecFits(g, call, s.kids[2], p.value.1);
          }
        }
      }
    case _ =>
  }

  lemma {:induction false} ExecAllFits(g: Globals, call: Oracle, ss: seq<Tree>, env: Env)
    requires GlobalsFit(g) && CallsFit(call) && AllWordSized(ss) && EnvFits(env)
    ensures OutcomeFits(ExecAll(g, call, ss, env))
    decreases ss
  {
    if ss != [] {
      ExecFits(g, call, ss[0], env);
      if Exec(g, call, ss[0], env).Normal? {
        ExecAllFits(g, call, ss[1..], Exec(g, call, ss[0], env).env);
      }
    }
  }

  lemma {:induction false} BindFits(env: Env, ps: Params, args: seq<int>)
    requires |ps| == |args| && EnvFits(env) && WordsOnly(args)
    ensures EnvFits(Bind(env, ps, args))
    decreases ps
  {
    if ps != [] {
      BindFits(if ps[0].Some? then env[ps[0].value := args[0]] else env, ps[1..], args[1..]);
    }
  }

  ghost predicate ProgramFits(p: Program) {
    forall f | f in p :: GlobalsFit(p[f].g) && WordSized(p[f].body)
  }

  /** Whatever a call of a generated program with 32-bit arguments returns is a
      32-bit integer. */
  lemma {:induction false} ResultsAreWords(p: Program, depth: nat, f: Sym, args: seq<int>)
    requires ClosedProgram(p) && ProgramFits(p) && WordsOnly(args)
    ensures ResultFits(MachineCall(p, depth, f, args))
    decreases depth
  {
    hide Exec, MachineCall, ClosedProgram;
    ProgramPreserved(p, depth, f, args);
    if depth != 0 && f in p && |args| == |p[f].params| {
      var callee: Oracle := (s: Sym, a: seq<int>) => ExactCall(p, depth - 1, s, a);
      forall s, ns | WordsOnly(ns)
        ensures ResultFits(callee(s, ns))
      {
        ResultsAreWords(p, depth - 1, s, ns);
        ProgramPreserved(p, depth - 1, s, ns);
      }
      BindFits(map[], p[f].params, args);
      ExecFits(p[f].g, callee, p[f].body, Bind(map[], p[f].params, args));
    }
  }

  // Staging

  lemma {:induction false} WordSizedAppend(a: seq<Tree>, b: seq<Tree>)
    ensures AllWordSized(a + b) <==> AllWordSized(a) && AllWordSized(b)
    decreases a
  {
    if a == [] {
      assert a + b == b;
    } else {
      assert (a + b)[1..] == a[1..] + b;
      WordSizedAppend(a[1..], b);
    }
  }

  lemma {:induction false} ExportsFit(xs: seq<Name>, env: Env, inside: bool)
    requires EnvFits(env)
    ensures AllWordSized(ExportTrees(xs, env, inside))
    decreases xs
  {
    if xs != [] {
      ExportsFit(xs[1..], env, inside);
      if xs[0] in env {
        var literal := Tree(IntegerLiteral(env[xs[0]]), []);
        var one := Exported(xs[0], env[xs[0]], inside);
        assert [literal][1..] == [] && [one][1..] == [] && AllWordSized([]);
        assert AllWordSized([literal]);
        assert AllWordSized([one]);
        WordSizedAppend([one], ExportTrees(xs[1..], env, inside));
      } else {
        assert [] + ExportTrees(xs[1..], env, inside) == ExportTrees(xs[1..], env, inside);
      }
    }
  }

  ghost predicate StagedFits(meant: Staged) {
    (!meant.Undefined? ==> AllWordSized(meant.trees)) && (meant.Done? ==> EnvFits(meant.env))
  }

  lemma {:induction false} SpecialiseFits(g: Globals, call: Oracle, inside: bool, t: Tree, env: Env)
    requires GlobalsFit(g) && CallsFit(call) && WordSized(t) && EnvFits(env)
    ensures StagedFits(Specialise(g, call, inside, t, env))
    decreases t, 0
  {
    hide GlobalsFit, CallsFit, Exec, Eval;
    if t.head.MetaIf? {
      TakenFits(g, call, inside, t, env);
    } else if t.head.MetaCalculation? {
      if t.kids != [] {
        ExecFits(g, call, t.kids[0], env);
        var outcome := Exec(g, call, t.kids[0], env);
        if outcome.Normal? {
          ExportsFit(Exports(t.kids[0]), outcome.env, inside);
        }
      }
    } else {
      SpecialiseAllFits(g, call, Deeper(inside, t.head), t.kids, env);
      if !t.head.MetaContribution? {
        SpecialiseCopy(g, call, inside, t, env);
        var inner := SpecialiseAll(g, call, Deeper(inside, t.head), t.kids, env);
        if inner.Done? {
          var copied := Tree(t.head, inner.trees);
          assert [copied][1..] == [] && AllWordSized([]) && WordSized(copied);
          assert AllWordSized([copied]);
        }
      }
    }
  }

  lemma {:induction false} TakenFits(g: Globals, call: Oracle, inside: bool, t: Tree, env: Env)
    requires GlobalsFit(g) && CallsFit(call) && WordSized(t) && EnvFits(env) && t.head.MetaIf?
    ensures StagedFits(Specialise(g, call, inside, t, env))
    decreases t, 0, 0
  {
    hide GlobalsFit, CallsFit, Eval;
    if |t.kids| >= 2 {
      WordSizedAt(t.kids, 1);
      SpecialiseIf(g, call, inside, t, env);
      EvalFits(g, call, t.kids[0], env);
      var p := Eval(g, call, t.kids[0], env);
      if p.Some? && Truth(p.value.0).Some? {
        if Truth(p.value.0).value {
          SpecialiseFits(g, call, inside, t.kids[1], p.value.1);
        } else if |t.kids| > 2 {
          WordSizedAt(t.kids, 2);
          SpecialiseFits(g, call, inside, t.kids[2], p.value.1);
        }
      }
    }
  }

  lemma {:induction false} SpecialiseAllFits(g: Globals, call: Oracle, inside: bool, ts: seq<Tree>, env: Env)
    requires GlobalsFit(g) && CallsFit(call) && AllWordSized(ts) && EnvFits(env)
    ensures StagedFits(SpecialiseAll(g, call, inside, ts, env))
    decreases ts
  {
    if ts != [] {
      SpecialiseFirst(g, call, inside, ts, env);
      SpecialiseFits(g, call, inside, ts[0], env);
      var first := Specialise(g, call, inside, ts[0], env);
      if first.Done? {
        SpecialiseAllFits(g, call, inside, ts[1..], first.env);
        var rest := SpecialiseAll(g, call, inside, ts[1..], first.env);
        if !rest.Undefined? {
          WordSizedAppend(first.trees, rest.trees);
        }
      }
    }
  }

  /** The literals an instantiation with 32-bit arguments writes are 32-bit
      integers again. */
  lemma InstantiatedFits(g: Globals, call: Oracle, ps: Params, contribution: Tree, args: seq<int>)
    requires GlobalsFit(g) && CallsFit(call) && WordSized(contribution) && |args| == |ps| && WordsOnly(args)
    ensures StagedFits(Instantiated(g, call, ps, contribution, args))
  {
    var env := Bind(map[], ps, args);
    var params := ExportTrees(ParamNamesInOrder(ps), env, false);
    BindFits(map[], ps, args);
    ExportsFit(ParamNamesInOrder(ps), env, false);
    SpecialiseFits(g, call, false, contribution, env);
    var meant := Specialise(g, call, false, contribution, env);
    if !meant.Undefined? {
      WordSizedAppend(params, meant.trees);
    }
  }
}
