/** The plain reading of the language and when the exact one agrees with it. */
module PlainReading {
  import opened Wrappers
  import opened Ast
  import opened Machine
  import opened Semantics

  /** An expression read with operands that are values at once; an
      assignment needs a variable on its left and yields the assigned value. */
  function Plain(g: Globals, call: Oracle, e: Tree, env: Env): Option<(Meaning, Env)>
    decreases e, 0
  {
    match e.head
    case DeclRef(x) =>
      if x in g.functions then Some((Function(g.functions[x]), env))
      else if x in g.constants then Some((Number(g.constants[x]), env))
      else if x in env then Some((Number(env[x]), env))
      else None
    case IntegerLiteral(n) => Some((Number(n), env))
    case BooleanLiteral(b) => Some((Number(Bit(b)), env))
    case MetaInstantiation =>
      if e in g.instances then Some((Function(g.instances[e]), env)) else None
    case Binary(op) =>
      if |e.kids| != 2 then None
      else if op.Assign? then
        var (r, env1) :- Plain(g, call, e.kids[1], env);
        if r.Number? && IsVariable(g, e.kids[0]) && e.kids[0].head.name in env1
        then Some((r, env1[e.kids[0].head.name := r.n]))
        else None
      else
        var (l, env1) :- Plain(g, call, e.kids[0], env);
        var (r, env2) :- Plain(g, call, e.kids[1], env1);
        if l.Number? && r.Number? then
          var n :- Operate(op, l.n, r.n);
          Some((Number(n), env2))
        else None
    case Call =>
      if e.kids == [] then None
      else
        var (f, env1) :- Plain(g, call, e.kids[0], env);
        var (ns, env2) :- PlainArgs(g, call, e.kids[1..], env1);
        if !f.Function? then None
        else
          var r :- call(f.sym, ns);
          Some((Result(r), env2))
    case _ => None
  }

  function PlainArgs(g: Globals, call: Oracle, es: seq<Tree>, env: Env): Option<(seq<int>, Env)>
    decreases es
  {
    if es == [] then Some(([], env))
    else
      var (m, env1) :- Plain(g, call, es[0], env);
      if !m.Number? then None
      else
        var (ns, env2) :- PlainArgs(g, call, es[1..], env1);
        Some(([m.n] + ns, env2))
  }

  /** A condition read by value. */
  function PlainTruth(m: Meaning): Option<bool> {
    if m.Number? then Some(m.n != 0) else None
  }

  /** The plain reading of a statement.  A variable that is a whole statement
      is not read. */
  function PlainExec(g: Globals, call: Oracle, s: Tree, env: Env): Outcome
    decreases s, 0
  {
    match s.head
    case UnscopedCompound => PlainExecAll(g, call, s.kids, env)
    case Compound => EndScope(env, PlainExecAll(g, call, s.kids, env))
    case Return =>
      if s.kids == [] then Returned(None)
      else
        var p := Plain(g, call, s.kids[0], env);
        if p.Some? && p.value.0.Number? then Returned(Some(p.value.0.n)) else Wrong
    case ExpressionStmt =>
      var p := if |s.kids| == 1 then Plain(g, call, s.kids[0], env) else None;
      if |s.kids| == 1 && IsVariable(g, s.kids[0]) then Normal(env)
      else if p.Some? then Normal(p.value.1)
      else Wrong
    case DeclStmt(x) =>
      var p := if |s.kids| == 1 then Plain(g, call, s.kids[0], env) else None;
      if p.Some? && p.value.0.Number? then Normal(p.value.1[x := p.value.0.n]) else Wrong
    case If =>
      var p := if |s.kids| >= 2 then Plain(g, call, s.kids[0], env) else None;
      if p.None? || PlainTruth(p.value.0).None? then Wrong
      else if PlainTruth(p.value.0).value then PlainExec(g, call, s.kids[1], p.value.1)
      else if |s.kids| > 2 then PlainExec(g, call, s.kids[2], p.value.1)
      else Normal(p.value.1)
    case _ => Wrong
  }

  function PlainExecAll(g: Globals, call: Oracle, ss: seq<Tree>, env: Env): Outcome
    decreases ss
  {
    if ss == [] then Normal(env)
    else
      match PlainExec(g, call, ss[0], env)
      case Normal(env1) => PlainExecAll(g, call, ss[1..], env1)
      case other => other
  }

  predicate IsVariable(g: Globals, e: Tree) {
    e.head.DeclRef? && !g.Knows(e.head.name)
  }

  /** The variable an expression stands for, if any: a bare variable, or an
      assignment to what stands for one of what stands for one. */
  function Denotes(g: Globals, e: Tree): Option<Name> {
    match e.head
    case DeclRef(x) => if g.Knows(x) then None else Some(x)
    case Binary(op) =>
      if op.Assign? && |e.kids| == 2 && Denotes(g, e.kids[0]).Some? then Denotes(g, e.kids[1]) else None
    case _ => None
  }

  /** The variables an expression assigns. */
  function Assigned(e: Tree): set<Name>
    decreases e, 0
  {
    (if e.head.Binary? && e.head.op.Assign? && |e.kids| == 2 && e.kids[0].head.DeclRef?
     then {e.kids[0].head.name} else {}) + AssignedAll(e.kids)
  }

  function AssignedAll(es: seq<Tree>): set<Name>
    decreases es
  {
    if es == [] then {} else Assigned(es[0]) + AssignedAll(es[1..])
  }

  /** Assignments have a variable on their left, and no operator's right
      operand assigns the variable its left operand stands for. */
  predicate Disciplined(g: Globals, e: Tree)
    decreases e, 0
  {
    match e.head
    case Binary(op) =>
      |e.kids| == 2 && Disciplined(g, e.kids[0]) && Disciplined(g, e.kids[1]) &&
      (if op.Assign? then IsVariable(g, e.kids[0])
       else Denotes(g, e.kids[0]).Some? ==> Denotes(g, e.kids[0]).value !in Assigned(e.kids[1]))
    case Call => DisciplinedAll(g, e.kids)
    case _ => true
  }

  predicate DisciplinedAll(g: Globals, es: seq<Tree>)
    decreases es
  {
    es == [] || (Disciplined(g, es[0]) && DisciplinedAll(g, es[1..]))
  }

  /** An expression whose test as a condition is a test of an address. */
  predicate TestsAddress(g: Globals, e: Tree) {
    Denotes(g, e).Some? || e.head.MetaInstantiation? || (e.head.DeclRef? && e.head.name in g.functions)
  }

  predicate DisciplinedStmt(g: Globals, s: Tree)
    decreases s, 0
  {
    match s.head
    case UnscopedCompound | Compound => DisciplinedStmts(g, s.kids)
    case Return => s.kids == [] || Disciplined(g, s.kids[0])
    case ExpressionStmt | DeclStmt(_) => s.kids != [] ==> Disciplined(g, s.kids[0])
    case If =>
      |s.kids| >= 2 && Disciplined(g, s.kids[0]) && !TestsAddress(g, s.kids[0]) &&
      DisciplinedStmt(g, s.kids[1]) && (|s.kids| > 2 ==> DisciplinedStmt(g, s.kids[2]))
    case _ => true
  }

  predicate DisciplinedStmts(g: Globals, ss: seq<Tree>)
    decreases ss
  {
    ss == [] || (DisciplinedStmt(g, ss[0]) && DisciplinedStmts(g, ss[1..]))
  }

  // Ordinary code is disciplined

  /** No operator below the expression is an assignment. */
  predicate AssignsNothing(e: Tree)
    decreases e, 0
  {
    (e.head.Binary? ==> !e.head.op.Assign? && |e.kids| == 2) && NoneAssigns(e.kids)
  }

  predicate NoneAssigns(es: seq<Tree>)
    decreases es
  {
    es == [] || (AssignsNothing(es[0]) && NoneAssigns(es[1..]))
  }

  /** A whole operand may be the assignment of such an expression to a variable. */
  predicate Ordinary(g: Globals, e: Tree) {
    AssignsNothing(e) ||
    (e.head == Binary(Assign) && |e.kids| == 2 && IsVariable(g, e.kids[0]) && e.kids[0].kids == [] &&
     AssignsNothing(e.kids[1]))
  }

  /** Conditions are operations, calls or literals. */
  predicate OrdinaryStmt(g: Globals, s: Tree)
    decreases s, 0
  {
    match s.head
    case UnscopedCompound | Compound => OrdinaryStmts(g, s.kids)
    case Return | ExpressionStmt | DeclStmt(_) => s.kids != [] ==> Ordinary(g, s.kids[0])
    case If =>
      |s.kids| >= 2 && AssignsNothing(s.kids[0]) && !s.kids[0].head.DeclRef? && !s.kids[0].head.MetaInstantiation? &&
      OrdinaryStmt(g, s.kids[1]) && (|s.kids| > 2 ==> OrdinaryStmt(g, s.kids[2]))
    case _ => true
  }

  predicate OrdinaryStmts(g: Globals, ss: seq<Tree>)
    decreases ss
  {
    ss == [] || (OrdinaryStmt(g, ss[0]) && OrdinaryStmts(g, ss[1..]))
  }

  lemma {:induction false} NothingAssigned(e: Tree)
    requires AssignsNothing(e)
    ensures Assigned(e) == {}
    decreases e, 0
  {
    NothingAssignedAll(e.kids);
  }

  lemma {:induction false} NothingAssignedAll(es: seq<Tree>)
    requires NoneAssigns(es)
    ensures AssignedAll(es) == {}
    decreases es
  {
    if es != [] {
      NothingAssigned(es[0]);
      NothingAssignedAll(es[1..]);
    }
  }

  lemma {:induction false} AssigningNothingIsDisciplined(g: Globals, e: Tree)
    requires AssignsNothing(e)
    ensures Disciplined(g, e)
    decreases e, 0
  {
    if e.head.Binary? {
      assert e.kids[1..][0] == e.kids[1] && NoneAssigns(e.kids[1..]);
      AssigningNothingIsDisciplined(g, e.kids[0]);
      AssigningNothingIsDisciplined(g, e.kids[1]);
      NothingAssigned(e.kids[1]);
    } else if e.head.Call? {
      NoneAssigningIsDisciplined(g, e.kids);
    }
  }

  lemma {:induction false} NoneAssigningIsDisciplined(g: Globals, es: seq<Tree>)
    requires NoneAssigns(es)
    ensures DisciplinedAll(g, es)
    decreases es
  {
    if es != [] {
      AssigningNothingIsDisciplined(g, es[0]);
      NoneAssigningIsDisciplined(g, es[1..]);
    }
  }

  /** Statements that assign nowhere inside an expression, and whose conditions
      are no bare names, are disciplined. */
  lemma {:induction false} OrdinaryIsDisciplined(g: Globals, s: Tree)
    requires OrdinaryStmt(g, s)
    ensures DisciplinedStmt(g, s)
    decreases s, 0
  {
    hide Disciplined, AssignsNothing;
    match s.head
    case UnscopedCompound | Compound => OrdinaryAreDisciplined(g, s.kids);
    case Return | ExpressionStmt | DeclStmt(_) =>
      if s.kids != [] {
        OrdinaryExpr(g, s.kids[0]);
      }
    case If =>
      AssigningNothingIsDisciplined(g, s.kids[0]);
      NotAnAddress(g, s.kids[0]);
      OrdinaryIsDisciplined(g, s.kids[1]);
      if |s.kids| > 2 {
        OrdinaryIsDisciplined(g, s.kids[2]);
      }
    case _ =>
  }

  lemma OrdinaryExpr(g: Globals, e: Tree)
    requires Ordinary(g, e)
    ensures Disciplined(g, e)
  {
    if AssignsNothing(e) {
      AssigningNothingIsDisciplined(g, e);
    } else {
      AssigningNothingIsDisciplined(g, e.kids[1]);
    }
  }

  lemma NotAnAddress(g: Globals, e: Tree)
    requires AssignsNothing(e) && !e.head.DeclRef? && !e.head.MetaInstantiation?
    ensures !TestsAddress(g, e)
  {
  }

  lemma {:induction false} OrdinaryAreDisciplined(g: Globals, ss: seq<Tree>)
    requires OrdinaryStmts(g, ss)
    ensures DisciplinedStmts(g, ss)
    decreases ss
  {
    if ss != [] {
      OrdinaryIsDisciplined(g, ss[0]);
      OrdinaryAreDisciplined(g, ss[1..]);
    }
  }

  /** The value a meaning settles to once it is loaded. */
  function Settled(m: Meaning, env: Env): Meaning {
    if m.Variable? && m.x in env then Number(env[m.x]) else m
  }

  /** Evaluation changes only the variables the expression assigns. */
  ghost predicate Touches(xs: set<Name>, a: Env, b: Env) {
    a.Keys == b.Keys && forall x | x in a && x !in xs :: b[x] == a[x]
  }

  lemma TouchesTwice(xs: set<Name>, ys: set<Name>, a: Env, b: Env, c: Env)
    requires Touches(xs, a, b) && Touches(ys, b, c)
    ensures Touches(xs + ys, a, c)
  {
  }

  /** How the exact reading relates to the plain one.  A variable that is not
      declared still stands for itself, but it has no value. */
  ghost predicate SettlesTo(g: Globals, e: Tree, env: Env,
                            exact: Option<(Meaning, Env)>, plain: Option<(Meaning, Env)>)
  {
    match exact
    case None => plain.None?
    case Some(p) =>
      Touches(Assigned(e), env, p.1) &&
      (if p.0.Variable? && p.0.x !in env then plain.None? && IsVariable(g, e) && p.1 == env
       else plain == Some((Settled(p.0, p.1), p.1))) &&
      (if p.0.Variable? then Denotes(g, e) == Some(p.0.x) else Denotes(g, e).None?) &&
      (p.0.Function? ==> e.head.MetaInstantiation? || (e.head.DeclRef? && e.head.name in g.functions)) &&
      (TestsAddress(g, e) ==> p.0.Variable? || p.0.Function?)
  }

  /** Late loads see what eager loads would have seen. */
  lemma {:induction false} LateIsEager(g: Globals, call: Oracle, known: set<Name>, e: Tree, env: Env)
    requires ClosedExpr(g, known, e) && Disciplined(g, e)
    ensures SettlesTo(g, e, env, Eval(g, call, e, env), Plain(g, call, e, env))
    decreases e, 1
  {
    match e.head
    case Binary(_) => OperandsSettle(g, call, known, e, env);
    case Call => CallSettles(g, call, known, e, env);
    case _ =>
  }

  lemma {:induction false} OperandsSettle(g: Globals, call: Oracle, known: set<Name>, e: Tree, env: Env)
    requires ClosedExpr(g, known, e) && Disciplined(g, e) && e.head.Binary?
    ensures SettlesTo(g, e, env, Eval(g, call, e, env), Plain(g, call, e, env))
    decreases e, 0
  {
    hide Operate, Touches, Assigned;
    LateIsEager(g, call, known, e.kids[0], env);
    var left := Eval(g, call, e.kids[0], env);
    if left.Some? {
      var env1 := left.value.1;
      LateIsEager(g, call, known, e.kids[1], env1);
      var right := Eval(g, call, e.kids[1], env1);
      if right.Some? {
        var m := Settled(right.value.0, right.value.1);
        OperandsTouch(e, env, env1, right.value.1, if m.Number? then m.n else 0);
      }
    }
  }

  /** What both operands and the operator together may change. */
  lemma OperandsTouch(e: Tree, a: Env, b: Env, c: Env, n: int)
    requires e.head.Binary? && |e.kids| == 2
    requires Touches(Assigned(e.kids[0]), a, b) && Touches(Assigned(e.kids[1]), b, c)
    ensures Touches(Assigned(e), a, c) && a.Keys == b.Keys == c.Keys
    ensures forall x | x in a && x !in Assigned(e.kids[1]) :: c[x] == b[x]
    ensures e.head.op.Assign? && e.kids[0].head.DeclRef? && e.kids[0].head.name in a ==>
              Touches(Assigned(e), a, c[e.kids[0].head.name := n])
  {
    assert e.kids[1..][1..] == [];
    assert AssignedAll(e.kids) == Assigned(e.kids[0]) + AssignedAll(e.kids[1..]);
    assert AssignedAll(e.kids[1..]) == Assigned(e.kids[1]);
    TouchesTwice(Assigned(e.kids[0]), Assigned(e.kids[1]), a, b, c);
  }

  lemma {:induction false} CallSettles(g: Globals, call: Oracle, known: set<Name>, e: Tree, env: Env)
    requires ClosedExpr(g, known, e) && Disciplined(g, e) && e.head.Call?
    ensures SettlesTo(g, e, env, Eval(g, call, e, env), Plain(g, call, e, env))
    decreases e, 0
  {
    LateIsEager(g, call, known, e.kids[0], env);
    var callee := Eval(g, call, e.kids[0], env);
    if callee.Some? {
      ArgsSettle(g, call, known, e.kids[1..], callee.value.1);
      var given := EvalArgs(g, call, e.kids[1..], callee.value.1);
      if given.Some? {
        TouchesTwice(Assigned(e.kids[0]), AssignedAll(e.kids[1..]), env, callee.value.1, given.value.1);
      }
    }
  }

  lemma {:induction false} ArgsSettle(g: Globals, call: Oracle, known: set<Name>, es: seq<Tree>, env: Env)
    requires ClosedExprs(g, known, es) && DisciplinedAll(g, es)
    ensures EvalArgs(g, call, es, env) == PlainArgs(g, call, es, env)
    ensures EvalArgs(g, call, es, env).Some? ==>
              Touches(AssignedAll(es), env, EvalArgs(g, call, es, env).value.1)
    decreases es
  {
    if es != [] {
      LateIsEager(g, call, known, es[0], env);
      var first := Eval(g, call, es[0], env);
      if first.Some? {
        ArgsSettle(g, call, known, es[1..], first.value.1);
        var rest := EvalArgs(g, call, es[1..], first.value.1);
        if rest.Some? {
          TouchesTwice(Assigned(es[0]), AssignedAll(es[1..]), env, first.value.1, rest.value.1);
        }
      }
    }
  }

  /** Operands evaluated in the wrong order of effects: `i + (i = 5)` adds the
      new value of `i` twice. */
  lemma LateLoadExample(call: Oracle)
    ensures var g := Globals(map[], map[], map[]);
            var i := Tree(DeclRef("i"), []);
            var e := Tree(Binary(Plus), [i, Tree(Binary(Assign), [i, Tree(IntegerLiteral(5), [])])]);
            !Disciplined(g, e) &&
            Eval(g, call, e, map["i" := 1]) == Some((Number(10), map["i" := 5])) &&
            Plain(g, call, e, map["i" := 1]) == Some((Number(6), map["i" := 5]))
  {
    var g := Globals(map[], map[], map[]);
    var i := Tree(DeclRef("i"), []);
    var set5 := Tree(Binary(Assign), [i, Tree(IntegerLiteral(5), [])]);
    var env: Env := map["i" := 1];
    assert env["i" := 5] == map["i" := 5];
    assert Eval(g, call, set5, env) == Some((Number(5), map["i" := 5]));
    assert Plain(g, call, set5, env) == Some((Number(5), map["i" := 5]));
    assert Assigned(i) == {};
    assert Assigned(set5) == {"i"} + AssignedAll(set5.kids);
    assert Wrap(5 + 5) == 10 && Wrap(1 + 5) == 6;
  }

  /** The discipline is not necessary: `i + (i = i)` breaks it, and yet both
      readings give the same result in every environment. */
  lemma SelfAssignmentExample(call: Oracle, env: Env)
    ensures var g := Globals(map[], map[], map[]);
            var i := Tree(DeclRef("i"), []);
            var e := Tree(Binary(Plus), [i, Tree(Binary(Assign), [i, i])]);
            !Disciplined(g, e) && Eval(g, call, e, env) == Plain(g, call, e, env)
  {
    var g := Globals(map[], map[], map[]);
    var i := Tree(DeclRef("i"), []);
    var same := Tree(Binary(Assign), [i, i]);
    var e := Tree(Binary(Plus), [i, same]);
    assert Assigned(same) == {"i"} + AssignedAll(same.kids);
    assert Eval(g, call, i, env) == Some((Variable("i"), env));
    if "i" in env {
      assert env["i" := env["i"]] == env;
      assert Eval(g, call, same, env) == Some((Variable("i"), env));
      assert Plain(g, call, same, env) == Some((Number(env["i"]), env));
    }
  }

  /** The condition the branch of an `if` takes in the exact reading. */
  function ExactTest(g: Globals, call: Oracle, e: Tree, env: Env): Option<bool> {
    var (m, env1) :- Eval(g, call, e, env);
    Truth(m)
  }

  /** The condition tested by its value, once it is loaded. */
  function ValueTest(g: Globals, call: Oracle, e: Tree, env: Env): Option<bool> {
    var (m, env1) :- Eval(g, call, e, env);
    PlainTruth(Settled(m, env1))
  }

  /** An expression that has a meaning stands for a variable exactly when it
      looks like it, and for a function only as a reference to one. */
  lemma {:induction false} MeaningHasLooks(g: Globals, call: Oracle, e: Tree, env: Env)
    requires Eval(g, call, e, env).Some?
    ensures var m := Eval(g, call, e, env).value.0;
            (if m.Variable? then Denotes(g, e) == Some(m.x) else Denotes(g, e).None?) &&
            (m.Function? <==> e.head.MetaInstantiation? || (e.head.DeclRef? && e.head.name in g.functions))
    decreases e
  {
    if e.head.Binary? {
      var env1 := Eval(g, call, e.kids[0], env).value.1;
      MeaningHasLooks(g, call, e.kids[0], env);
      MeaningHasLooks(g, call, e.kids[1], env1);
    }
  }

  /** A branch tests the value of its condition in every environment exactly
      when the condition does not stand for a variable or a function. */
  lemma BranchesTestValues(g: Globals, call: Oracle, known: set<Name>, e: Tree)
    requires ClosedExpr(g, known, e)
    ensures (forall env :: ExactTest(g, call, e, env) == ValueTest(g, call, e, env)) <==> !TestsAddress(g, e)
  {
    if !TestsAddress(g, e) {
      forall env: Env
        ensures ExactTest(g, call, e, env) == ValueTest(g, call, e, env)
      {
        if Eval(g, call, e, env).Some? {
          MeaningHasLooks(g, call, e, env);
        }
      }
    } else {
      var zeros: Env := map x | x in known :: 0;
      if Denotes(g, e).Some? {
        AddressOfZero(g, call, known, e, zeros);
      }
      assert ExactTest(g, call, e, zeros) == Some(true);
      assert ValueTest(g, call, e, zeros) != Some(true);
    }
  }

  /** An expression that stands for a variable is always taken as true, even
      when every variable is zero. */
  lemma {:induction false} AddressOfZero(g: Globals, call: Oracle, known: set<Name>, e: Tree, zeros: Env)
    requires ClosedExpr(g, known, e) && Denotes(g, e).Some?
    requires zeros == map x | x in known :: 0
    ensures Eval(g, call, e, zeros) == Some((Variable(Denotes(g, e).value), zeros))
    ensures Denotes(g, e).value in known
    decreases e
  {
    if e.head.Binary? {
      AddressOfZero(g, call, known, e.kids[0], zeros);
      AddressOfZero(g, call, known, e.kids[1], zeros);
      assert zeros[Denotes(g, e.kids[0]).value := 0] == zeros;
    }
  }

  lemma VariableStands(g: Globals, call: Oracle, e: Tree, env: Env)
    requires IsVariable(g, e)
    ensures Eval(g, call, e, env) == Some((Variable(e.head.name), env))
  {
  }

  /** For disciplined statements the two readings are the same. */
  lemma {:induction false} ReadingsAgree(g: Globals, call: Oracle, known: set<Name>, s: Tree, env: Env)
    requires ClosedStmt(g, known, s) && DisciplinedStmt(g, s)
    ensures Exec(g, call, s, env) == PlainExec(g, call, s, env)
    decreases s, 0
  {
    hide Eval, Plain, Disciplined, ClosedExpr;
    match s.head
    case UnscopedCompound | Compound => AllReadingsAgree(g, call, known, s.kids, env);
    case Return =>
      if s.kids != [] {
        LateIsEager(g, call, known, s.kids[0], env);
      }
    case ExpressionStmt =>
      LateIsEager(g, call, known, s.kids[0], env);
      if IsVariable(g, s.kids[0]) {
        VariableStands(g, call, s.kids[0], env);
      }
    case DeclStmt(_) => LateIsEager(g, call, known, s.kids[0], env);
    case If =>
      LateIsEager(g, call, known, s.kids[0], env);
      var p := Eval(g, call, s.kids[0], env);
      if p.Some? {
        ReadingsAgree(g, call, known, s.kids[1], p.value.1);
        if |s.kids| == 3 {
          ReadingsAgree(g, call, known + Declares(s.kids[1]), s.kids[2], p.value.1);
        }
      }
  }

  lemma {:induction false} AllReadingsAgree(g: Globals, call: Oracle, known: set<Name>, ss: seq<Tree>, env: Env)
    requires ClosedStmts(g, known, ss) && DisciplinedStmts(g, ss)
    ensures ExecAll(g, call, ss, env) == PlainExecAll(g, call, ss, env)
    decreases ss
  {
    if ss != [] {
      ReadingsAgree(g, call, known, ss[0], env);
      if Exec(g, call, ss[0], env).Normal? {
        AllReadingsAgree(g, call, known + Declares(ss[0]), ss[1..], Exec(g, call, ss[0], env).env);
      }
    }
  }
}
