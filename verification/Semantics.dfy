/** The meaning of the source language, in two readings, and when they agree.

    The exact reading follows the generated code: an expression may stand for
    a variable whose content is looked up only when an operator needs it, and a
    branch on a bare variable tests the variable's address
    (src/Codegen/FunctionCodegen.cpp).  The plain reading is the one a reader of
    the language expects: operands are values, and conditions are tested by
    value. */
module Semantics {
  import opened Wrappers
  import opened Ast
  import opened Machine

  /** What names resolve to outside the function: functions, global constants
      and the functions that instantiations export. */
  datatype Globals = Globals(functions: map<Name, Sym>, constants: map<Name, int>, instances: map<Tree, Sym>) {
    predicate Knows(x: Name) {
      x in functions || x in constants
    }
  }

  type Env = map<Name, int>

  /** What an expression stands for before it is loaded. */
  datatype Meaning = Number(n: int) | Variable(x: Name) | Void | Function(sym: Sym)

  function Content(m: Meaning, env: Env): Option<int> {
    match m
    case Number(n) => Some(n)
    case Variable(x) => if x in env then Some(env[x]) else None
    case Void | Function(_) => None
  }

  function Result(r: Option<int>): Meaning {
    match r
    case None => Void
    case Some(n) => Number(n)
  }

  /** The exact reading of an expression; `None` when it has no meaning. */
  function Eval(g: Globals, call: Oracle, e: Tree, env: Env): Option<(Meaning, Env)>
    decreases e, 0
  {
    match e.head
    case DeclRef(x) =>
      if x in g.functions then Some((Function(g.functions[x]), env))
      else if x in g.constants then Some((Number(g.constants[x]), env))
      else Some((Variable(x), env))
    case IntegerLiteral(n) => Some((Number(n), env))
    case BooleanLiteral(b) => Some((Number(Bit(b)), env))
    case MetaInstantiation =>
      if e in g.instances then Some((Function(g.instances[e]), env)) else None
    case Binary(op) =>
      if |e.kids| != 2 then None
      else
        var (l, env1) :- Eval(g, call, e.kids[0], env);
        var (r, env2) :- Eval(g, call, e.kids[1], env1);
        if op.Assign? then
          var v :- Content(r, env2);
          if l.Variable? && l.x in env2 then Some((r, env2[l.x := v])) else None
        else
          var a :- Content(l, env2);
          var b :- Content(r, env2);
          var n :- Operate(op, a, b);
          Some((Number(n), env2))
    case Call =>
      if e.kids == [] then None
      else
        var (f, env1) :- Eval(g, call, e.kids[0], env);
        var (ns, env2) :- EvalArgs(g, call, e.kids[1..], env1);
        if !f.Function? then None
        else
          var r :- call(f.sym, ns);
          Some((Result(r), env2))
    case _ => None
  }

  /** Arguments are loaded one by one. */
  function EvalArgs(g: Globals, call: Oracle, es: seq<Tree>, env: Env): Option<(seq<int>, Env)>
    decreases es
  {
    if es == [] then Some(([], env))
    else
      var (m, env1) :- Eval(g, call, es[0], env);
      var n :- Content(m, env1);
      var (ns, env2) :- EvalArgs(g, call, es[1..], env1);
      Some(([n] + ns, env2))
  }

  /** What a branch takes as true: any address, or an integer other than zero. */
  function Truth(m: Meaning): Option<bool> {
    match m
    case Number(n) => Some(n != 0)
    case Variable(_) | Function(_) => Some(true)
    case Void => None
  }

  datatype Outcome = Normal(env: Env) | Returned(value: Option<int>) | Wrong

  /** The variables of an environment with the values they have in a later one. */
  function Kept(outer: Env, inner: Env): Env {
    map x | x in outer && x in inner :: inner[x]
  }

  /** What is declared in a scope ends with it. */
  function EndScope(outer: Env, o: Outcome): Outcome {
    if o.Normal? then Normal(Kept(outer, o.env)) else o
  }

  /** The exact reading of a statement. */
  function Exec(g: Globals, call: Oracle, s: Tree, env: Env): Outcome
    decreases s, 0
  {
    match s.head
    case UnscopedCompound => ExecAll(g, call, s.kids, env)
    case Compound => EndScope(env, ExecAll(g, call, s.kids, env))
    case Return =>
      if s.kids == [] then Returned(None)
      else
        var p := Eval(g, call, s.kids[0], env);
        if p.Some? && Content(p.value.0, p.value.1).Some?
        then Returned(Content(p.value.0, p.value.1))
        else Wrong
    case ExpressionStmt =>
      var p := if |s.kids| == 1 then Eval(g, call, s.kids[0], env) else None;
      if p.Some? then Normal(p.value.1) else Wrong
    case DeclStmt(x) =>
      var p := if |s.kids| == 1 then Eval(g, call, s.kids[0], env) else None;
      if p.Some? && Content(p.value.0, p.value.1).Some?
      then Normal(p.value.1[x := Content(p.value.0, p.value.1).value])
      else Wrong
    case If =>
      var p := if |s.kids| >= 2 then Eval(g, call, s.kids[0], env) else None;
      if p.None? || Truth(p.value.0).None? then Wrong
      else if Truth(p.value.0).value then Exec(g, call, s.kids[1], p.value.1)
      else if |s.kids| > 2 then Exec(g, call, s.kids[2], p.value.1)
      else Normal(p.value.1)
    case _ => Wrong
  }

  function ExecAll(g: Globals, call: Oracle, ss: seq<Tree>, env: Env): Outcome
    decreases ss
  {
    if ss == [] then Normal(env)
    else
      match Exec(g, call, ss[0], env)
      case Normal(env1) => ExecAll(g, call, ss[1..], env1)
      case other => other
  }

  /** Every reference is to a name declared before it, as the reader resolves it. */
  predicate ClosedExpr(g: Globals, known: set<Name>, e: Tree)
    decreases e, 0
  {
    match e.head
    case DeclRef(x) => g.Knows(x) || x in known
    case IntegerLiteral(_) | BooleanLiteral(_) => true
    case MetaInstantiation => e in g.instances
    case Binary(_) =>
      |e.kids| == 2 && ClosedExpr(g, known, e.kids[0]) && ClosedExpr(g, known, e.kids[1])
    case Call => e.kids != [] && ClosedExprs(g, known, e.kids)
    case _ => false
  }

  predicate ClosedExprs(g: Globals, known: set<Name>, es: seq<Tree>)
    decreases es
  {
    es == [] || (ClosedExpr(g, known, es[0]) && ClosedExprs(g, known, es[1..]))
  }

  /** The names a statement may leave declared: at least on some path. */
  function Declares(s: Tree): set<Name>
    decreases s, 0
  {
    match s.head
    case DeclStmt(x) => {x}
    case UnscopedCompound => DeclaresAll(s.kids)
    case If =>
      (if |s.kids| > 1 then Declares(s.kids[1]) else {}) + (if |s.kids| > 2 then Declares(s.kids[2]) else {})
    case _ => {}
  }

  function DeclaresAll(ss: seq<Tree>): set<Name>
    decreases ss
  {
    if ss == [] then {} else Declares(ss[0]) + DeclaresAll(ss[1..])
  }

  /** Every path through the statement returns. */
  predicate Terminates(s: Tree)
    decreases s, 0
  {
    match s.head
    case Return => true
    case UnscopedCompound | Compound => TerminatesAny(s.kids)
    case If => |s.kids| > 2 && Terminates(s.kids[1]) && Terminates(s.kids[2])
    case _ => false
  }

  predicate TerminatesAny(ss: seq<Tree>)
    decreases ss
  {
    ss != [] && (Terminates(ss[0]) || TerminatesAny(ss[1..]))
  }

  /** In no list of statements does one follow a statement that always returns. */
  predicate NothingAfterReturn(s: Tree)
    decreases s, 0
  {
    match s.head
    case UnscopedCompound | Compound => NothingAfterReturns(s.kids)
    case If =>
      |s.kids| >= 2 ==> NothingAfterReturn(s.kids[1]) && (|s.kids| > 2 ==> NothingAfterReturn(s.kids[2]))
    case _ => true
  }

  predicate NothingAfterReturns(ss: seq<Tree>)
    decreases ss
  {
    ss == [] ||
    (NothingAfterReturn(ss[0]) && (Terminates(ss[0]) ==> ss[1..] == []) && NothingAfterReturns(ss[1..]))
  }

  /** Statements the generator accepts: references resolve to names that may be
      declared, in the order and the scopes of the reader, no name is declared
      over a visible one, no statement follows one that always returns, and no
      meta statement is left. */
  predicate ClosedStmt(g: Globals, known: set<Name>, s: Tree)
    decreases s, 0
  {
    match s.head
    case UnscopedCompound | Compound => ClosedStmts(g, known, s.kids)
    case Return => s.kids == [] || (|s.kids| == 1 && ClosedExpr(g, known, s.kids[0]))
    case ExpressionStmt => |s.kids| == 1 && ClosedExpr(g, known, s.kids[0])
    case DeclStmt(x) => |s.kids| == 1 && ClosedExpr(g, known, s.kids[0]) && x !in known && !g.Knows(x)
    case If =>
      2 <= |s.kids| <= 3 && ClosedExpr(g, known, s.kids[0]) && ClosedStmt(g, known, s.kids[1]) &&
      (|s.kids| == 3 ==> ClosedStmt(g, known + Declares(s.kids[1]), s.kids[2]))
    case _ => false
  }

  predicate ClosedStmts(g: Globals, known: set<Name>, ss: seq<Tree>)
    decreases ss
  {
    ss == [] ||
    (ClosedStmt(g, known, ss[0]) && (Terminates(ss[0]) ==> ss[1..] == []) &&
     ClosedStmts(g, known + Declares(ss[0]), ss[1..]))
  }

  /** Expressions declare nothing and give up nothing. */
  lemma {:induction false} EvalKeepsNames(g: Globals, call: Oracle, e: Tree, env: Env)
    requires Eval(g, call, e, env).Some?
    ensures Eval(g, call, e, env).value.1.Keys == env.Keys
    decreases e, 0
  {
    match e.head
    case Binary(_) =>
      EvalKeepsNames(g, call, e.kids[0], env);
      EvalKeepsNames(g, call, e.kids[1], Eval(g, call, e.kids[0], env).value.1);
    case Call =>
      EvalKeepsNames(g, call, e.kids[0], env);
      EvalArgsKeepsNames(g, call, e.kids[1..], Eval(g, call, e.kids[0], env).value.1);
    case _ =>
  }

  lemma {:induction false} EvalArgsKeepsNames(g: Globals, call: Oracle, es: seq<Tree>, env: Env)
    requires EvalArgs(g, call, es, env).Some?
    ensures EvalArgs(g, call, es, env).value.1.Keys == env.Keys
    decreases es
  {
    if es != [] {
      EvalKeepsNames(g, call, es[0], env);
      EvalArgsKeepsNames(g, call, es[1..], Eval(g, call, es[0], env).value.1);
    }
  }

  /** A statement declares no other name than it may, and gives up none. */
  lemma {:induction false} ExecDeclares(g: Globals, call: Oracle, s: Tree, env: Env)
    requires Exec(g, call, s, env).Normal?
    ensures env.Keys <= Exec(g, call, s, env).env.Keys <= env.Keys + Declares(s)
    decreases s, 0
  {
    match s.head
    case UnscopedCompound | Compound => ExecAllDeclares(g, call, s.kids, env);
    case ExpressionStmt | DeclStmt(_) => EvalKeepsNames(g, call, s.kids[0], env);
    case If =>
      EvalKeepsNames(g, call, s.kids[0], env);
      var (m, env1) := Eval(g, call, s.kids[0], env).value;
      if Truth(m).value {
        ExecDeclares(g, call, s.kids[1], env1);
      } else if |s.kids| > 2 {
        ExecDeclares(g, call, s.kids[2], env1);
      }
  }

  lemma {:induction false} ExecAllDeclares(g: Globals, call: Oracle, ss: seq<Tree>, env: Env)
    requires ExecAll(g, call, ss, env).Normal?
    ensures env.Keys <= ExecAll(g, call, ss, env).env.Keys <= env.Keys + DeclaresAll(ss)
    decreases ss
  {
    if ss != [] {
      ExecDeclares(g, call, ss[0], env);
      ExecAllDeclares(g, call, ss[1..], Exec(g, call, ss[0], env).env);
    }
  }

  /** A statement all of whose paths return never ends normally. */
  lemma {:induction false} TerminatingNeverNormal(g: Globals, call: Oracle, s: Tree, env: Env)
    requires Terminates(s)
    ensures !Exec(g, call, s, env).Normal?
    decreases s, 0
  {
    match s.head
    case UnscopedCompound | Compound => TerminatingAnyNeverNormal(g, call, s.kids, env);
    case If =>
      if Eval(g, call, s.kids[0], env).Some? {
        var (m, env1) := Eval(g, call, s.kids[0], env).value;
        TerminatingNeverNormal(g, call, s.kids[1], env1);
        TerminatingNeverNormal(g, call, s.kids[2], env1);
      }
    case _ =>
  }

  lemma {:induction false} TerminatingAnyNeverNormal(g: Globals, call: Oracle, ss: seq<Tree>, env: Env)
    requires TerminatesAny(ss)
    ensures !ExecAll(g, call, ss, env).Normal?
    decreases ss
  {
    if Terminates(ss[0]) {
      TerminatingNeverNormal(g, call, ss[0], env);
    } else if Exec(g, call, ss[0], env).Normal? {
      TerminatingAnyNeverNormal(g, call, ss[1..], Exec(g, call, ss[0], env).env);
    }
  }
}
