/** The code generated for expressions (codegenExpr and loadMemory in
    src/Codegen/FunctionCodegen.cpp) and why it computes their meaning. */
module ExprCodegen {
  import opened Wrappers
  import opened Ast
  import opened Machine
  import opened Semantics

  /** The values of the declarations in scope. */
  type ValueMap = map<Name, Value>

  /** Generated code, the operand that stands for its result and the next unused register. */
  datatype Emitted = Emitted(code: Code, value: Value, reg: nat)
  datatype EmittedArgs = EmittedArgs(code: Code, values: seq<Value>, reg: nat)

  function LoadMemory(v: Value, reg: nat): Emitted {
    if IsPointer(v) then Emitted([Load(reg, v)], Temp(reg), reg + 1)
    else Emitted([], v, reg)
  }

  function LocalValue(values: ValueMap, x: Name): Value {
    if x in values then values[x] else Const(0)
  }

  function GenExpr(g: Globals, values: ValueMap, reg: nat, e: Tree): Emitted
    decreases e, 0
  {
    match e.head
    case DeclRef(x) =>
      if x in g.functions then Emitted([], Global(g.functions[x]), reg)
      else if x in g.constants then Emitted([], Const(g.constants[x]), reg)
      else Emitted([], LocalValue(values, x), reg)
    case IntegerLiteral(n) => Emitted([], Const(n), reg)
    case BooleanLiteral(b) => Emitted([], Const(Bit(b)), reg)
    case MetaInstantiation =>
      Emitted([], if e in g.instances then Global(g.instances[e]) else Const(0), reg)
    case Binary(op) =>
      if |e.kids| != 2 then Emitted([], Const(0), reg)
      else
        var l := GenExpr(g, values, reg, e.kids[0]);
        var r := GenExpr(g, values, l.reg, e.kids[1]);
        GenOperator(op, l, r)
    case Call =>
      if e.kids == [] then Emitted([], Const(0), reg)
      else
        var f := GenExpr(g, values, reg, e.kids[0]);
        var args := GenArgs(g, values, f.reg, e.kids[1..]);
        Emitted(f.code + args.code + [CallSym(args.reg, f.value, args.values)], Temp(args.reg), args.reg + 1)
    case _ => Emitted([], Const(0), reg)
  }

  /** Both operands are loaded only after the code of both. */
  function GenOperator(op: BinaryOp, l: Emitted, r: Emitted): Emitted {
    if op.Assign? then
      var v := LoadMemory(r.value, r.reg);
      Emitted(l.code + r.code + v.code + [Store(v.value, l.value)], r.value, v.reg)
    else
      var a := LoadMemory(l.value, r.reg);
      var b := LoadMemory(r.value, a.reg);
      var loaded := l.code + r.code + a.code + b.code;
      if IsComparison(op) then
        Emitted(loaded + [Compare(b.reg, op, a.value, b.value), ZExt(b.reg + 1, Temp(b.reg))],
                Temp(b.reg + 1), b.reg + 2)
      else
        Emitted(loaded + [Arith(b.reg, op, a.value, b.value)], Temp(b.reg), b.reg + 1)
  }

  function GenArgs(g: Globals, values: ValueMap, reg: nat, es: seq<Tree>): EmittedArgs
    decreases es
  {
    if es == [] then EmittedArgs([], [], reg)
    else
      var a := GenExpr(g, values, reg, es[0]);
      var v := LoadMemory(a.value, a.reg);
      var more := GenArgs(g, values, v.reg, es[1..]);
      EmittedArgs(a.code + v.code + more.code, [v.value] + more.values, more.reg)
  }

  /** Code that writes only registers numbered in a range and allocates no slot. */
  predicate Within(code: Code, low: nat, high: nat) {
    low <= high && forall i | 0 <= i < |code| :: WritesWithin(code[i], low, high)
  }

  predicate WritesWithin(i: Instr, low: nat, high: nat) {
    match i
    case Load(d, _) => low <= d < high
    case Arith(d, _, _, _) => low <= d < high
    case Compare(d, _, _, _) => low <= d < high
    case ZExt(d, _) => low <= d < high
    case CallSym(d, _, _) => low <= d < high
    case Store(_, _) => true
    case _ => false
  }

  lemma WithinAppend(a: Code, b: Code, low: nat, mid: nat, high: nat)
    requires Within(a, low, mid) && Within(b, mid, high)
    ensures Within(a + b, low, high)
  {
  }

  lemma {:induction false} ExprWithin(g: Globals, values: ValueMap, reg: nat, e: Tree)
    ensures var r := GenExpr(g, values, reg, e); Within(r.code, reg, r.reg)
    decreases e, 0
  {
    match e.head
    case Binary(op) =>
      if |e.kids| == 2 {
        var l := GenExpr(g, values, reg, e.kids[0]);
        var r := GenExpr(g, values, l.reg, e.kids[1]);
        ExprWithin(g, values, reg, e.kids[0]);
        ExprWithin(g, values, l.reg, e.kids[1]);
        OperatorWithin(op, l, r, reg);
      }
    case Call =>
      if e.kids != [] {
        var f := GenExpr(g, values, reg, e.kids[0]);
        ExprWithin(g, values, reg, e.kids[0]);
        ArgsWithin(g, values, f.reg, e.kids[1..]);
      }
    case _ =>
  }

  lemma OperatorWithin(op: BinaryOp, l: Emitted, r: Emitted, reg: nat)
    requires Within(l.code, reg, l.reg) && Within(r.code, l.reg, r.reg)
    ensures var o := GenOperator(op, l, r); Within(o.code, reg, o.reg)
  {
    WithinAppend(l.code, r.code, reg, l.reg, r.reg);
  }

  lemma {:induction false} ArgsWithin(g: Globals, values: ValueMap, reg: nat, es: seq<Tree>)
    ensures var r := GenArgs(g, values, reg, es); Within(r.code, reg, r.reg)
    decreases es
  {
    if es != [] {
      var a := GenExpr(g, values, reg, es[0]);
      var v := LoadMemory(a.value, a.reg);
      ExprWithin(g, values, reg, es[0]);
      ArgsWithin(g, values, v.reg, es[1..]);
      WithinAppend(a.code, v.code, reg, a.reg, v.reg);
    }
  }

  /** What straight-line expression code leaves alone. */
  ghost predicate Preserved(a: State, b: State, low: nat) {
    (forall t | t < low :: (t in a.temps <==> t in b.temps) && (t in a.temps ==> a.temps[t] == b.temps[t])) &&
    a.slots.Keys == b.slots.Keys && a.args == b.args && a.out == b.out
  }

  lemma {:induction false} ExecutePreserves(code: Code, low: nat, high: nat, st: State, call: Oracle)
    requires Within(code, low, high) && ExecuteAll(code, st, call).Some?
    ensures Preserved(st, ExecuteAll(code, st, call).value, low)
    decreases code
  {
    if code != [] {
      var next := Execute(code[0], st, call).value;
      assert WritesWithin(code[0], low, high);
      assert Preserved(st, next, low);
      assert forall i | 0 <= i < |code[1..]| :: code[1..][i] == code[i + 1];
      ExecutePreserves(code[1..], low, high, next, call);
    }
  }

  /** The environment of the source and the slots of the machine agree on the
      names in scope: a name that is declared has its value in its slot, one
      whose declaration was not executed has no slot yet, and no two names
      share one. */
  ghost predicate Agree(known: set<Name>, values: ValueMap, env: Env, st: State) {
    Separate(known, values) && env.Keys <= known &&
    forall x | x in known ::
      if x in env then values[x].id in st.slots && st.slots[values[x].id] == Some(env[x])
      else values[x].id !in st.slots
  }

  ghost predicate Separate(known: set<Name>, values: ValueMap) {
    (forall x | x in known :: x in values && values[x].Slot?) &&
    (forall x, y | x in known && y in known && values[x] == values[y] :: x == y)
  }

  /** The operand stands for the meaning. */
  ghost predicate Stands(known: set<Name>, values: ValueMap, v: Value, m: Meaning, st: State) {
    match m
    case Number(n) => !IsPointer(v) && ReadValue(st, v) == Some(n)
    case Variable(x) => x in known && x in values && v == values[x]
    case Void => v.Temp? && ReadValue(st, v).None?
    case Function(s) => v == Global(s)
  }

  predicate Below(v: Value, reg: nat) {
    v.Temp? ==> v.id < reg
  }

  lemma StandsLater(known: set<Name>, values: ValueMap, v: Value, m: Meaning, a: State, b: State, low: nat)
    requires Stands(known, values, v, m, a) && Preserved(a, b, low) && Below(v, low)
    ensures Stands(known, values, v, m, b)
  {
  }

  /** Loading an operand yields the content of what it stands for, or gets
      stuck when there is none. */
  lemma LoadMeaning(known: set<Name>, values: ValueMap, v: Value, m: Meaning, reg: nat,
                    env: Env, st: State, call: Oracle)
    requires Stands(known, values, v, m, st) && Agree(known, values, env, st) && Below(v, reg)
    ensures var l := LoadMemory(v, reg);
            Within(l.code, reg, l.reg) && Below(l.value, l.reg) && Open(l.code) &&
            var r := ExecuteAll(l.code, st, call);
            match Content(m, env)
            case Some(n) => r.Some? && ReadValue(r.value, l.value) == Some(n) && r.value.slots == st.slots
            case None => r.None? || (r.value == st && ReadValue(st, l.value).None?)
  {
    var l := LoadMemory(v, reg);
    if IsPointer(v) {
      assert l.code[1..] == [];
    }
  }

  lemma AgreeAfterStore(known: set<Name>, values: ValueMap, env: Env, st: State, x: Name, n: int)
    requires Agree(known, values, env, st) && x in known
    ensures Agree(known, values, env[x := n], st.(slots := st.slots[values[x].id := Some(n)]))
  {
  }

  lemma AgreeAfter(known: set<Name>, values: ValueMap, env: Env, a: State, b: State)
    requires Agree(known, values, env, a) && a.slots == b.slots
    ensures Agree(known, values, env, b)
  {
  }

  /** What the code of an expression has to do. */
  ghost predicate Computes(known: set<Name>, values: ValueMap, reg: nat, e: Emitted,
                           meant: Option<(Meaning, Env)>, st: State, call: Oracle)
  {
    var r := ExecuteAll(e.code, st, call);
    match meant
    case None => r.None?
    case Some(p) =>
      r.Some? && Below(e.value, e.reg) && Preserved(st, r.value, reg) &&
      Agree(known, values, p.1, r.value) && Stands(known, values, e.value, p.0, r.value)
  }

  /** Expression code computes the exact meaning of the expression, whatever
      it is, and gets stuck exactly when there is none. */
  lemma {:induction false} ExprComputes(g: Globals, call: Oracle, known: set<Name>, values: ValueMap,
                                        reg: nat, e: Tree, env: Env, st: State)
    requires ClosedExpr(g, known, e) && Agree(known, values, env, st)
    ensures Computes(known, values, reg, GenExpr(g, values, reg, e), Eval(g, call, e, env), st, call)
    decreases e, 1
  {
    match e.head
    case Binary(op) => BinaryComputes(g, call, known, values, reg, e, env, st);
    case Call => CallComputes(g, call, known, values, reg, e, env, st);
    case _ =>
  }

  lemma {:induction false} BinaryComputes(g: Globals, call: Oracle, known: set<Name>, values: ValueMap,
                                          reg: nat, e: Tree, env: Env, st: State)
    requires e.head.Binary? && ClosedExpr(g, known, e) && Agree(known, values, env, st)
    ensures Computes(known, values, reg, GenExpr(g, values, reg, e), Eval(g, call, e, env), st, call)
    decreases e, 0
  {
    hide Agree, Computes, GenOperator;
    var l := GenExpr(g, values, reg, e.kids[0]);
    var r := GenExpr(g, values, l.reg, e.kids[1]);
    ExprWithin(g, values, reg, e.kids[0]);
    ExprWithin(g, values, l.reg, e.kids[1]);
    ExprComputes(g, call, known, values, reg, e.kids[0], env, st);
    var left := Eval(g, call, e.kids[0], env);
    var right := None;
    if left.Some? {
      var mid := ExecuteAll(l.code, st, call).value;
      ExprComputes(g, call, known, values, l.reg, e.kids[1], left.value.1, mid);
      right := Eval(g, call, e.kids[1], left.value.1);
    }
    OperandsThenOperator(known, values, reg, e.head.op, l, r, left, right, st, call);
  }

  lemma OperandsThenOperator(known: set<Name>, values: ValueMap, reg: nat, op: BinaryOp, l: Emitted, r: Emitted,
                             left: Option<(Meaning, Env)>, right: Option<(Meaning, Env)>, st: State, call: Oracle)
    requires Within(l.code, reg, l.reg) && Within(r.code, l.reg, r.reg)
    requires Computes(known, values, reg, l, left, st, call)
    requires left.Some? ==> Computes(known, values, l.reg, r, right, ExecuteAll(l.code, st, call).value, call)
    requires left.None? ==> right.None?
    ensures Computes(known, values, reg, GenOperator(op, l, r),
                     if right.Some? then Apply(op, left.value.0, right.value.0, right.value.1) else None, st, call)
  {
    var o := GenOperator(op, l, r);
    var tail := OperatorTail(op, l, r);
    OperatorSplits(op, l, r);
    OperatorWithin(op, l, r, reg);
    ExecuteAppend(l.code, r.code + tail, st, call);
    if left.Some? {
      var mid := ExecuteAll(l.code, st, call).value;
      ExecuteAppend(r.code, tail, mid, call);
      if right.Some? {
        var end := ExecuteAll(r.code, mid, call).value;
        StandsLater(known, values, l.value, left.value.0, mid, end, l.reg);
        OperatorComputes(known, values, op, l, r, left.value.0, right.value.0, right.value.1, end, call);
        if ExecuteAll(o.code, st, call).Some? {
          ExecutePreserves(o.code, reg, o.reg, st, call);
        }
      }
    }
  }

  lemma OperatorSplits(op: BinaryOp, l: Emitted, r: Emitted)
    ensures GenOperator(op, l, r).code == l.code + (r.code + OperatorTail(op, l, r))
  {
  }

  /** Loads of both operands, then the instructions of the operator. */
  function OperatorTail(op: BinaryOp, l: Emitted, r: Emitted): Code {
    if op.Assign? then
      var v := LoadMemory(r.value, r.reg);
      v.code + [Store(v.value, l.value)]
    else
      var a := LoadMemory(l.value, r.reg);
      var b := LoadMemory(r.value, a.reg);
      (a.code + b.code) + OperatorInstrs(op, a.value, b.value, b.reg)
  }

  function OperatorInstrs(op: BinaryOp, a: Value, b: Value, reg: nat): Code {
    if IsComparison(op) then [Compare(reg, op, a, b)] + [ZExt(reg + 1, Temp(reg))]
    else [Arith(reg, op, a, b)]
  }

  /** The meaning of an operator applied to two meanings. */
  function Apply(op: BinaryOp, l: Meaning, r: Meaning, env: Env): Option<(Meaning, Env)> {
    if op.Assign? then
      var v :- Content(r, env);
      if l.Variable? && l.x in env then Some((r, env[l.x := v])) else None
    else
      var a :- Content(l, env);
      var b :- Content(r, env);
      var n :- Operate(op, a, b);
      Some((Number(n), env))
  }

  lemma OperatorComputes(known: set<Name>, values: ValueMap, op: BinaryOp, l: Emitted, r: Emitted,
                         lm: Meaning, rm: Meaning, env: Env, st: State, call: Oracle)
    requires Stands(known, values, l.value, lm, st) && Stands(known, values, r.value, rm, st)
    requires Below(l.value, r.reg) && Below(r.value, r.reg)
    requires Agree(known, values, env, st)
    ensures var o := GenOperator(op, l, r);
            var run := ExecuteAll(OperatorTail(op, l, r), st, call);
            Below(o.value, o.reg) &&
            match Apply(op, lm, rm, env)
            case None => run.None?
            case Some(p) =>
              run.Some? && Agree(known, values, p.1, run.value) && Stands(known, values, o.value, p.0, run.value)
  {
    hide Operate, Agree, ExecuteAll, OperatorTail;
    if op.Assign? {
      AssignComputes(known, values, l, r, lm, rm, env, st, call);
    } else {
      LoadedOperands(known, values, op, l, r, lm, rm, env, st, call);
    }
  }

  lemma LoadedOperands(known: set<Name>, values: ValueMap, op: BinaryOp, l: Emitted, r: Emitted,
                       lm: Meaning, rm: Meaning, env: Env, st: State, call: Oracle)
    requires Stands(known, values, l.value, lm, st) && Stands(known, values, r.value, rm, st)
    requires Below(l.value, r.reg) && Below(r.value, r.reg)
    requires Agree(known, values, env, st) && !op.Assign?
    ensures var o := GenOperator(op, l, r);
            var run := ExecuteAll(OperatorTail(op, l, r), st, call);
            var result := Apply(op, lm, rm, env);
            Below(o.value, o.reg) &&
            if result.None? then run.None?
            else
              run.Some? && result.value.1 == env && Agree(known, values, env, run.value) &&
              Stands(known, values, o.value, result.value.0, run.value)
  {
    hide Operate, Agree, Stands, ExecuteAll, LoadMemory, ReadValue, OperatorInstrs;
    var a := LoadMemory(l.value, r.reg);
    var b := LoadMemory(r.value, a.reg);
    var loads, instrs := a.code + b.code, OperatorInstrs(op, a.value, b.value, b.reg);
    LoadTwo(known, values, l.value, r.value, lm, rm, r.reg, env, st, call);
    assert OperatorTail(op, l, r) == loads + instrs;
    ExecuteAppend(loads, instrs, st, call);
    if ExecuteAll(loads, st, call).Some? {
      var loaded := ExecuteAll(loads, st, call).value;
      OperatorInstrsCompute(op, a.value, b.value, b.reg, loaded, call);
      var run := ExecuteAll(loads + instrs, st, call);
      if run.Some? && Content(lm, env).Some? && Content(rm, env).Some? {
        AgreeAfter(known, values, env, st, run.value);
        NumberStands(known, values, if IsComparison(op) then b.reg + 1 else b.reg,
                     Operate(op, Content(lm, env).value, Content(rm, env).value).value, run.value);
      }
    }
  }

  lemma NumberStands(known: set<Name>, values: ValueMap, reg: nat, n: int, st: State)
    requires ReadValue(st, Temp(reg)) == Some(n)
    ensures Stands(known, values, Temp(reg), Number(n), st)
  {
  }

  lemma LoadTwo(known: set<Name>, values: ValueMap, l: Value, r: Value, lm: Meaning, rm: Meaning, reg: nat,
                env: Env, st: State, call: Oracle)
    requires Stands(known, values, l, lm, st) && Stands(known, values, r, rm, st)
    requires Below(l, reg) && Below(r, reg) && Agree(known, values, env, st)
    ensures var a := LoadMemory(l, reg);
            var b := LoadMemory(r, a.reg);
            var run := ExecuteAll(a.code + b.code, st, call);
            if Content(lm, env).Some? && Content(rm, env).Some?
            then run.Some? && run.value.slots == st.slots &&
                 ReadValue(run.value, a.value) == Content(lm, env) && ReadValue(run.value, b.value) == Content(rm, env)
            else run.None? || ReadValue(run.value, a.value).None? || ReadValue(run.value, b.value).None?
  {
    var a := LoadMemory(l, reg);
    var b := LoadMemory(r, a.reg);
    ExecuteAppend(a.code, b.code, st, call);
    LoadMeaning(known, values, l, lm, reg, env, st, call);
    if ExecuteAll(a.code, st, call).Some? {
      var mid := ExecuteAll(a.code, st, call).value;
      ExecutePreserves(a.code, reg, a.reg, st, call);
      StandsLater(known, values, r, rm, st, mid, reg);
      assert mid.slots == st.slots;
      AgreeAfter(known, values, env, st, mid);
      LoadMeaning(known, values, r, rm, a.reg, env, mid, call);
      if ExecuteAll(b.code, mid, call).Some? {
        ExecutePreserves(b.code, a.reg, b.reg, mid, call);
        assert ReadValue(ExecuteAll(b.code, mid, call).value, a.value) == ReadValue(mid, a.value);
      }
    }
  }

  lemma OperatorInstrsCompute(op: BinaryOp, a: Value, b: Value, reg: nat, st: State, call: Oracle)
    requires !op.Assign?
    ensures var result := Temp(if IsComparison(op) then reg + 1 else reg);
            var run := ExecuteAll(OperatorInstrs(op, a, b, reg), st, call);
            if ReadValue(st, a).Some? && ReadValue(st, b).Some? &&
               Operate(op, ReadValue(st, a).value, ReadValue(st, b).value).Some?
            then run.Some? && run.value.slots == st.slots &&
                 ReadValue(run.value, result) == Operate(op, ReadValue(st, a).value, ReadValue(st, b).value)
            else run.None?
  {
    if IsComparison(op) {
      ExecuteAppend([Compare(reg, op, a, b)], [ZExt(reg + 1, Temp(reg))], st, call);
      ExecuteOne(Compare(reg, op, a, b), st, call);
      if Execute(Compare(reg, op, a, b), st, call).Some? {
        ExecuteOne(ZExt(reg + 1, Temp(reg)), Execute(Compare(reg, op, a, b), st, call).value, call);
      }
    } else {
      ExecuteOne(Arith(reg, op, a, b), st, call);
    }
  }

  lemma AssignComputes(known: set<Name>, values: ValueMap, l: Emitted, r: Emitted,
                       lm: Meaning, rm: Meaning, env: Env, st: State, call: Oracle)
    requires Stands(known, values, l.value, lm, st) && Stands(known, values, r.value, rm, st)
    requires Below(l.value, r.reg) && Below(r.value, r.reg)
    requires Agree(known, values, env, st)
    ensures var o := GenOperator(Assign, l, r);
            var run := ExecuteAll(OperatorTail(Assign, l, r), st, call);
            Below(o.value, o.reg) &&
            match Apply(Assign, lm, rm, env)
            case None => run.None?
            case Some(p) =>
              run.Some? && Agree(known, values, p.1, run.value) && Stands(known, values, o.value, p.0, run.value)
  {
    var v := LoadMemory(r.value, r.reg);
    ExecuteAppend(v.code, [Store(v.value, l.value)], st, call);
    LoadMeaning(known, values, r.value, rm, r.reg, env, st, call);
    if ExecuteAll(v.code, st, call).Some? {
      var st1 := ExecuteAll(v.code, st, call).value;
      ExecutePreserves(v.code, r.reg, v.reg, st, call);
      StandsLater(known, values, r.value, rm, st, st1, r.reg);
      AgreeAfter(known, values, env, st, st1);
      assert [Store(v.value, l.value)][1..] == [];
      if lm.Variable? && Content(rm, env).Some? {
        AgreeAfterStore(known, values, env, st1, lm.x, Content(rm, env).value);
      }
    }
  }

  lemma {:induction false} CallComputes(g: Globals, call: Oracle, known: set<Name>, values: ValueMap,
                                        reg: nat, e: Tree, env: Env, st: State)
    requires e.head.Call? && ClosedExpr(g, known, e) && Agree(known, values, env, st)
    ensures Computes(known, values, reg, GenExpr(g, values, reg, e), Eval(g, call, e, env), st, call)
    decreases e, 0
  {
    hide Agree, Computes, ComputesArgs, Within;
    var f := GenExpr(g, values, reg, e.kids[0]);
    var args := GenArgs(g, values, f.reg, e.kids[1..]);
    ExprWithin(g, values, reg, e.kids[0]);
    ArgsWithin(g, values, f.reg, e.kids[1..]);
    ExprComputes(g, call, known, values, reg, e.kids[0], env, st);
    var callee := Eval(g, call, e.kids[0], env);
    var given := None;
    if callee.Some? {
      var mid := ExecuteAll(f.code, st, call).value;
      ArgsCompute(g, call, known, values, f.reg, e.kids[1..], callee.value.1, mid);
      given := EvalArgs(g, call, e.kids[1..], callee.value.1);
    }
    OperandsThenCall(known, values, reg, f, args, callee, given, st, call);
  }

  /** What the code of a list of arguments has to do; a missing argument
      surfaces at the latest when the call reads it. */
  ghost predicate ComputesArgs(known: set<Name>, values: ValueMap, a: EmittedArgs,
                               meant: Option<(seq<int>, Env)>, st: State, call: Oracle)
  {
    var r := ExecuteAll(a.code, st, call);
    match meant
    case None => r.None? || ReadAll(r.value, a.values).None?
    case Some(p) => r.Some? && Agree(known, values, p.1, r.value) && ReadAll(r.value, a.values) == Some(p.0)
  }

  function ApplyCall(f: Meaning, ns: seq<int>, env: Env, call: Oracle): Option<(Meaning, Env)> {
    if !f.Function? then None
    else
      var r :- call(f.sym, ns);
      Some((Result(r), env))
  }

  lemma OperandsThenCall(known: set<Name>, values: ValueMap, reg: nat, f: Emitted, args: EmittedArgs,
                         callee: Option<(Meaning, Env)>, given: Option<(seq<int>, Env)>, st: State, call: Oracle)
    requires Within(f.code, reg, f.reg) && Within(args.code, f.reg, args.reg)
    requires Computes(known, values, reg, f, callee, st, call)
    requires callee.Some? ==> ComputesArgs(known, values, args, given, ExecuteAll(f.code, st, call).value, call)
    requires callee.None? ==> given.None?
    ensures Computes(known, values, reg,
                     Emitted(f.code + args.code + [CallSym(args.reg, f.value, args.values)],
                             Temp(args.reg), args.reg + 1),
                     if given.Some? then ApplyCall(callee.value.0, given.value.0, given.value.1, call) else None,
                     st, call)
  {
    var last := CallSym(args.reg, f.value, args.values);
    var code := f.code + args.code + [last];
    assert code == f.code + (args.code + [last]);
    WithinAppend(f.code, args.code, reg, f.reg, args.reg);
    WithinAppend(f.code + args.code, [last], reg, args.reg, args.reg + 1);
    ExecuteAppend(f.code, args.code + [last], st, call);
    if callee.Some? {
      var mid := ExecuteAll(f.code, st, call).value;
      ExecuteAppend(args.code, [last], mid, call);
      if ExecuteAll(args.code, mid, call).Some? {
        var end := ExecuteAll(args.code, mid, call).value;
        ExecutePreserves(args.code, f.reg, args.reg, mid, call);
        StandsLater(known, values, f.value, callee.value.0, mid, end, f.reg);
        ExecuteOne(last, end, call);
        if Execute(last, end, call).Some? {
          ExecutePreserves(code, reg, args.reg + 1, st, call);
          if given.Some? {
            AgreeAfter(known, values, given.value.1, end, Execute(last, end, call).value);
          }
        }
      }
    }
  }

  /** The value of an expression that is loaded at once. */
  lemma {:induction false} LoadedComputes(g: Globals, call: Oracle, known: set<Name>, values: ValueMap, reg: nat,
                                          e: Tree, env: Env, st: State)
    requires ClosedExpr(g, known, e) && Agree(known, values, env, st)
    ensures var c := GenExpr(g, values, reg, e);
            var v := LoadMemory(c.value, c.reg);
            var run := ExecuteAll(c.code + v.code, st, call);
            var p := Eval(g, call, e, env);
            (p.Some? ==> Below(v.value, v.reg)) && Open(v.code) &&
            if p.Some? && Content(p.value.0, p.value.1).Some? then
              run.Some? && ReadValue(run.value, v.value) == Content(p.value.0, p.value.1) &&
              run.value.out == st.out && run.value.args == st.args && Agree(known, values, p.value.1, run.value)
            else run.None? || (p.Some? && ReadValue(run.value, v.value).None?)
    decreases e, 2
  {
    hide GenExpr, Eval, Agree, Stands, Within;
    var c := GenExpr(g, values, reg, e);
    var v := LoadMemory(c.value, c.reg);
    ExecuteAppend(c.code, v.code, st, call);
    ExprComputes(g, call, known, values, reg, e, env, st);
    var p := Eval(g, call, e, env);
    if p.Some? {
      var st1 := ExecuteAll(c.code, st, call).value;
      LoadMeaning(known, values, c.value, p.value.0, c.reg, p.value.1, st1, call);
      if ExecuteAll(v.code, st1, call).Some? {
        ExecutePreserves(v.code, c.reg, v.reg, st1, call);
        if Content(p.value.0, p.value.1).Some? {
          AgreeAfter(known, values, p.value.1, st1, ExecuteAll(v.code, st1, call).value);
        }
      }
    }
  }

  lemma {:induction false} ArgsCompute(g: Globals, call: Oracle, known: set<Name>, values: ValueMap,
                                       reg: nat, es: seq<Tree>, env: Env, st: State)
    requires ClosedExprs(g, known, es) && Agree(known, values, env, st)
    ensures ComputesArgs(known, values, GenArgs(g, values, reg, es), EvalArgs(g, call, es, env), st, call)
    decreases es
  {
    hide GenExpr, Eval, Agree, Stands, Within, Computes, Execute;
    if es != [] {
      var a := GenExpr(g, values, reg, es[0]);
      var v := LoadMemory(a.value, a.reg);
      var more := GenArgs(g, values, v.reg, es[1..]);
      var whole := GenArgs(g, values, reg, es);
      var loaded := a.code + v.code;
      assert whole.code == loaded + more.code;
      assert whole.values[0] == v.value && whole.values[1..] == more.values;
      ExecuteAppend(loaded, more.code, st, call);
      LoadedComputes(g, call, known, values, reg, es[0], env, st);
      var first := Eval(g, call, es[0], env);
      if ExecuteAll(loaded, st, call).Some? {
        var mid := ExecuteAll(loaded, st, call).value;
        if first.Some? && Content(first.value.0, first.value.1).Some? {
          ArgsCompute(g, call, known, values, v.reg, es[1..], first.value.1, mid);
        }
        if ExecuteAll(more.code, mid, call).Some? {
          var end := ExecuteAll(more.code, mid, call).value;
          ArgsWithin(g, values, v.reg, es[1..]);
          ExecutePreserves(more.code, v.reg, more.reg, mid, call);
          assert ReadValue(end, v.value) == ReadValue(mid, v.value);
        }
      }
      assert ComputesArgs(known, values, whole, EvalArgs(g, call, es, env), st, call);
    }
  }
}
