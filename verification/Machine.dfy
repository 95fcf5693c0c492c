/** A small register machine standing for the part of LLVM the code generator
    uses: basic blocks of instructions, stack slots and 32-bit integers. */
module Machine {
  import opened Wrappers
  import opened Ast
  import opened Layout

  type Sym = string

  const TWO_TO_THE_31: int := 0x8000_0000
  const TWO_TO_THE_32: int := 0x1_0000_0000

  /** A 32-bit integer. */
  predicate IsWord(n: int) {
    -TWO_TO_THE_31 <= n < TWO_TO_THE_31
  }

  /** Two's complement wrap-around of a 32-bit result. */
  function Wrap(x: int): (r: int)
    ensures -TWO_TO_THE_31 <= r < TWO_TO_THE_31
    ensures (x - r) % TWO_TO_THE_32 == 0
    ensures -TWO_TO_THE_31 <= x < TWO_TO_THE_31 ==> r == x
  {
    (x + TWO_TO_THE_31) % TWO_TO_THE_32 - TWO_TO_THE_31
  }

  function Magnitude(x: int): nat {
    if x >= 0 then x else -x
  }

  /** Division truncating toward zero: the remainder has the sign of the dividend. */
  function Quotient(a: int, b: int): (q: int)
    requires b != 0
    ensures Magnitude(a - q * b) < Magnitude(b)
    ensures if a >= 0 then a - q * b >= 0 else a - q * b <= 0
  {
    if a >= 0 || a % b == 0 then a / b
    else if b > 0 then a / b + 1
    else a / b - 1
  }

  function Bit(b: bool): int {
    if b then 1 else 0
  }

  predicate IsComparison(op: BinaryOp) {
    op.LessThan? || op.GreaterThan? || op.LessThanOrEq? || op.GreaterThanOrEq? || op.Equal? || op.NotEqual?
  }

  /** The value of an operator on two 32-bit integers; undefined for a
      division by zero or one that overflows, and for the assignment. */
  function Operate(op: BinaryOp, a: int, b: int): Option<int> {
    match op
    case Mul => Some(Wrap(a * b))
    case Div => if b == 0 || (a == -TWO_TO_THE_31 && b == -1) then None else Some(Quotient(a, b))
    case Plus => Some(Wrap(a + b))
    case Minus => Some(Wrap(a - b))
    case LessThan => Some(Bit(a < b))
    case GreaterThan => Some(Bit(a > b))
    case LessThanOrEq => Some(Bit(a <= b))
    case GreaterThanOrEq => Some(Bit(a >= b))
    case Equal => Some(Bit(a == b))
    case NotEqual => Some(Bit(a != b))
    case Assign => None
  }

  /** Operands.  A slot is the pointer an alloca returns. */
  datatype Value = Const(n: int) | Temp(id: nat) | Slot(id: nat) | Arg(index: nat) | Global(sym: Sym)

  predicate IsPointer(v: Value) {
    v.Slot? || v.Global?
  }

  datatype Instr =
    | Alloca(slot: nat)
    | Store(value: Value, pointer: Value)
    | Load(dest: nat, pointer: Value)
    | Arith(dest: nat, op: BinaryOp, left: Value, right: Value)
    | Compare(dest: nat, op: BinaryOp, left: Value, right: Value)
    | ZExt(dest: nat, value: Value)
    | CallSym(dest: nat, callee: Value, args: seq<Value>)
    | IsNotNull(dest: nat, value: Value)
    // the three callbacks of a meta function
    | Contribute(node: Head)
    | Reduce
    | Introduce(name: Name, pointer: Value, insideFunction: bool)
    // terminators
    | Br(target: nat)
    | CondBr(cond: Value, yes: nat, no: nat)
    | Ret(value: Value)
    | RetVoid

  predicate IsTerminator(i: Instr) {
    i.Br? || i.CondBr? || i.Ret? || i.RetVoid?
  }

  type Code = seq<Instr>
  /** The blocks of a function, numbered in the order of their creation; block 0 is the entry. */
  type Cfg = seq<Code>

  /** Registers and slots hold an integer or are undefined; `out` is the layout
      the callbacks have written. */
  datatype State = State(temps: map<nat, Option<int>>, slots: map<nat, Option<int>>, args: seq<int>, out: Layout)

  /** The result of a call: undefined, no value, or an integer. */
  type Oracle = (Sym, seq<int>) -> Option<Option<int>>

  function ReadValue(st: State, v: Value): Option<int> {
    match v
    case Const(n) => Some(n)
    case Temp(t) => if t in st.temps then st.temps[t] else None
    case Arg(i) => if i < |st.args| then Some(st.args[i]) else None
    case Slot(_) | Global(_) => None
  }

  function ReadAll(st: State, vs: seq<Value>): (r: Option<seq<int>>)
    ensures r.Some? ==> |r.value| == |vs|
  {
    if vs == [] then Some([])
    else
      match ReadValue(st, vs[0])
      case None => None
      case Some(n) =>
        match ReadAll(st, vs[1..])
        case None => None
        case Some(ns) => Some([n] + ns)
  }

  function SetTemp(st: State, dest: nat, value: Option<int>): State {
    st.(temps := st.temps[dest := value])
  }

  /** The node a calculation's value is exported as: a declaration inside a
      function, a global constant at the top level. */
  function ExportHead(name: Name, insideFunction: bool): Head {
    if insideFunction then DeclStmt(name) else GlobalConstant(name)
  }

  function Exported(name: Name, value: int, insideFunction: bool): Tree {
    Tree(ExportHead(name, insideFunction), [Tree(IntegerLiteral(value), [])])
  }

  /** One instruction that is not a terminator; `None` when it has no meaning. */
  function Execute(i: Instr, st: State, call: Oracle): Option<State> {
    match i
    case Alloca(s) => Some(st.(slots := st.slots[s := None]))
    case Store(v, p) =>
      var n := ReadValue(st, v);
      if n.Some? && p.Slot? && p.id in st.slots then Some(st.(slots := st.slots[p.id := n])) else None
    case Load(d, p) =>
      if p.Slot? && p.id in st.slots && st.slots[p.id].Some? then Some(SetTemp(st, d, st.slots[p.id])) else None
    case Arith(d, op, l, r) =>
      var a, b := ReadValue(st, l), ReadValue(st, r);
      if a.Some? && b.Some? && !IsComparison(op) && Operate(op, a.value, b.value).Some?
      then Some(SetTemp(st, d, Operate(op, a.value, b.value)))
      else None
    case Compare(d, op, l, r) =>
      var a, b := ReadValue(st, l), ReadValue(st, r);
      if a.Some? && b.Some? && IsComparison(op) then Some(SetTemp(st, d, Operate(op, a.value, b.value))) else None
    case ZExt(d, v) =>
      var n := ReadValue(st, v);
      if n.Some? then Some(SetTemp(st, d, n)) else None
    case CallSym(d, f, vs) =>
      var ns := ReadAll(st, vs);
      if f.Global? && ns.Some? && call(f.sym, ns.value).Some?
      then Some(SetTemp(st, d, call(f.sym, ns.value).value))
      else None
    case IsNotNull(d, v) =>
      if IsPointer(v) then Some(SetTemp(st, d, Some(1)))
      else if ReadValue(st, v).Some? then Some(SetTemp(st, d, Some(Bit(ReadValue(st, v).value != 0))))
      else None
    case Contribute(h) => Some(st.(out := st.out + [Some(h)]))
    case Reduce => Some(st.(out := st.out + [None]))
    case Introduce(x, p, inside) =>
      if p.Slot? && p.id in st.slots && st.slots[p.id].Some?
      then Some(st.(out := st.out + [Some(ExportHead(x, inside)), Some(IntegerLiteral(st.slots[p.id].value))]))
      else None
    case _ => None
  }

  function ExecuteAll(code: Code, st: State, call: Oracle): Option<State> {
    if code == [] then Some(st)
    else
      match Execute(code[0], st, call)
      case None => None
      case Some(next) => ExecuteAll(code[1..], next, call)
  }

  lemma {:induction false} ExecuteAppend(a: Code, b: Code, st: State, call: Oracle)
    ensures ExecuteAll(a + b, st, call) ==
            match ExecuteAll(a, st, call)
            case None => None
            case Some(mid) => ExecuteAll(b, mid, call)
    decreases a
  {
    if a == [] {
      assert a + b == b;
    } else {
      assert (a + b)[1..] == a[1..] + b;
      if Execute(a[0], st, call).Some? {
        ExecuteAppend(a[1..], b, Execute(a[0], st, call).value, call);
      }
    }
  }

  lemma ExecuteOne(i: Instr, st: State, call: Oracle)
    ensures ExecuteAll([i], st, call) == Execute(i, st, call)
  {
    assert [i][1..] == [];
  }

  /** A configuration of a running function. */
  datatype Conf =
    | At(block: nat, pos: nat, st: State)
    | Finished(result: Option<int>, out: Layout)
    | Stuck

  /** One step; running off the end of a block gets stuck. */
  function Step(f: Cfg, call: Oracle, c: Conf): Conf {
    if !c.At? then c
    else if c.block >= |f| || c.pos >= |f[c.block]| then Stuck
    else
      match f[c.block][c.pos]
      case Br(t) => At(t, 0, c.st)
      case CondBr(v, yes, no) =>
        var n := ReadValue(c.st, v);
        if n.None? then Stuck else At(if n.value != 0 then yes else no, 0, c.st)
      case Ret(v) =>
        var n := ReadValue(c.st, v);
        if n.None? then Stuck else Finished(n, c.st.out)
      case RetVoid => Finished(None, c.st.out)
      case i =>
        match Execute(i, c.st, call)
        case None => Stuck
        case Some(st) => At(c.block, c.pos + 1, st)
  }

  function StepN(f: Cfg, call: Oracle, c: Conf, n: nat): Conf
    decreases n
  {
    if n == 0 then c else StepN(f, call, Step(f, call, c), n - 1)
  }

  lemma {:induction false} StepAdd(f: Cfg, call: Oracle, c: Conf, m: nat, n: nat)
    ensures StepN(f, call, c, m + n) == StepN(f, call, StepN(f, call, c, m), n)
    decreases m
  {
    if m != 0 {
      StepAdd(f, call, Step(f, call, c), m - 1, n);
    }
  }

  /** A run that has ended stays where it is. */
  lemma {:induction false} EndedStays(f: Cfg, call: Oracle, c: Conf, n: nat)
    requires !c.At?
    ensures StepN(f, call, c, n) == c
    decreases n
  {
    if n != 0 {
      EndedStays(f, call, c, n - 1);
    }
  }

  /** Two runs that both ended have ended alike, however long they took. */
  lemma EndsOnce(f: Cfg, call: Oracle, c: Conf, m: nat, n: nat)
    requires !StepN(f, call, c, m).At? && !StepN(f, call, c, n).At?
    ensures StepN(f, call, c, m) == StepN(f, call, c, n)
  {
    if m <= n {
      StepAdd(f, call, c, m, n - m);
      EndedStays(f, call, StepN(f, call, c, m), n - m);
    } else {
      StepAdd(f, call, c, n, m - n);
      EndedStays(f, call, StepN(f, call, c, n), m - n);
    }
  }

  /** No terminator yet. */
  predicate Open(code: Code) {
    forall i | 0 <= i < |code| :: !IsTerminator(code[i])
  }

  /** Exactly one terminator, at the end. */
  predicate Terminated(code: Code) {
    code != [] && Open(code[..|code| - 1]) && IsTerminator(code[|code| - 1])
  }

  /** Stepping through straight-line code does what executing it does. */
  lemma {:induction false} RunStraight(f: Cfg, call: Oracle, b: nat, pos: nat, code: Code, st: State)
    requires b < |f| && pos + |code| <= |f[b]| && f[b][pos..pos + |code|] == code
    requires Open(code)
    ensures StepN(f, call, At(b, pos, st), |code|) ==
            match ExecuteAll(code, st, call)
            case None => Stuck
            case Some(end) => At(b, pos + |code|, end)
    decreases code
  {
    if code != [] {
      assert f[b][pos] == code[0];
      var next := Step(f, call, At(b, pos, st));
      if Execute(code[0], st, call).Some? {
        assert f[b][pos + 1..pos + 1 + |code[1..]|] == code[1..];
        RunStraight(f, call, b, pos + 1, code[1..], next.st);
      } else {
        EndedStays(f, call, Stuck, |code| - 1);
      }
    }
  }
}
