/** The code generator as the original runs it: a builder that is moved from
    block to block while statements and expressions are visited
    (src/Codegen/FunctionCodegen.cpp).  Every method is proved to leave the
    builder as the functions of the other modules say. */
module FunctionGeneration {
  import opened Wrappers
  import opened Ast
  import opened Machine
  import opened Semantics
  import opened Sequences
  import opened ExprCodegen
  import opened Graph
  import opened StmtCodegen
  import opened Simulation
  import opened FunctionCodegen

  lemma EmitTwice(b: Builder, x: Code, y: Code)
    requires b.at < |b.blocks|
    ensures Emit(Emit(b, x), y) == Emit(b, x + y)
  {
    Assoc(b.blocks[b.at], x, y);
    assert b.blocks[b.at := b.blocks[b.at] + x][b.at := b.blocks[b.at] + x + y] ==
           b.blocks[b.at := b.blocks[b.at] + (x + y)];
  }

  lemma EmitNone(b: Builder)
    ensures Emit(b, []) == b
  {
    if b.at < |b.blocks| {
      EmptyRight(b.blocks[b.at]);
      assert b.blocks[b.at := b.blocks[b.at]] == b.blocks;
    }
  }

  /** A builder after more code and some registers. */
  function Appended(b: Builder, reg: nat, code: Code): Builder {
    Emit(b.(reg := reg), code)
  }

  lemma AppendedTwice(b: Builder, mid: nat, x: Code, high: nat, y: Code)
    requires b.at < |b.blocks|
    ensures Appended(Appended(b, mid, x), high, y) == Appended(b, high, x + y)
  {
    EmitTwice(b.(reg := high), x, y);
  }

  lemma AppendedNone(b: Builder)
    ensures Appended(b, b.reg, []) == b
  {
    EmitNone(b);
  }

  /** The arguments left to generate follow the ones generated. */
  function Following(code: Code, values: seq<Value>, rest: EmittedArgs): EmittedArgs {
    EmittedArgs(code + rest.code, values + rest.values, rest.reg)
  }

  lemma FollowingNext(code: Code, values: seq<Value>, next: Code, v: Value, rest: EmittedArgs)
    ensures Following(code, values, EmittedArgs(next + rest.code, [v] + rest.values, rest.reg)) ==
            Following(code + next, values + [v], rest)
  {
    Assoc(code, next, rest.code);
    Assoc(values, [v], rest.values);
  }

  class FunctionGenerator {
    const g: Globals
    var blocks: Cfg
    var at: nat
    var reg: nat
    var values: ValueMap

    ghost function Now(): Builder
      reads this
    {
      Builder(blocks, at, reg, values)
    }

    constructor (g: Globals)
      ensures this.g == g && Now() == Builder([], 0, 0, map[])
    {
      this.g := g;
      blocks, at, reg, values := [], 0, 0, map[];
    }

    /** Creates an empty block without inserting into it. */
    method NewBlock() returns (block: nat)
      modifies this
      ensures block == old(|blocks|) && Now() == CreateBlock(old(Now()))
    {
      block := |blocks|;
      blocks := blocks + [[]];
    }

    method SetInsertPoint(block: nat)
      modifies this
      ensures Now() == old(Now()).(at := block)
    {
      at := block;
    }

    /** Appends an instruction at the insertion point. */
    method Create(i: Instr)
      requires at < |blocks|
      modifies this
      ensures Now() == Emit(old(Now()), [i])
    {
      blocks := blocks[at := blocks[at] + [i]];
    }

    /** Appends an instruction that defines a register. */
    method Define(i: Instr) returns (r: Value)
      requires at < |blocks|
      modifies this
      ensures r == Temp(old(reg)) && Now() == Appended(old(Now()), old(reg) + 1, [i])
    {
      Create(i);
      r := Temp(reg);
      reg := reg + 1;
    }

    method Load(v: Value) returns (r: Value)
      requires at < |blocks|
      modifies this
      ensures var l := LoadMemory(v, old(reg)); r == l.value && Now() == Appended(old(Now()), l.reg, l.code)
    {
      if IsPointer(v) {
        r := Define(Instr.Load(reg, v));
      } else {
        AppendedNone(Now());
        r := v;
      }
    }

    /** The value of a declaration in scope; there always is one. */
    method LookupLocal(x: Name) returns (r: Value)
      requires x in values
      ensures r == LocalValue(values, x)
    {
      r := values[x];
    }

    method CodegenExpr(ghost known: set<Name>, e: Tree) returns (r: Value)
      requires at < |blocks| && ClosedExpr(g, known, e) && known <= values.Keys
      modifies this
      ensures var x := GenExpr(g, old(values), old(reg), e);
              r == x.value && Now() == Appended(old(Now()), x.reg, x.code)
      decreases e, 1
    {
      match e.head {
        case DeclRef(x) =>
          AppendedNone(Now());
          if x in g.functions {
            r := Global(g.functions[x]);
          } else if x in g.constants {
            r := Const(g.constants[x]);
          } else {
            r := LookupLocal(x);
          }
        case IntegerLiteral(n) =>
          AppendedNone(Now());
          r := Const(n);
        case BooleanLiteral(b) =>
          AppendedNone(Now());
          r := Const(Bit(b));
        case MetaInstantiation =>
          AppendedNone(Now());
          r := Global(g.instances[e]);
        case Binary(_) => r := CodegenBinaryOperator(known, e);
        case Call => r := CodegenCallOperator(known, e);
      }
    }

    method CodegenLoaded(ghost known: set<Name>, e: Tree) returns (r: Value)
      requires at < |blocks| && ClosedExpr(g, known, e) && known <= values.Keys
      modifies this
      ensures var x := GenExpr(g, old(values), old(reg), e);
              var l := LoadMemory(x.value, x.reg);
              r == l.value && Now() == Appended(old(Now()), l.reg, x.code + l.code)
      decreases e, 2
    {
      ghost var start := Now();
      ghost var x := GenExpr(g, values, reg, e);
      ghost var l := LoadMemory(x.value, x.reg);
      var v := CodegenExpr(known, e);
      r := Load(v);
      AppendedTwice(start, x.reg, x.code, l.reg, l.code);
    }

    method CodegenBinaryOperator(ghost known: set<Name>, e: Tree) returns (r: Value)
      requires at < |blocks| && ClosedExpr(g, known, e) && known <= values.Keys && e.head.Binary?
      modifies this
      ensures var x := GenExpr(g, old(values), old(reg), e);
              r == x.value && Now() == Appended(old(Now()), x.reg, x.code)
      decreases e, 0
    {
      ghost var start := Now();
      ghost var l := GenExpr(g, values, reg, e.kids[0]);
      ghost var x := GenExpr(g, values, l.reg, e.kids[1]);
      var left := CodegenExpr(known, e.kids[0]);
      var right := CodegenExpr(known, e.kids[1]);
      AppendedTwice(start, l.reg, l.code, x.reg, x.code);
      r := CodegenOperator(e.head.op, left, right, l, x);
      AppendedTwice(start, x.reg, l.code + x.code, reg, OperatorTail(e.head.op, l, x));
      OperatorSplits(e.head.op, l, x);
      Assoc(l.code, x.code, OperatorTail(e.head.op, l, x));
    }

    /** Loads the operands of an operator, whose code is there already, and
        applies it. */
    method CodegenOperator(op: BinaryOp, left: Value, right: Value, ghost l: Emitted, ghost x: Emitted)
      returns (r: Value)
      requires at < |blocks| && left == l.value && right == x.value && reg == x.reg
      modifies this
      ensures var o := GenOperator(op, l, x);
              r == o.value && Now() == Appended(old(Now()), o.reg, OperatorTail(op, l, x))
    {
      ghost var start := Now();
      if op.Assign? {
        var loaded := Load(right);
        Create(Store(loaded, left));
        ghost var v := LoadMemory(x.value, x.reg);
        AppendedTwice(start, v.reg, v.code, v.reg, [Store(v.value, l.value)]);
        return right;
      }
      ghost var av := LoadMemory(l.value, x.reg);
      ghost var bv := LoadMemory(x.value, av.reg);
      var a := Load(left);
      var b := Load(right);
      AppendedTwice(start, av.reg, av.code, bv.reg, bv.code);
      r := Apply(op, a, b);
      AppendedTwice(start, bv.reg, av.code + bv.code, reg, OperatorInstrs(op, av.value, bv.value, bv.reg));
    }

    /** A comparison yields one bit, which is widened. */
    method Apply(op: BinaryOp, a: Value, b: Value) returns (r: Value)
      requires at < |blocks|
      modifies this
      ensures r == Temp(old(reg) + (if IsComparison(op) then 1 else 0))
      ensures reg == old(reg) + (if IsComparison(op) then 2 else 1)
      ensures Now() == Appended(old(Now()), reg, OperatorInstrs(op, a, b, old(reg)))
    {
      ghost var start := Now();
      if IsComparison(op) {
        var bit := Define(Compare(reg, op, a, b));
        r := Define(ZExt(reg, bit));
        AppendedTwice(start, start.reg + 1, [Compare(start.reg, op, a, b)], reg, [ZExt(start.reg + 1, bit)]);
      } else {
        r := Define(Arith(reg, op, a, b));
      }
    }

    method CodegenCallOperator(ghost known: set<Name>, e: Tree) returns (r: Value)
      requires at < |blocks| && ClosedExpr(g, known, e) && known <= values.Keys && e.head.Call?
      modifies this
      ensures var x := GenExpr(g, old(values), old(reg), e);
              r == x.value && Now() == Appended(old(Now()), x.reg, x.code)
      decreases e, 0
    {
      ghost var start := Now();
      ghost var f := GenExpr(g, values, reg, e.kids[0]);
      ghost var given := GenArgs(g, values, f.reg, e.kids[1..]);
      var callee := CodegenExpr(known, e.kids[0]);
      ghost var called := Now();
      var args: seq<Value> := [];
      ghost var code: Code := [];
      AppendedNone(called);
      assert Following([], [], given) == given;
      for i := 1 to |e.kids|
        invariant at < |blocks| && values == start.values && known <= values.Keys
        invariant Now() == Appended(called, reg, code)
        invariant ClosedExprs(g, known, e.kids[i..])
        invariant given == Following(code, args, GenArgs(g, values, reg, e.kids[i..]))
      {
        ghost var before := reg;
        ghost var a := GenExpr(g, values, reg, e.kids[i]);
        ghost var v := LoadMemory(a.value, a.reg);
        assert e.kids[i..][1..] == e.kids[i + 1..];
        var loaded := CodegenLoaded(known, e.kids[i]);
        AppendedTwice(called, before, code, v.reg, a.code + v.code);
        FollowingNext(code, args, a.code + v.code, v.value, GenArgs(g, values, reg, e.kids[i + 1..]));
        code := code + (a.code + v.code);
        args := args + [loaded];
      }
      assert e.kids[|e.kids|..] == [];
      EmptyRight(code);
      EmptyRight(args);
      AppendedTwice(start, f.reg, f.code, reg, code);
      r := Define(CallSym(reg, callee, args));
      AppendedTwice(start, given.reg, f.code + code, given.reg + 1, [CallSym(given.reg, callee, args)]);
    }
 
    /** Opens a new block of code: the true or the false branch of an `if`. */
    method OpenBranch() returns (block: nat)
      modifies this
      ensures block == old(|blocks|) && Now() == StmtCodegen.StartBranch(old(Now()))
    {
      block := NewBlock();
      SetInsertPoint(block);
    }

    method LazyGetContinueBlock(cont: Option<nat>) returns (block: nat)
      modifies this
      ensures var j := LazyContinue(old(Now()), cont); Now() == j.b && Some(block) == j.cont
    {
      if cont.None? {
        block := NewBlock();
      } else {
        block := cont.value;
      }
    }

    /** Leaves a branch for the continue block when it can be left. */
    method CloseBranch(end: Option<nat>, cont: Option<nat>) returns (next: Option<nat>)
      requires at < |blocks|
      modifies this
      ensures var j := Join(old(Now()), end, cont); Now() == j.b && next == j.cont
    {
      if end.None? {
        return cont;
      }
      var block := LazyGetContinueBlock(cont);
      Create(Br(block));
      return Some(block);
    }

    /** The branch instruction, generated last, in the block the `if` began in. */
    method CodegenBranch(ghost known: set<Name>, block: nat, cond: Tree, yes: nat, no: nat, cont: Option<nat>)
      returns (end: Option<nat>)
      requires block < |blocks| && ClosedExpr(g, known, cond) && known <= values.Keys
      modifies this
      ensures (Now(), end) == Branch(g, old(Now()), block, cond, yes, no, cont)
    {
      ghost var start := Now().(at := block);
      ghost var e := GenExpr(g, values, reg, cond);
      SetInsertPoint(block);
      var v := CodegenExpr(known, cond);
      var test := Define(IsNotNull(reg, v));
      AppendedTwice(start, e.reg, e.code, e.reg + 1, [IsNotNull(e.reg, v)]);
      Create(CondBr(test, yes, no));
      AppendedTwice(start, e.reg + 1, e.code + [IsNotNull(e.reg, v)], e.reg + 1, [CondBr(test, yes, no)]);
      assert e.code + [IsNotNull(e.reg, v)] + [CondBr(test, yes, no)] ==
             e.code + [IsNotNull(e.reg, v), CondBr(test, yes, no)];
      if cont.Some? {
        SetInsertPoint(cont.value);
      }
      return cont;
    }

    method CodegenStmt(ghost known: set<Name>, block: nat, s: Tree) returns (end: Option<nat>)
      requires block == at && Ready(Now()) && ClosedStmt(g, known, s) && Scoped(known, values, reg)
      modifies this
      ensures (Now(), end) == GenStmt(g, old(Now()), block, s)
      decreases s, 1
    {
      match s.head {
        case UnscopedCompound => end := CodegenChildren(known, block, s.kids);
        case Compound =>
          var outer := values;
          end := CodegenChildren(known, block, s.kids);
          values := outer;
        case Return => end := CodegenReturnStmt(known, s);
        case ExpressionStmt =>
          var v := CodegenExpr(known, s.kids[0]);
          end := Some(block);
        case DeclStmt(_) =>
          CodegenDeclStmt(known, s);
          end := Some(block);
        case If => end := CodegenIfStmt(known, block, s);
      }
    }

    method CodegenReturnStmt(ghost known: set<Name>, s: Tree) returns (end: Option<nat>)
      requires Ready(Now()) && ClosedStmt(g, known, s) && Scoped(known, values, reg) && s.head.Return?
      modifies this
      ensures (Now(), end) == GenStmt(g, old(Now()), old(at), s)
    {
      ghost var start := Now();
      if s.kids == [] {
        Create(RetVoid);
        return None;
      }
      ghost var e := GenExpr(g, values, reg, s.kids[0]);
      ghost var l := LoadMemory(e.value, e.reg);
      var loaded := CodegenLoaded(known, s.kids[0]);
      Create(Ret(loaded));
      AppendedTwice(start, l.reg, e.code + l.code, l.reg, [Ret(l.value)]);
      return None;
    }

    method CodegenDeclStmt(ghost known: set<Name>, s: Tree)
      requires Ready(Now()) && ClosedStmt(g, known, s) && Scoped(known, values, reg) && s.head.DeclStmt?
      modifies this
      ensures Now() == GenStmt(g, old(Now()), old(at), s).0
    {
      hide GenExpr, ClosedExpr;
      ghost var start := Now();
      ghost var e := GenExpr(g, values, reg, s.kids[0]);
      ghost var l := LoadMemory(e.value, e.reg + 1);
      var v := CodegenExpr(known, s.kids[0]);
      var slot := reg;
      Create(Alloca(slot));
      reg := reg + 1;
      AppendedTwice(start, e.reg, e.code, e.reg + 1, [Alloca(e.reg)]);
      var loaded := Load(v);
      AppendedTwice(start, e.reg + 1, e.code + [Alloca(e.reg)], l.reg, l.code);
      Create(Store(loaded, Slot(slot)));
      AppendedTwice(start, l.reg, e.code + [Alloca(e.reg)] + l.code, l.reg, [Store(l.value, Slot(e.reg))]);
      Assoc4(e.code, [Alloca(e.reg)], l.code, [Store(l.value, Slot(e.reg))]);
      Assoc([Alloca(e.reg)], l.code, [Store(l.value, Slot(e.reg))]);
      values := values[s.head.name := Slot(slot)];
    }

    /** The statements of a block, one after the other; none follows one that
        always returns. */
    method CodegenChildren(ghost known: set<Name>, block: nat, ss: seq<Tree>) returns (current: Option<nat>)
      requires block == at && Ready(Now()) && ClosedStmts(g, known, ss) && Scoped(known, values, reg)
      modifies this
      ensures (Now(), current) == GenStmts(g, old(Now()), block, ss)
      decreases ss
    {
      current := Some(block);
      ghost var declared := known;
      assert ss[0..] == ss;
      for i := 0 to |ss|
        invariant current.None? ==> ss[i..] == []
        invariant current.Some? ==>
                    current.value == at && Ready(Now()) && ClosedStmts(g, declared, ss[i..]) &&
                      Scoped(declared, values, reg)
        invariant GenStmts(g, old(Now()), block, ss) ==
                  if current.Some? then GenStmts(g, Now(), at, ss[i..]) else (Now(), None)
      {
        ghost var before := Now();
        assert ss[i..][1..] == ss[i + 1..];
        StmtRegion(g, declared, before, ss[i]);
        StmtScopes(g, declared, before, ss[i]);
        current := CodegenStmt(declared, current.value, ss[i]);
        declared := declared + Declares(ss[i]);
      }
      assert ss[|ss|..] == [];
    }

    method CodegenIfStmt(ghost known: set<Name>, block: nat, s: Tree) returns (end: Option<nat>)
      requires block == at && Ready(Now()) && ClosedStmt(g, known, s) && Scoped(known, values, reg) && s.head.If?
      modifies this
      ensures (Now(), end) == GenStmt(g, old(Now()), block, s)
      decreases s, 0
    {
      hide GenStmt, Branch, Scoped;
      ghost var start := Now();
      IfBuilt(g, known, start, s);
      var yes := OpenBranch();
      BranchEnds(g, known, start, None, s.kids[1]);
      end := CodegenStmt(known, yes, s.kids[1]);
      var cont := CloseBranch(end, None);
      ghost var mid := Now();
      ghost var more := known + Declares(s.kids[1]);
      KeepsScoped(known, more, start, mid);
      var no;
      if |s.kids| > 2 {
        no := OpenBranch();
        BranchEnds(g, more, mid, cont, s.kids[2]);
        end := CodegenStmt(more, no, s.kids[2]);
        cont := CloseBranch(end, cont);
      } else {
        no := LazyGetContinueBlock(cont);
        cont := Some(no);
      }
      end := CodegenBranch(known, block, s.kids[0], yes, no, cont);
    }

    /** A block to begin with; the function must still be empty. */
    method CreateEntryBlock()
      requires blocks == []
      modifies this
      ensures Now() == old(Now()).(blocks := [[]], at := 0)
    {
      var entry := NewBlock();
      SetInsertPoint(entry);
    }

    /** Gives every named argument a slot of its own. */
    method CodegenStackFrame(ps: Params)
      requires blocks == []
      modifies this
      ensures Now() == SetUpStackFrame(old(Now()).(blocks := [[]], at := 0), ps, 0)
    {
      CreateEntryBlock();
      ghost var entry := Now();
      assert ps[0..] == ps;
      for i := 0 to |ps|
        invariant at < |blocks|
        invariant SetUpStackFrame(entry, ps, 0) == SetUpStackFrame(Now(), ps[i..], i)
      {
        assert ps[i..][1..] == ps[i + 1..];
        if ps[i].Some? {
          ghost var before := Now();
          var slot := reg;
          Create(Alloca(slot));
          reg := reg + 1;
          Create(Store(Arg(i), Slot(slot)));
          EmitTwice(before.(reg := slot + 1), [Alloca(slot)], [Store(Arg(i), Slot(slot))]);
          values := values[ps[i].value := Slot(slot)];
        }
      }
      assert ps[|ps|..] == [];
    }

    /** Generates a whole function into the empty graph of a new generator. */
    method Codegen(ps: Params, body: Tree)
      requires Now() == Builder([], 0, 0, map[]) && ClosedFunction(g, ps, body)
      modifies this
      ensures blocks == GenFunction(g, ps, body) && WellFormed(blocks) && Acyclic(blocks)
    {
      BodyRegion(g, ps, body);
      FunctionWellFormed(g, ps, body);
      FunctionAcyclic(g, ps, body);
      CodegenStackFrame(ps);
      var end := CodegenStmt(ParamNames(ps), at, body);
      if end.Some? {
        Create(RetVoid);
      }
    }
  }
}
