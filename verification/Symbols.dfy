/** The functions generated code refers to. */
module Symbols {
  import opened Wrappers
  import opened Ast
  import opened Machine
  import opened Semantics
  import opened ExprCodegen
  import opened StmtCodegen
  import opened FunctionCodegen
  import opened Runs
  import opened DependencyAnalysis
  import opened Binding

  function SymbolOf(v: Value): set<Sym> {
    if v.Global? then {v.sym} else {}
  }

  function SymbolsOfAll(vs: seq<Value>): set<Sym> {
    if vs == [] then {} else SymbolOf(vs[0]) + SymbolsOfAll(vs[1..])
  }

  function SymbolsIn(i: Instr): set<Sym> {
    match i
    case Store(v, p) => SymbolOf(v) + SymbolOf(p)
    case Load(_, p) => SymbolOf(p)
    case Arith(_, _, a, b) => SymbolOf(a) + SymbolOf(b)
    case Compare(_, _, a, b) => SymbolOf(a) + SymbolOf(b)
    case ZExt(_, v) => SymbolOf(v)
    case CallSym(_, f, vs) => SymbolOf(f) + SymbolsOfAll(vs)
    case IsNotNull(_, v) => SymbolOf(v)
    case Introduce(_, p, _) => SymbolOf(p)
    case CondBr(c, _, _) => SymbolOf(c)
    case Ret(v) => SymbolOf(v)
    case _ => {}
  }

  ghost predicate Refers(code: Code, to: set<Sym>) {
    forall i | 0 <= i < |code| :: SymbolsIn(code[i]) <= to
  }

  ghost predicate GraphRefers(f: Cfg, to: set<Sym>) {
    forall i | 0 <= i < |f| :: Refers(f[i], to)
  }

  lemma RefersAppend(a: Code, b: Code, to: set<Sym>)
    requires Refers(a, to) && Refers(b, to)
    ensures Refers(a + b, to)
  {
  }

  /** The functions the generator looks up for a node: called by name or exported
      by an instantiation. */
  function Mentions(g: Globals, t: Tree): seq<Sym>
    decreases t, 0
  {
    if t.head.MetaInstantiation? then (if t in g.instances then [g.instances[t]] else [])
    else if t.head.DeclRef? then (if t.head.name in g.functions then [g.functions[t.head.name]] else [])
    else MentionsOf(g, t.kids)
  }

  function MentionsOf(g: Globals, ts: seq<Tree>): seq<Sym>
    decreases ts
  {
    if ts == [] then [] else Mentions(g, ts[0]) + MentionsOf(g, ts[1..])
  }

  /** The place is not below an instantiation or a reference. */
  predicate OutsideReferences(t: Tree, q: Path)
    decreases q
  {
    q == [] ||
    (!t.head.MetaInstantiation? && !t.head.DeclRef? && q[0] < |t.kids| && OutsideReferences(t.kids[q[0]], q[1..]))
  }

  /** What the node stands for is the function. */
  predicate StandsFor(g: Globals, t: Tree, s: Sym) {
    (t.head.DeclRef? && t.head.name in g.functions && g.functions[t.head.name] == s) ||
    (t.head.MetaInstantiation? && t in g.instances && g.instances[t] == s)
  }

  predicate MentionedAt(g: Globals, t: Tree, q: Path, s: Sym) {
    OutsideReferences(t, q) && NodeAt(t, q).Some? && StandsFor(g, NodeAt(t, q).value, s)
  }

  /** Mentioned is what some node stands for that is not part of an
      instantiation, and nothing else. */
  lemma {:induction false} MentionsAre(g: Globals, t: Tree, s: Sym)
    ensures s in Mentions(g, t) <==> exists q :: MentionedAt(g, t, q, s)
    decreases t, 0
  {
    if t.head.MetaInstantiation? || t.head.DeclRef? {
      if s in Mentions(g, t) {
        assert MentionedAt(g, t, [], s);
      }
    } else {
      MentionsBelow(g, t.kids, s);
      if s in Mentions(g, t) {
        var i, q :| 0 <= i < |t.kids| && MentionedAt(g, t.kids[i], q, s);
        assert ([i] + q)[1..] == q;
        assert MentionedAt(g, t, [i] + q, s);
      }
      if q :| MentionedAt(g, t, q, s) {
        assert MentionedAt(g, t.kids[q[0]], q[1..], s);
      }
    }
  }

  lemma {:induction false} MentionsBelow(g: Globals, ts: seq<Tree>, s: Sym)
    ensures s in MentionsOf(g, ts) <==> exists i, q :: 0 <= i < |ts| && MentionedAt(g, ts[i], q, s)
    decreases ts
  {
    if ts != [] {
      MentionsAre(g, ts[0], s);
      MentionsBelow(g, ts[1..], s);
      if i, q :| 0 <= i < |ts| && MentionedAt(g, ts[i], q, s) {
        assert i != 0 ==> ts[1..][i - 1] == ts[i];
      }
      if i, q :| 0 <= i < |ts[1..]| && MentionedAt(g, ts[1..][i], q, s) {
        assert ts[i + 1] == ts[1..][i];
      }
    }
  }

  ghost predicate MentionsOnly(ss: seq<Sym>, to: set<Sym>) {
    forall s | s in ss :: s in to
  }

  /** What holds for the mentions of a list holds for those of its members. */
  lemma {:induction false} KidMentions(g: Globals, ts: seq<Tree>, k: nat, to: set<Sym>)
    requires MentionsOnly(MentionsOf(g, ts), to) && k < |ts|
    ensures MentionsOnly(Mentions(g, ts[k]), to)
    decreases ts
  {
    assert forall s | s in Mentions(g, ts[0]) || s in MentionsOf(g, ts[1..]) :: s in MentionsOf(g, ts);
    if k != 0 {
      KidMentions(g, ts[1..], k - 1, to);
    }
  }

  /** Locals are slots, so only mentions put symbols into the code. */
  ghost predicate AllSlots(values: ValueMap) {
    forall x | x in values :: values[x].Slot?
  }

  lemma {:induction false} ExprRefers(g: Globals, values: ValueMap, reg: nat, e: Tree, to: set<Sym>)
    requires AllSlots(values) && MentionsOnly(Mentions(g, e), to)
    ensures var r := GenExpr(g, values, reg, e); Refers(r.code, to) && SymbolOf(r.value) <= to
    decreases e, 0
  {
    hide GenOperator, SymbolsIn, LoadMemory, Refers;
    NothingRefers(to);
    match e.head
    case Binary(op) =>
      if |e.kids| == 2 {
        KidMentions(g, e.kids, 0, to);
        KidMentions(g, e.kids, 1, to);
        var l := GenExpr(g, values, reg, e.kids[0]);
        var r := GenExpr(g, values, l.reg, e.kids[1]);
        ExprRefers(g, values, reg, e.kids[0], to);
        ExprRefers(g, values, l.reg, e.kids[1], to);
        OperatorRefers(op, l, r, to);
      }
    case Call =>
      if e.kids != [] {
        KidMentions(g, e.kids, 0, to);
        assert MentionsOnly(MentionsOf(g, e.kids[1..]), to) by {
          assert forall s | s in MentionsOf(g, e.kids[1..]) :: s in Mentions(g, e);
        }
        var f := GenExpr(g, values, reg, e.kids[0]);
        ExprRefers(g, values, reg, e.kids[0], to);
        ArgsRefer(g, values, f.reg, e.kids[1..], to);
        CallRefers(f, GenArgs(g, values, f.reg, e.kids[1..]), to);
      }
    case _ =>
  }

  lemma NothingRefers(to: set<Sym>)
    ensures Refers([], to)
  {
  }

  lemma CallRefers(f: Emitted, args: EmittedArgs, to: set<Sym>)
    requires Refers(f.code, to) && SymbolOf(f.value) <= to && Refers(args.code, to) && SymbolsOfAll(args.values) <= to
    ensures Refers(f.code + args.code + [CallSym(args.reg, f.value, args.values)], to)
  {
  }

  lemma OperatorRefers(op: BinaryOp, l: Emitted, r: Emitted, to: set<Sym>)
    requires Refers(l.code, to) && SymbolOf(l.value) <= to && Refers(r.code, to) && SymbolOf(r.value) <= to
    ensures var o := GenOperator(op, l, r); Refers(o.code, to) && SymbolOf(o.value) <= to
  {
  }

  lemma {:induction false} ArgsRefer(g: Globals, values: ValueMap, reg: nat, es: seq<Tree>, to: set<Sym>)
    requires AllSlots(values) && MentionsOnly(MentionsOf(g, es), to)
    ensures var r := GenArgs(g, values, reg, es); Refers(r.code, to) && SymbolsOfAll(r.values) <= to
    decreases es
  {
    hide GenExpr, Mentions;
    if es != [] {
      KidMentions(g, es, 0, to);
      assert forall s | s in MentionsOf(g, es[1..]) :: s in MentionsOf(g, es);
      var a := GenExpr(g, values, reg, es[0]);
      var v := LoadMemory(a.value, a.reg);
      var more := GenArgs(g, values, v.reg, es[1..]);
      ExprRefers(g, values, reg, es[0], to);
      ArgsRefer(g, values, v.reg, es[1..], to);
      assert Refers(v.code, to);
      RefersAppend(a.code, v.code, to);
      RefersAppend(a.code + v.code, more.code, to);
      assert ([v.value] + more.values)[1..] == more.values;
    }
  }

  /** A builder whose code refers to known functions only. */
  ghost predicate BuilderRefers(b: Builder, to: set<Sym>) {
    GraphRefers(b.blocks, to) && AllSlots(b.values)
  }

  lemma EmitRefers(b: Builder, code: Code, to: set<Sym>)
    requires BuilderRefers(b, to) && Refers(code, to)
    ensures BuilderRefers(Emit(b, code), to)
  {
    if b.at < |b.blocks| {
      RefersAppend(b.blocks[b.at], code, to);
    }
  }

  lemma {:induction false} StmtRefers(g: Globals, b: Builder, block: nat, s: Tree, to: set<Sym>)
    requires BuilderRefers(b, to) && MentionsOnly(Mentions(g, s), to)
    ensures BuilderRefers(GenStmt(g, b, block, s).0, to)
    decreases s, 1
  {
    hide GenExpr;
    match s.head
    case UnscopedCompound | Compound => StmtsRefer(g, b, block, s.kids, to);
    case Return =>
      if s.kids == [] {
        EmitRefers(b, [RetVoid], to);
      } else {
        KidMentions(g, s.kids, 0, to);
        ExprRefers(g, b.values, b.reg, s.kids[0], to);
        var e := GenExpr(g, b.values, b.reg, s.kids[0]);
        var v := LoadMemory(e.value, e.reg);
        EmitRefers(b.(reg := v.reg), e.code + v.code + [Ret(v.value)], to);
      }
    case ExpressionStmt =>
      if s.kids != [] {
        KidMentions(g, s.kids, 0, to);
        ExprRefers(g, b.values, b.reg, s.kids[0], to);
        var e := GenExpr(g, b.values, b.reg, s.kids[0]);
        EmitRefers(b.(reg := e.reg), e.code, to);
      }
    case DeclStmt(_) =>
      if s.kids != [] {
        KidMentions(g, s.kids, 0, to);
        ExprRefers(g, b.values, b.reg, s.kids[0], to);
        var e := GenExpr(g, b.values, b.reg, s.kids[0]);
        var v := LoadMemory(e.value, e.reg + 1);
        EmitRefers(b.(reg := v.reg), e.code + ([Alloca(e.reg)] + v.code + [Store(v.value, Slot(e.reg))]), to);
      }
    case If => IfRefers(g, b, block, s, to);
    case _ =>
  }

  lemma JoinRefers(r: Builder, end: Option<nat>, cont: Option<nat>, to: set<Sym>)
    requires BuilderRefers(r, to)
    ensures BuilderRefers(Join(r, end, cont).b, to) && BuilderRefers(LazyContinue(r, cont).b, to)
  {
    if end.Some? {
      var j := LazyContinue(r, cont);
      EmitRefers(j.b, [Br(j.cont.value)], to);
    }
  }

  lemma {:induction false} IfRefers(g: Globals, b: Builder, block: nat, s: Tree, to: set<Sym>)
    requires BuilderRefers(b, to) && MentionsOnly(Mentions(g, s), to) && s.head.If?
    ensures BuilderRefers(GenStmt(g, b, block, s).0, to)
    decreases s, 0
  {
    hide Refers, GenExpr, MentionsOnly;
    if |s.kids| >= 2 {
      KidMentions(g, s.kids, 0, to);
      KidMentions(g, s.kids, 1, to);
      var (b1, end1) := GenStmt(g, StartBranch(b), |b.blocks|, s.kids[1]);
      EmptyRefers(b, to);
      StmtRefers(g, StartBranch(b), |b.blocks|, s.kids[1], to);
      JoinRefers(b1, end1, None, to);
      var j := Join(b1, end1, None);
      if |s.kids| > 2 {
        KidMentions(g, s.kids, 2, to);
        var (b2, end2) := GenStmt(g, StartBranch(j.b), |j.b.blocks|, s.kids[2]);
        EmptyRefers(j.b, to);
        StmtRefers(g, StartBranch(j.b), |j.b.blocks|, s.kids[2], to);
        JoinRefers(b2, end2, j.cont, to);
        var j2 := Join(b2, end2, j.cont);
        BranchRefers(g, j2.b, block, s.kids[0], |b.blocks|, |j.b.blocks|, j2.cont, to);
      } else {
        JoinRefers(j.b, None, j.cont, to);
        var j2 := LazyContinue(j.b, j.cont);
        BranchRefers(g, j2.b, block, s.kids[0], |b.blocks|, j2.cont.value, j2.cont, to);
      }
    }
  }

  lemma EmptyRefers(b: Builder, to: set<Sym>)
    requires BuilderRefers(b, to)
    ensures BuilderRefers(StartBranch(b), to)
  {
  }

  lemma BranchRefers(g: Globals, b: Builder, block: nat, cond: Tree, yes: nat, no: nat, cont: Option<nat>, to: set<Sym>)
    requires BuilderRefers(b, to) && MentionsOnly(Mentions(g, cond), to)
    ensures BuilderRefers(Branch(g, b, block, cond, yes, no, cont).0, to)
  {
    var e := GenExpr(g, b.values, b.reg, cond);
    ExprRefers(g, b.values, b.reg, cond, to);
    var test := [IsNotNull(e.reg, e.value), CondBr(Temp(e.reg), yes, no)];
    RefersAppend(e.code, test, to);
    EmitRefers(b.(at := block, reg := e.reg + 1), e.code + test, to);
  }

  lemma {:induction false} StmtsRefer(g: Globals, b: Builder, block: nat, ss: seq<Tree>, to: set<Sym>)
    requires BuilderRefers(b, to) && MentionsOnly(MentionsOf(g, ss), to)
    ensures BuilderRefers(GenStmts(g, b, block, ss).0, to)
    decreases ss
  {
    if ss != [] {
      KidMentions(g, ss, 0, to);
      assert forall s | s in MentionsOf(g, ss[1..]) :: s in MentionsOf(g, ss);
      var r := GenStmt(g, b, block, ss[0]);
      StmtRefers(g, b, block, ss[0], to);
      if r.1.Some? {
        StmtsRefer(g, r.0, r.1.value, ss[1..], to);
      }
    }
  }

  lemma {:induction false} FrameRefers(b: Builder, ps: Params, i: nat, to: set<Sym>)
    requires BuilderRefers(b, to)
    ensures BuilderRefers(SetUpStackFrame(b, ps, i), to)
    decreases ps
  {
    if ps != [] {
      if ps[0].Some? {
        EmitRefers(b.(reg := b.reg + 1), [Alloca(b.reg)] + [Store(Arg(i), Slot(b.reg))], to);
        FrameRefers(AddParam(b, ps[0].value, i), ps[1..], i + 1, to);
      } else {
        FrameRefers(b, ps[1..], i + 1, to);
      }
    }
  }

  /** Generated functions refer to nothing but what their source mentions. */
  lemma FunctionRefers(g: Globals, ps: Params, body: Tree, to: set<Sym>)
    requires MentionsOnly(Mentions(g, body), to)
    ensures GraphRefers(GenFunction(g, ps, body), to)
  {
    var b := SetUpStackFrame(ENTRY, ps, 0);
    FrameRefers(ENTRY, ps, 0, to);
    StmtRefers(g, b, b.at, body, to);
    EmitRefers(GenStmt(g, b, b.at, body).0, [RetVoid], to);
  }

  // Running code depends only on the functions it refers to

  ghost predicate SameCalls(a: Oracle, b: Oracle, to: set<Sym>) {
    forall s, ns | s in to :: a(s, ns) == b(s, ns)
  }

  lemma StepSame(f: Cfg, a: Oracle, b: Oracle, c: Conf, to: set<Sym>)
    requires GraphRefers(f, to) && SameCalls(a, b, to)
    ensures Step(f, a, c) == Step(f, b, c)
  {
    if c.At? && c.block < |f| && c.pos < |f[c.block]| {
      assert SymbolsIn(f[c.block][c.pos]) <= to;
    }
  }

  lemma {:induction false} LeaveSame(f: Cfg, a: Oracle, b: Oracle, c: Conf, to: set<Sym>)
    requires GraphRefers(f, to) && SameCalls(a, b, to)
    ensures Leave(f, a, c) == Leave(f, b, c)
    decreases if c.At? && c.block < |f| && c.pos < |f[c.block]| then |f[c.block]| - c.pos else 0
  {
    if c.At? && c.block < |f| && c.pos < |f[c.block]| {
      StepSame(f, a, b, c, to);
      var next := Step(f, a, c);
      if !IsTerminator(f[c.block][c.pos]) && next.At? {
        LeaveSame(f, a, b, next, to);
      }
    }
  }

  lemma {:induction false} BlockStepsSame(f: Cfg, a: Oracle, b: Oracle, c: Conf, n: nat, to: set<Sym>)
    requires GraphRefers(f, to) && SameCalls(a, b, to)
    ensures BlockSteps(f, a, c, n) == BlockSteps(f, b, c, n)
    decreases n
  {
    if n != 0 {
      LeaveSame(f, a, b, c, to);
      BlockStepsSame(f, a, b, Leave(f, a, c), n - 1, to);
    }
  }
}
