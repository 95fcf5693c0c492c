/** The blocks generated for statements (codegenStmt and codegenIfStructure in
    src/Codegen/FunctionCodegen.cpp). */
module StmtCodegen {
  import opened Wrappers
  import opened Ast
  import opened Machine
  import opened Semantics
  import opened ExprCodegen
  import opened Graph

  /** The state of a code generator: the blocks so far, the block instructions
      are appended to, the next unused register and the values in scope. */
  datatype Builder = Builder(blocks: Cfg, at: nat, reg: nat, values: ValueMap)

  function Emit(b: Builder, code: Code): Builder {
    if b.at < |b.blocks| then b.(blocks := b.blocks[b.at := b.blocks[b.at] + code]) else b
  }

  /** Creates an empty block without moving the insertion point. */
  function CreateBlock(b: Builder): Builder {
    b.(blocks := b.blocks + [[]])
  }

  /** Creates the block of a branch and starts inserting into it. */
  function StartBranch(b: Builder): Builder {
    CreateBlock(b).(at := |b.blocks|)
  }

  datatype Joined = Joined(b: Builder, cont: Option<nat>)

  /** The continue block, created on first use. */
  function LazyContinue(b: Builder, cont: Option<nat>): Joined {
    if cont.Some? then Joined(b, cont) else Joined(CreateBlock(b), Some(|b.blocks|))
  }

  /** Ends a branch: when it can be left, it jumps to the continue block. */
  function Join(b: Builder, end: Option<nat>, cont: Option<nat>): Joined {
    if end.None? then Joined(b, cont)
    else
      var j := LazyContinue(b, cont);
      Joined(Emit(j.b, [Br(j.cont.value)]), j.cont)
  }

  /** Generates the condition into `block`, after the code of both branches,
      and moves on to the continue block if there is one.  The condition is
      tested without being loaded. */
  function Branch(g: Globals, b: Builder, block: nat, cond: Tree, yes: nat, no: nat, cont: Option<nat>)
    : (Builder, Option<nat>)
  {
    var c := GenExpr(g, b.values, b.reg, cond);
    var test := [IsNotNull(c.reg, c.value), CondBr(Temp(c.reg), yes, no)];
    var b1 := Emit(b.(at := block, reg := c.reg + 1), c.code + test);
    (if cont.Some? then b1.(at := cont.value) else b1, cont)
  }

  /** Generates a statement into `block`; the result is the block to continue
      in, or `None` when the statement always returns. */
  function GenStmt(g: Globals, b: Builder, block: nat, s: Tree): (Builder, Option<nat>)
    decreases s, 0
  {
    match s.head
    case UnscopedCompound => GenStmts(g, b, block, s.kids)
    case Compound =>
      var r := GenStmts(g, b, block, s.kids);
      (r.0.(values := b.values), r.1)
    case Return =>
      if s.kids == [] then (Emit(b, [RetVoid]), None)
      else
        var e := GenExpr(g, b.values, b.reg, s.kids[0]);
        var v := LoadMemory(e.value, e.reg);
        (Emit(b.(reg := v.reg), e.code + v.code + [Ret(v.value)]), None)
    case ExpressionStmt =>
      if s.kids == [] then (b, Some(block))
      else
        var e := GenExpr(g, b.values, b.reg, s.kids[0]);
        (Emit(b.(reg := e.reg), e.code), Some(block))
    case DeclStmt(x) =>
      if s.kids == [] then (b, Some(block))
      else
        var e := GenExpr(g, b.values, b.reg, s.kids[0]);
        var v := LoadMemory(e.value, e.reg + 1);
        var code := e.code + ([Alloca(e.reg)] + v.code + [Store(v.value, Slot(e.reg))]);
        (Emit(b.(reg := v.reg), code).(values := b.values[x := Slot(e.reg)]), Some(block))
    case If =>
      if |s.kids| < 2 then (b, Some(block))
      else
        var yes := |b.blocks|;
        var (b1, end1) := GenStmt(g, StartBranch(b), yes, s.kids[1]);
        var j1 := Join(b1, end1, None);
        if |s.kids| > 2 then
          var no := |j1.b.blocks|;
          var (b2, end2) := GenStmt(g, StartBranch(j1.b), no, s.kids[2]);
          var j2 := Join(b2, end2, j1.cont);
          Branch(g, j2.b, block, s.kids[0], yes, no, j2.cont)
        else
          var j2 := LazyContinue(j1.b, j1.cont);
          Branch(g, j2.b, block, s.kids[0], yes, j2.cont.value, j2.cont)
    case _ => (b, Some(block))
  }

  function GenStmts(g: Globals, b: Builder, block: nat, ss: seq<Tree>): (Builder, Option<nat>)
    decreases ss
  {
    if ss == [] then (b, Some(block))
    else
      var r := GenStmt(g, b, block, ss[0]);
      if r.1.None? then r else GenStmts(g, r.0, r.1.value, ss[1..])
  }

  /** A builder that can be appended to: its insertion point is an unterminated block. */
  ghost predicate Ready(b: Builder) {
    b.at < |b.blocks| && Open(b.blocks[b.at])
  }

  /** What generating something at the insertion point may do to a builder:
      only the block it started in and new blocks change, new jumps lead to
      new blocks only, and the builder is left in the one block that is not
      terminated, if there is any. */
  ghost predicate Region(b: Builder, r: Builder, end: Option<nat>) {
    Ready(b) && |b.blocks| <= |r.blocks| && b.reg <= r.reg && r.at < |r.blocks| &&
    (forall i | 0 <= i < |b.blocks| && i != b.at :: r.blocks[i] == b.blocks[i]) &&
    b.blocks[b.at] <= r.blocks[b.at] &&
    (forall i: nat | IsPart(b, r, i) && end != Some(i) :: Terminated(r.blocks[i])) &&
    (forall i: nat | IsPart(b, r, i) :: JumpsWithin(r.blocks[i], |b.blocks|, |r.blocks|)) &&
    (end.Some? ==> r.at == end.value && IsPart(b, r, end.value) && Open(r.blocks[end.value]))
  }

  predicate IsPart(b: Builder, r: Builder, i: nat) {
    i < |r.blocks| && (i == b.at || |b.blocks| <= i)
  }

  lemma RegionStarts(b: Builder)
    requires Ready(b)
    ensures Region(b, b, Some(b.at))
  {
    OpenHasNoSuccs(b.blocks[b.at]);
  }

  lemma RegionValues(b: Builder, r: Builder, end: Option<nat>, values: ValueMap)
    requires Region(b, r, end)
    ensures Region(b, r.(values := values), end)
  {
  }

  lemma RegionTwice(b: Builder, m: Builder, r: Builder, end: Option<nat>)
    requires Region(b, m, Some(m.at)) && Region(m, r, end)
    ensures Region(b, r, end)
  {
    forall i: nat | IsPart(b, r, i)
      ensures JumpsWithin(r.blocks[i], |b.blocks|, |r.blocks|)
      ensures end != Some(i) ==> Terminated(r.blocks[i])
    {
      if i < |m.blocks| && i != m.at {
        assert IsPart(b, m, i);
        assert r.blocks[i] == m.blocks[i];
      } else {
        assert IsPart(m, r, i);
      }
    }
    forall i | 0 <= i < |b.blocks| && i != b.at
      ensures r.blocks[i] == b.blocks[i]
    {
      assert !IsPart(b, m, i) && i != m.at;
      assert m.blocks[i] == b.blocks[i];
      assert r.blocks[i] == m.blocks[i];
    }
    assert b.blocks[b.at] <= r.blocks[b.at] by {
      if b.at == m.at {
        assert b.blocks[b.at] <= m.blocks[b.at] <= r.blocks[b.at];
      } else {
        assert r.blocks[b.at] == m.blocks[b.at];
      }
    }
  }

  /** Straight-line code keeps the block open. */
  lemma RegionEmitOpen(b: Builder, code: Code, reg: nat, values: ValueMap)
    requires Ready(b) && Open(code) && b.reg <= reg
    ensures Region(b, Emit(b.(reg := reg), code).(values := values), Some(b.at))
  {
    var r := Emit(b.(reg := reg), code).(values := values);
    assert Open(r.blocks[b.at]);
    OpenHasNoSuccs(r.blocks[b.at]);
  }

  /** A terminator ends it. */
  lemma RegionEmitLast(b: Builder, code: Code, last: Instr, reg: nat)
    requires Ready(b) && Open(code) && b.reg <= reg && IsTerminator(last) && Targets(last) == {}
    ensures Region(b, Emit(b.(reg := reg), code + [last]), None)
  {
    var r := Emit(b.(reg := reg), code + [last]);
    var old0 := b.blocks[b.at];
    assert r.blocks[b.at] == (old0 + code) + [last];
    assert r.blocks[b.at][..|r.blocks[b.at]| - 1] == old0 + code;
    OpenHasNoSuccs(old0 + code);
  }

  lemma {:induction false} WithinIsOpen(code: Code, low: nat, high: nat)
    requires Within(code, low, high)
    ensures Open(code)
  {
    forall i | 0 <= i < |code|
      ensures !IsTerminator(code[i])
    {
      assert WritesWithin(code[i], low, high);
    }
  }

  /** An `if` under construction: `c` holds the finished branches, the block of
      the condition is still untouched, and the continue block, if it exists,
      is still empty. */
  ghost predicate Pending(b: Builder, c: Builder, cont: Option<nat>) {
    Ready(b) && |b.blocks| <= |c.blocks| && b.reg <= c.reg &&
    (forall i | 0 <= i < |b.blocks| :: c.blocks[i] == b.blocks[i]) &&
    (forall i | |b.blocks| <= i < |c.blocks| :: cont == Some(i) || Terminated(c.blocks[i])) &&
    (forall i | |b.blocks| <= i < |c.blocks| :: JumpsWithin(c.blocks[i], |b.blocks|, |c.blocks|)) &&
    (cont.Some? ==> |b.blocks| <= cont.value < |c.blocks| && c.blocks[cont.value] == [])
  }

  lemma PendingStarts(b: Builder)
    requires Ready(b)
    ensures Pending(b, b, None)
  {
  }

  lemma PendingContinue(b: Builder, c: Builder, cont: Option<nat>)
    requires Pending(b, c, cont)
    ensures var j := LazyContinue(c, cont); Pending(b, j.b, j.cont)
  {
    var j := LazyContinue(c, cont);
    forall i | |b.blocks| <= i < |j.b.blocks|
      ensures JumpsWithin(j.b.blocks[i], |b.blocks|, |j.b.blocks|)
    {
      if i < |c.blocks| {
        assert JumpsWithin(c.blocks[i], |b.blocks|, |c.blocks|);
      }
    }
  }

  lemma PendingBranch(b: Builder, c: Builder, cont: Option<nat>, r: Builder, end: Option<nat>)
    requires Pending(b, c, cont) && Region(StartBranch(c), r, end)
    ensures var j := Join(r, end, cont); Pending(b, j.b, j.cont) && |c.blocks| < |j.b.blocks|
  {
    var start := StartBranch(c);
    var j := Join(r, end, cont);
    forall i | 0 <= i < |c.blocks|
      ensures r.blocks[i] == c.blocks[i]
    {
      assert start.blocks[i] == c.blocks[i];
    }
    if end.Some? {
      var l := LazyContinue(r, cont);
      var e := end.value;
      assert IsPart(start, r, e);
      assert l.cont.value != e;
      var was := l.b.blocks[e];
      assert j.b.blocks[e] == was + [Br(l.cont.value)];
      assert j.b.blocks[e][..|j.b.blocks[e]| - 1] == was;
      OpenHasNoSuccs(was);
      SuccsAppend(was, [Br(l.cont.value)]);
      assert Succs([Br(l.cont.value)]) == {l.cont.value};
    }
    forall i | |b.blocks| <= i < |j.b.blocks|
      ensures JumpsWithin(j.b.blocks[i], |b.blocks|, |j.b.blocks|)
      ensures j.cont == Some(i) || Terminated(j.b.blocks[i])
    {
      if i < |c.blocks| {
        assert j.b.blocks[i] == c.blocks[i];
        assert JumpsWithin(c.blocks[i], |b.blocks|, |c.blocks|);
      } else if i < |r.blocks| {
        assert IsPart(start, r, i);
        if end != Some(i) {
          assert j.b.blocks[i] == r.blocks[i];
          assert JumpsWithin(r.blocks[i], |start.blocks|, |r.blocks|);
        }
      }
    }
  }

  lemma RegionBranch(g: Globals, b: Builder, c: Builder, cond: Tree, yes: nat, no: nat, cont: Option<nat>)
    requires Pending(b, c, cont)
    requires |b.blocks| <= yes < |c.blocks| && |b.blocks| <= no < |c.blocks|
    ensures var r := Branch(g, c, b.at, cond, yes, no, cont); Region(b, r.0, r.1)
    ensures var r := Branch(g, c, b.at, cond, yes, no, cont);
            Succs(r.0.blocks[b.at]) == {yes, no} && |r.0.blocks| == |c.blocks| &&
            forall i | 0 <= i < |c.blocks| && i != b.at :: r.0.blocks[i] == c.blocks[i]
  {
    var e := GenExpr(g, c.values, c.reg, cond);
    var r := Branch(g, c, b.at, cond, yes, no, cont).0;
    ExprWithin(g, c.values, c.reg, cond);
    WithinIsOpen(e.code, c.reg, e.reg);
    var last := CondBr(Temp(e.reg), yes, no);
    var body := b.blocks[b.at] + e.code + [IsNotNull(e.reg, e.value)];
    assert r.blocks[b.at] == body + [last];
    assert r.blocks[b.at][..|body|] == body;
    OpenHasNoSuccs(body);
    SuccsAppend(body, [last]);
    assert Succs([last]) == {yes, no};
    forall i: nat | IsPart(b, r, i)
      ensures JumpsWithin(r.blocks[i], |b.blocks|, |r.blocks|)
    {
      if i != b.at {
        assert r.blocks[i] == c.blocks[i];
      }
    }
    forall i: nat | IsPart(b, r, i) && cont != Some(i)
      ensures Terminated(r.blocks[i])
    {
      if i != b.at {
        assert r.blocks[i] == c.blocks[i];
      }
    }
  }

  /** `codegenStmt` leaves the builder in the current unterminated block; every
      other block it created or was in ends in its only terminator; and it
      reports the end of control flow exactly when every path of the statement
      returns. */
  lemma {:induction false} StmtRegion(g: Globals, known: set<Name>, b: Builder, s: Tree)
    requires Ready(b) && ClosedStmt(g, known, s)
    ensures var r := GenStmt(g, b, b.at, s); Region(b, r.0, r.1) && (r.1.None? <==> Terminates(s))
    decreases s, 1
  {
    hide Region, GenExpr, Within;
    match s.head
    case UnscopedCompound => StmtsRegion(g, known, b, s.kids);
    case Compound =>
      StmtsRegion(g, known, b, s.kids);
      var r := GenStmts(g, b, b.at, s.kids);
      RegionValues(b, r.0, r.1, b.values);
    case Return =>
      if s.kids == [] {
        RegionEmitLast(b, [], RetVoid, b.reg);
        assert [] + [RetVoid] == [RetVoid];
      } else {
        var e := GenExpr(g, b.values, b.reg, s.kids[0]);
        var v := LoadMemory(e.value, e.reg);
        ExprWithin(g, b.values, b.reg, s.kids[0]);
        WithinIsOpen(e.code, b.reg, e.reg);
        RegionEmitLast(b, e.code + v.code, Ret(v.value), v.reg);
      }
    case ExpressionStmt =>
      var e := GenExpr(g, b.values, b.reg, s.kids[0]);
      ExprWithin(g, b.values, b.reg, s.kids[0]);
      WithinIsOpen(e.code, b.reg, e.reg);
      RegionEmitOpen(b, e.code, e.reg, b.values);
    case DeclStmt(x) =>
      var e := GenExpr(g, b.values, b.reg, s.kids[0]);
      var v := LoadMemory(e.value, e.reg + 1);
      ExprWithin(g, b.values, b.reg, s.kids[0]);
      WithinIsOpen(e.code, b.reg, e.reg);
      RegionEmitOpen(b, e.code + ([Alloca(e.reg)] + v.code + [Store(v.value, Slot(e.reg))]), v.reg,
                     b.values[x := Slot(e.reg)]);
    case If => IfRegion(g, known, b, s);
  }

  lemma {:induction false} IfRegion(g: Globals, known: set<Name>, b: Builder, s: Tree)
    requires Ready(b) && ClosedStmt(g, known, s) && s.head.If?
    ensures var r := GenStmt(g, b, b.at, s); Region(b, r.0, r.1) && (r.1.None? <==> Terminates(s))
    decreases s, 0
  {
    hide Region, Pending, GenExpr;
    var yes := |b.blocks|;
    var (b1, end1) := GenStmt(g, StartBranch(b), yes, s.kids[1]);
    var j1 := Join(b1, end1, None);
    StmtRegion(g, known, StartBranch(b), s.kids[1]);
    PendingStarts(b);
    PendingBranch(b, b, None, b1, end1);
    if |s.kids| > 2 {
      var no := |j1.b.blocks|;
      var (b2, end2) := GenStmt(g, StartBranch(j1.b), no, s.kids[2]);
      var j2 := Join(b2, end2, j1.cont);
      StmtRegion(g, known + Declares(s.kids[1]), StartBranch(j1.b), s.kids[2]);
      PendingBranch(b, j1.b, j1.cont, b2, end2);
      RegionBranch(g, b, j2.b, s.kids[0], yes, no, j2.cont);
    } else {
      var j2 := LazyContinue(j1.b, j1.cont);
      PendingContinue(b, j1.b, j1.cont);
      RegionBranch(g, b, j2.b, s.kids[0], yes, j2.cont.value, j2.cont);
    }
  }

  lemma {:induction false} StmtsRegion(g: Globals, known: set<Name>, b: Builder, ss: seq<Tree>)
    requires Ready(b) && ClosedStmts(g, known, ss)
    ensures var r := GenStmts(g, b, b.at, ss); Region(b, r.0, r.1) && (r.1.None? <==> TerminatesAny(ss))
    decreases ss
  {
    if ss == [] {
      RegionStarts(b);
    } else {
      var r := GenStmt(g, b, b.at, ss[0]);
      StmtRegion(g, known, b, ss[0]);
      if r.1.Some? {
        StmtsRegion(g, known + Declares(ss[0]), r.0, ss[1..]);
        var q := GenStmts(g, r.0, r.0.at, ss[1..]);
        RegionTwice(b, r.0, q.0, q.1);
      }
    }
  }
}
