/** The blocks generated for a statement do what the statement means. */
module Simulation {
  import opened Wrappers
  import opened Ast
  import opened Machine
  import opened Semantics
  import opened ExprCodegen
  import opened Graph
  import opened StmtCodegen

  /** The declared names have slots of their own, allocated before register `reg`. */
  ghost predicate Scoped(known: set<Name>, values: ValueMap, reg: nat) {
    Separate(known, values) && forall x | x in known :: values[x].id < reg
  }

  ghost predicate SameOn(known: set<Name>, a: ValueMap, b: ValueMap) {
    forall x | x in known :: x in a && x in b && a[x] == b[x]
  }

  lemma ScopedOn(known: set<Name>, a: ValueMap, b: ValueMap, low: nat, high: nat)
    requires Scoped(known, a, low) && SameOn(known, a, b) && low <= high
    ensures Scoped(known, b, high)
  {
  }

  lemma AgreeOn(known: set<Name>, a: ValueMap, b: ValueMap, env: Env, st: State)
    requires Agree(known, a, env, st) && SameOn(known, a, b)
    ensures Agree(known, b, env, st)
  {
  }

  /** Every slot was allocated before register `reg`. */
  ghost predicate Fresh(st: State, reg: nat) {
    forall s | s in st.slots :: s < reg
  }

  /** From one state to another only slots of a range were allocated, and none
      was given up. */
  ghost predicate Allocates(a: State, b: State, low: nat, high: nat) {
    a.slots.Keys <= b.slots.Keys && forall s | s in b.slots && s !in a.slots :: low <= s < high
  }

  lemma AllocatesTwice(a: State, b: State, c: State, low: nat, mid: nat, high: nat)
    requires Allocates(a, b, low, mid) && Allocates(b, c, mid, high) && low <= mid <= high
    ensures Allocates(a, c, low, high)
  {
  }

  lemma FreshAfter(a: State, b: State, low: nat, high: nat)
    requires Fresh(a, low) && Allocates(a, b, low, high) && low <= high
    ensures Fresh(b, high)
  {
  }

  /** What generating code may do to the scope of the builder: the names in
      scope keep their slots, and the ones that may have been declared have
      new slots. */
  ghost predicate KeepsScope(known: set<Name>, more: set<Name>, b: Builder, r: Builder) {
    SameOn(known, b.values, r.values) && Scoped(more, r.values, r.reg) && b.reg <= r.reg && known <= more &&
    forall x | x in more && x !in known :: b.reg <= r.values[x].id
  }

  lemma KeepsTwice(known: set<Name>, more: set<Name>, most: set<Name>, a: Builder, b: Builder, c: Builder)
    requires KeepsScope(known, more, a, b) && KeepsScope(more, most, b, c)
    ensures KeepsScope(known, most, a, c)
  {
  }

  lemma KeepsNothing(known: set<Name>, b: Builder, r: Builder)
    requires Scoped(known, b.values, b.reg) && SameOn(known, b.values, r.values) && b.reg <= r.reg
    ensures KeepsScope(known, known, b, r)
  {
    ScopedOn(known, b.values, r.values, b.reg, r.reg);
  }

  /** Names whose declarations were not executed agree, too: they are not
      declared, and their slots are not allocated. */
  lemma AgreeWider(known: set<Name>, more: set<Name>, b: Builder, r: Builder, env: Env, st: State)
    requires KeepsScope(known, more, b, r) && Agree(known, b.values, env, st) && Fresh(st, b.reg)
    ensures Agree(more, r.values, env, st)
  {
    forall x | x in more
      ensures if x in env then r.values[x].id in st.slots && st.slots[r.values[x].id] == Some(env[x])
              else r.values[x].id !in st.slots
    {
      if x in known {
        assert b.values[x] == r.values[x];
      }
    }
  }

  /** At the end of a scope the names outside it agree. */
  lemma AgreeKept(known: set<Name>, more: set<Name>, b: Builder, r: Builder, env: Env, inner: Env, st: State,
                  last: State)
    requires KeepsScope(known, more, b, r) && Scoped(known, b.values, b.reg) && Agree(known, b.values, env, st)
    requires Agree(more, r.values, inner, last) && Allocates(st, last, b.reg, r.reg)
    ensures Agree(known, b.values, Kept(env, inner), last) && Agree(known, r.values, Kept(env, inner), last)
  {
    var kept := Kept(env, inner);
    forall x | x in known
      ensures if x in kept then b.values[x].id in last.slots && last.slots[b.values[x].id] == Some(kept[x])
              else b.values[x].id !in last.slots
    {
      assert b.values[x] == r.values[x] && b.values[x].id < b.reg;
    }
    AgreeOn(known, b.values, r.values, kept, last);
  }

  /** Generating a statement keeps the slots of the names in scope and gives
      every name it may declare a new one. */
  lemma {:induction false} StmtScopes(g: Globals, known: set<Name>, b: Builder, s: Tree)
    requires Ready(b) && ClosedStmt(g, known, s) && Scoped(known, b.values, b.reg)
    ensures KeepsScope(known, known + Declares(s), b, GenStmt(g, b, b.at, s).0)
    decreases s, 1
  {
    hide GenExpr;
    StmtRegion(g, known, b, s);
    var r := GenStmt(g, b, b.at, s).0;
    match s.head
    case UnscopedCompound => StmtsScope(g, known, b, s.kids);
    case Compound =>
      KeepsNothing(known, b, r);
      assert known + Declares(s) == known;
    case If => IfScopes(g, known, b, s);
    case DeclStmt(x) =>
      var e := GenExpr(g, b.values, b.reg, s.kids[0]);
      ExprWithin(g, b.values, b.reg, s.kids[0]);
      assert r.values == b.values[x := Slot(e.reg)];
    case Return | ExpressionStmt =>
      KeepsNothing(known, b, r);
      assert known + Declares(s) == known;
  }

  /** The shape of what is generated for an `if`. */
  lemma GenIf(g: Globals, b: Builder, s: Tree)
    requires s.head.If? && |s.kids| >= 2
    ensures var (j, no) := IfBranches(g, b, s);
            GenStmt(g, b, b.at, s) == Branch(g, j.b, b.at, s.kids[0], |b.blocks|, no, j.cont)
  {
  }

  /** The names in scope once the branches of an `if` are generated. */
  function IfKnown(known: set<Name>, s: Tree): set<Name>
    requires |s.kids| >= 2
  {
    if |s.kids| > 2 then known + Declares(s.kids[1]) + Declares(s.kids[2]) else known + Declares(s.kids[1])
  }

  lemma IfDeclares(known: set<Name>, s: Tree)
    requires s.head.If? && |s.kids| >= 2
    ensures IfKnown(known, s) == known + Declares(s)
  {
  }

  lemma {:induction false} IfScopes(g: Globals, known: set<Name>, b: Builder, s: Tree)
    requires Ready(b) && ClosedStmt(g, known, s) && Scoped(known, b.values, b.reg) && s.head.If?
    ensures KeepsScope(known, known + Declares(s), b, GenStmt(g, b, b.at, s).0)
    decreases s, 0
  {
    hide Scoped, GenExpr, GenStmt, KeepsScope;
    GenIf(g, b, s);
    IfDeclares(known, s);
    var j1 := AddBranch(g, b, None, s.kids[1]);
    var more := known + Declares(s.kids[1]);
    BranchScopes(g, known, b, None, s.kids[1]);
    KeepsScoped(known, more, b, j1.b);
    if |s.kids| > 2 {
      BranchScopes(g, more, j1.b, j1.cont, s.kids[2]);
      KeepsTwice(known, more, IfKnown(known, s), b, j1.b, AddBranch(g, j1.b, j1.cont, s.kids[2]).b);
    }
    var (j, no) := IfBranches(g, b, s);
    LazyScope(known, more, b, j1.b, j1.cont);
    BranchScope(g, known, IfKnown(known, s), b, j.b, b.at, s.kids[0], |b.blocks|, no, j.cont);
  }

  lemma KeepsScoped(known: set<Name>, more: set<Name>, b: Builder, r: Builder)
    requires KeepsScope(known, more, b, r)
    ensures Scoped(more, r.values, r.reg) && SameOn(known, b.values, r.values) && b.reg <= r.reg && known <= more
  {
  }

  /** The continue block changes no scope. */
  lemma LazyScope(known: set<Name>, more: set<Name>, b: Builder, c: Builder, cont: Option<nat>)
    requires KeepsScope(known, more, b, c)
    ensures KeepsScope(known, more, b, LazyContinue(c, cont).b)
  {
  }

  lemma LazyKeeps(known: set<Name>, c: Builder, cont: Option<nat>)
    requires Scoped(known, c.values, c.reg)
    ensures var l := LazyContinue(c, cont).b; KeepsScope(known, known, c, l) && Grows(c.blocks, l.blocks)
  {
  }

  lemma BranchScope(g: Globals, known: set<Name>, more: set<Name>, b: Builder, c: Builder, block: nat, cond: Tree,
                    yes: nat, no: nat, cont: Option<nat>)
    requires KeepsScope(known, more, b, c)
    ensures var r := Branch(g, c, block, cond, yes, no, cont).0;
            r.values == c.values && c.reg <= r.reg && KeepsScope(known, more, b, r)
  {
    ExprWithin(g, c.values, c.reg, cond);
  }

  lemma {:induction false} BranchScopes(g: Globals, known: set<Name>, c: Builder, cont: Option<nat>, s: Tree)
    requires ClosedStmt(g, known, s) && Scoped(known, c.values, c.reg)
    ensures KeepsScope(known, known + Declares(s), c, AddBranch(g, c, cont, s).b)
    decreases s, 2
  {
    StmtScopes(g, known, StartBranch(c), s);
  }

  /** The builder and the continue block after one more branch of an `if`. */
  function AddBranch(g: Globals, c: Builder, cont: Option<nat>, s: Tree): Joined {
    var r := GenStmt(g, StartBranch(c), |c.blocks|, s);
    Join(r.0, r.1, cont)
  }

  lemma {:induction false} StmtsScope(g: Globals, known: set<Name>, b: Builder, ss: seq<Tree>)
    requires Ready(b) && ClosedStmts(g, known, ss) && Scoped(known, b.values, b.reg)
    ensures KeepsScope(known, known + DeclaresAll(ss), b, GenStmts(g, b, b.at, ss).0)
    decreases ss
  {
    if ss != [] {
      var r := GenStmt(g, b, b.at, ss[0]);
      var more := known + Declares(ss[0]);
      StmtRegion(g, known, b, ss[0]);
      StmtScopes(g, known, b, ss[0]);
      assert more + DeclaresAll(ss[1..]) == known + DeclaresAll(ss);
      if r.1.Some? {
        StmtsScope(g, more, r.0, ss[1..]);
        KeepsTwice(known, more, known + DeclaresAll(ss), b, r.0, GenStmts(g, r.0, r.0.at, ss[1..]).0);
      } else {
        assert DeclaresAll(ss[1..]) == {};
      }
    } else {
      assert known + DeclaresAll(ss) == known;
    }
  }

  lemma RegionGrows(b: Builder, r: Builder, end: Option<nat>)
    requires Region(b, r, end)
    ensures Grows(b.blocks, r.blocks)
  {
    forall i | 0 <= i < |b.blocks|
      ensures b.blocks[i] <= r.blocks[i]
    {
      if i != b.at {
        assert r.blocks[i] == b.blocks[i];
      }
    }
  }

  lemma JoinGrows(r: Builder, end: Option<nat>, cont: Option<nat>)
    ensures Grows(r.blocks, Join(r, end, cont).b.blocks)
  {
  }

  /** Code appended to the current block runs when the current point is reached. */
  lemma EmittedRuns(f: Cfg, call: Oracle, at: nat, base: Code, code: Code, st: State)
    requires at < |f| && base + code <= f[at] && Open(code)
    ensures StepN(f, call, At(at, |base|, st), |code|) ==
            match ExecuteAll(code, st, call)
            case None => Stuck
            case Some(end) => At(at, |base| + |code|, end)
  {
    assert f[at][|base|..|base| + |code|] == code by {
      assert (base + code)[|base|..] == code;
      assert f[at][..|base + code|] == base + code;
    }
    RunStraight(f, call, at, |base|, code, st);
  }

  /** Running on from a point the machine has reached. */
  lemma Onwards(f: Cfg, call: Oracle, c: Conf, m: nat, d: Conf, n: nat)
    requires StepN(f, call, c, m) == d
    ensures StepN(f, call, c, m + n) == StepN(f, call, d, n)
  {
    StepAdd(f, call, c, m, n);
  }

  /** Where a builder appends next. */
  function Here(b: Builder, st: State): Conf
    requires b.at < |b.blocks|
  {
    At(b.at, |b.blocks[b.at]|, st)
  }

  /** The builder and the machine stand at the same point of the source: the
      names in scope agree, and every slot was allocated by the code before. */
  ghost predicate Sits(known: set<Name>, b: Builder, env: Env, st: State) {
    Scoped(known, b.values, b.reg) && Agree(known, b.values, env, st) && Fresh(st, b.reg)
  }

  lemma SitsScoped(known: set<Name>, b: Builder, env: Env, st: State)
    requires Sits(known, b, env, st)
    ensures Scoped(known, b.values, b.reg) && Agree(known, b.values, env, st)
  {
  }

  /** What stands at the builder before code that was skipped stands there
      after it. */
  lemma SitsWider(known: set<Name>, more: set<Name>, b: Builder, r: Builder, env: Env, st: State)
    requires KeepsScope(known, more, b, r) && Sits(known, b, env, st)
    ensures Sits(more, r, env, st) && b.reg <= r.reg
  {
    AgreeWider(known, more, b, r, env, st);
  }

  /** From one state to another only slots of a range were allocated, and
      nothing was written. */
  ghost predicate Moves(a: State, b: State, low: nat, high: nat) {
    Allocates(a, b, low, high) && b.out == a.out && b.args == a.args
  }

  /** Where the run of code generated from register `low` on has to arrive for
      an outcome of the source. */
  ghost predicate Arrives(known: set<Name>, r: Builder, end: Option<nat>, outcome: Outcome,
                          low: nat, st: State, reached: Conf, last: State)
  {
    match outcome
    case Normal(env) =>
      end.Some? && r.at < |r.blocks| && reached == Here(r, last) && Agree(known, r.values, env, last) &&
      Moves(st, last, low, r.reg)
    case Returned(v) => reached == Finished(v, st.out)
    case Wrong => reached == Stuck
  }

  /** The condition of an `if`, generated after its branches, runs before them
      and enters the right one. */
  lemma ConditionRuns(g: Globals, call: Oracle, known: set<Name>, b: Builder, c: Builder, cond: Tree,
                      yes: nat, no: nat, cont: Option<nat>, env: Env, st: State, f: Cfg)
    returns (n: nat, last: State)
    requires Pending(b, c, cont) && SameOn(known, b.values, c.values)
    requires |b.blocks| <= yes < |c.blocks| && |b.blocks| <= no < |c.blocks|
    requires ClosedExpr(g, known, cond) && Agree(known, b.values, env, st)
    requires Grows(Branch(g, c, b.at, cond, yes, no, cont).0.blocks, f)
    ensures var p := Eval(g, call, cond, env);
            var reached := StepN(f, call, Here(b, st), n);
            if p.Some? && Truth(p.value.0).Some? then
              reached == At(if Truth(p.value.0).value then yes else no, 0, last) &&
              Agree(known, b.values, p.value.1, last) && Moves(st, last, b.reg, b.reg)
            else reached == Stuck
  {
    var e := GenExpr(g, c.values, c.reg, cond);
    var code := e.code + [IsNotNull(e.reg, e.value)];
    var jump := CondBr(Temp(e.reg), yes, no);
    var base := b.blocks[b.at];
    BranchCode(g, b, c, cond, yes, no, cont);
    assert base + code + [jump] <= f[b.at];
    ExprWithin(g, c.values, c.reg, cond);
    WithinIsOpen(e.code, c.reg, e.reg);
    EmittedRuns(f, call, b.at, base, code, st);
    AgreeOn(known, b.values, c.values, env, st);
    TestComputes(g, call, known, c.values, c.reg, cond, env, st);
    n := |code| + 1;
    last := st;
    var mid := StepN(f, call, Here(b, st), |code|);
    OneMore(f, call, Here(b, st), |code|);
    var p := Eval(g, call, cond, env);
    if p.Some? && Truth(p.value.0).Some? {
      last := ExecuteAll(code, st, call).value;
      assert f[b.at][|base + code|] == jump;
      assert mid == At(b.at, |base + code|, last);
      AgreeOn(known, c.values, b.values, p.value.1, last);
    }
  }

  lemma OneMore(f: Cfg, call: Oracle, c: Conf, n: nat)
    ensures StepN(f, call, c, n + 1) == Step(f, call, StepN(f, call, c, n))
  {
    StepAdd(f, call, c, n, 1);
    var mid := StepN(f, call, c, n);
    assert StepN(f, call, mid, 1) == StepN(f, call, Step(f, call, mid), 0);
  }

  lemma BranchCode(g: Globals, b: Builder, c: Builder, cond: Tree, yes: nat, no: nat, cont: Option<nat>)
    requires b.at < |b.blocks| <= |c.blocks| && c.blocks[b.at] == b.blocks[b.at]
    ensures var e := GenExpr(g, c.values, c.reg, cond);
            var r := Branch(g, c, b.at, cond, yes, no, cont).0;
            |r.blocks| == |c.blocks| &&
            r.blocks[b.at] == b.blocks[b.at] + (e.code + [IsNotNull(e.reg, e.value)]) + [CondBr(Temp(e.reg), yes, no)]
  {
  }

  /** The test of a condition: addresses are never null. */
  lemma TestComputes(g: Globals, call: Oracle, known: set<Name>, values: ValueMap, reg: nat, cond: Tree,
                     env: Env, st: State)
    requires ClosedExpr(g, known, cond) && Agree(known, values, env, st)
    ensures var e := GenExpr(g, values, reg, cond);
            var run := ExecuteAll(e.code + [IsNotNull(e.reg, e.value)], st, call);
            var p := Eval(g, call, cond, env);
            if p.Some? && Truth(p.value.0).Some? then
              run.Some? && Agree(known, values, p.value.1, run.value) &&
              Moves(st, run.value, reg, reg) &&
              ReadValue(run.value, Temp(e.reg)) == Some(Bit(Truth(p.value.0).value))
            else run.None?
  {
    var e := GenExpr(g, values, reg, cond);
    var test := IsNotNull(e.reg, e.value);
    ExecuteAppend(e.code, [test], st, call);
    ExprComputes(g, call, known, values, reg, cond, env, st);
    var p := Eval(g, call, cond, env);
    if p.Some? {
      var st1 := ExecuteAll(e.code, st, call).value;
      ExecuteOne(test, st1, call);
      if Execute(test, st1, call).Some? {
        AgreeAfter(known, values, p.value.1, st1, Execute(test, st1, call).value);
      }
    }
  }

  /** A branch that can be left jumps to the continue block. */
  lemma JoinRuns(call: Oracle, r: Builder, end: Option<nat>, cont: Option<nat>, st: State, f: Cfg)
    requires end.Some? && r.at == end.value && r.at < |r.blocks|
    requires cont.Some? ==> cont.value < |r.blocks| && cont.value != r.at
    requires Grows(Join(r, end, cont).b.blocks, f)
    ensures StepN(f, call, Here(r, st), 1) == At(Join(r, end, cont).cont.value, 0, st)
  {
    var j := Join(r, end, cont);
    assert j.b.blocks[r.at] == r.blocks[r.at] + [Br(j.cont.value)];
    assert j.b.blocks[r.at] <= f[r.at];
    assert f[r.at][|r.blocks[r.at]|] == Br(j.cont.value);
    assert StepN(f, call, Here(r, st), 1) == StepN(f, call, Step(f, call, Here(r, st)), 0);
  }

  /** Whatever a statement means from some environment, its code does from an
      agreeing machine state, in every graph that grows out of the builder:
      it ends where the builder goes on, returns the same value, or gets stuck
      exactly when the statement has no meaning. */
  lemma {:induction false} StmtSimulates(g: Globals, call: Oracle, known: set<Name>, b: Builder, s: Tree,
                                         env: Env, st: State, f: Cfg)
    returns (n: nat, last: State)
    requires Ready(b) && ClosedStmt(g, known, s)
    requires Sits(known, b, env, st)
    requires Grows(GenStmt(g, b, b.at, s).0.blocks, f)
    ensures var r := GenStmt(g, b, b.at, s);
            Arrives(known + Declares(s), r.0, r.1, Exec(g, call, s, env), b.reg, st,
                    StepN(f, call, Here(b, st), n), last)
    decreases s, 2
  {
    hide GenStmt, Exec, Sits, Grows;
    match s.head
    case UnscopedCompound | Compound => n, last := CompoundSimulates(g, call, known, b, s, env, st, f);
    case If =>
      n, last := IfSimulates(g, call, known, b, s, env, st, f);
    case Return => n, last := ReturnSimulates(g, call, known, b, s, env, st, f);
    case ExpressionStmt => n, last := ExpressionSimulates(g, call, known, b, s, env, st, f);
    case DeclStmt(_) => n, last := DeclSimulates(g, call, known, b, s, env, st, f);
  }

  lemma {:induction false} CompoundSimulates(g: Globals, call: Oracle, known: set<Name>, b: Builder, s: Tree,
                                             env: Env, st: State, f: Cfg)
    returns (n: nat, last: State)
    requires Ready(b) && ClosedStmt(g, known, s) && (s.head.Compound? || s.head.UnscopedCompound?)
    requires Sits(known, b, env, st)
    requires Grows(GenStmt(g, b, b.at, s).0.blocks, f)
    ensures var r := GenStmt(g, b, b.at, s);
            Arrives(known + Declares(s), r.0, r.1, Exec(g, call, s, env), b.reg, st,
                    StepN(f, call, Here(b, st), n), last)
    decreases s, 0
  {
    hide Agree, Scoped, StepN;
    n, last := StmtsSimulate(g, call, known, b, s.kids, env, st, f);
    var outcome := ExecAll(g, call, s.kids, env);
    if s.head.Compound? && outcome.Normal? {
      var r := GenStmts(g, b, b.at, s.kids).0;
      StmtsScope(g, known, b, s.kids);
      AgreeKept(known, known + DeclaresAll(s.kids), b, r, env, outcome.env, st, last);
    }
    assert s.head.Compound? ==> known + Declares(s) == known;
  }

  lemma ExpressionSimulates(g: Globals, call: Oracle, known: set<Name>, b: Builder, s: Tree,
                            env: Env, st: State, f: Cfg)
    returns (n: nat, last: State)
    requires Ready(b) && ClosedStmt(g, known, s) && s.head.ExpressionStmt?
    requires Sits(known, b, env, st)
    requires Grows(GenStmt(g, b, b.at, s).0.blocks, f)
    ensures var r := GenStmt(g, b, b.at, s);
            Arrives(known + Declares(s), r.0, r.1, Exec(g, call, s, env), b.reg, st,
                    StepN(f, call, Here(b, st), n), last)
  {
    var e := GenExpr(g, b.values, b.reg, s.kids[0]);
    ExprWithin(g, b.values, b.reg, s.kids[0]);
    WithinIsOpen(e.code, b.reg, e.reg);
    ExprComputes(g, call, known, b.values, b.reg, s.kids[0], env, st);
    EmittedRuns(f, call, b.at, b.blocks[b.at], e.code, st);
    n := |e.code|;
    last := if ExecuteAll(e.code, st, call).Some? then ExecuteAll(e.code, st, call).value else st;
    assert known + Declares(s) == known;
  }

  lemma ReturnSimulates(g: Globals, call: Oracle, known: set<Name>, b: Builder, s: Tree,
                        env: Env, st: State, f: Cfg)
    returns (n: nat, last: State)
    requires Ready(b) && ClosedStmt(g, known, s) && s.head.Return?
    requires Sits(known, b, env, st)
    requires Grows(GenStmt(g, b, b.at, s).0.blocks, f)
    ensures var r := GenStmt(g, b, b.at, s);
            Arrives(known + Declares(s), r.0, r.1, Exec(g, call, s, env), b.reg, st,
                    StepN(f, call, Here(b, st), n), last)
  {
    hide GenExpr, Eval, Agree, Within;
    last := st;
    var base := b.blocks[b.at];
    var r := GenStmt(g, b, b.at, s).0;
    var here, outcome := Here(b, st), Exec(g, call, s, env);
    if s.kids == [] {
      n := 1;
      assert r.blocks[b.at] == base + [RetVoid];
      assert r.blocks[b.at] <= f[b.at];
      assert f[b.at][|base|] == RetVoid;
      OneMore(f, call, here, 0);
    } else {
      var e := GenExpr(g, b.values, b.reg, s.kids[0]);
      var v := LoadMemory(e.value, e.reg);
      var code := e.code + v.code;
      assert r.blocks[b.at] == base + code + [Ret(v.value)];
      assert r.blocks[b.at] <= f[b.at];
      ExprWithin(g, b.values, b.reg, s.kids[0]);
      WithinIsOpen(e.code, b.reg, e.reg);
      EmittedRuns(f, call, b.at, base, code, st);
      LoadedComputes(g, call, known, b.values, b.reg, s.kids[0], env, st);
      n := |code| + 1;
      OneMore(f, call, here, |code|);
      assert f[b.at][|base + code|] == Ret(v.value);
    }
    assert StepN(f, call, here, n) == if outcome.Returned? then Finished(outcome.value, st.out) else Stuck;
    assert !outcome.Normal?;
  }

  lemma DeclSimulates(g: Globals, call: Oracle, known: set<Name>, b: Builder, s: Tree,
                      env: Env, st: State, f: Cfg)
    returns (n: nat, last: State)
    requires Ready(b) && ClosedStmt(g, known, s) && s.head.DeclStmt?
    requires Sits(known, b, env, st)
    requires Grows(GenStmt(g, b, b.at, s).0.blocks, f)
    ensures var r := GenStmt(g, b, b.at, s);
            Arrives(known + Declares(s), r.0, r.1, Exec(g, call, s, env), b.reg, st,
                    StepN(f, call, Here(b, st), n), last)
  {
    hide GenExpr, Eval, Within, ExecuteAll, Agree, Scoped;
    var e := GenExpr(g, b.values, b.reg, s.kids[0]);
    var v := LoadMemory(e.value, e.reg + 1);
    var tail := [Alloca(e.reg)] + v.code + [Store(v.value, Slot(e.reg))];
    var base := b.blocks[b.at];
    var r := GenStmt(g, b, b.at, s).0;
    assert r.blocks[b.at] == base + (e.code + tail);
    assert r.blocks[b.at] <= f[b.at];
    ExprWithin(g, b.values, b.reg, s.kids[0]);
    WithinIsOpen(e.code, b.reg, e.reg);
    EmittedRuns(f, call, b.at, base, e.code + tail, st);
    ExecuteAppend(e.code, tail, st, call);
    ExprComputes(g, call, known, b.values, b.reg, s.kids[0], env, st);
    n := |e.code + tail|;
    last := st;
    var p := Eval(g, call, s.kids[0], env);
    if p.Some? {
      var st1 := ExecuteAll(e.code, st, call).value;
      DeclTail(known, b.values, s.head.name, e, p.value.0, p.value.1, b.reg, st1, call);
      if ExecuteAll(tail, st1, call).Some? {
        last := ExecuteAll(tail, st1, call).value;
        assert st1.slots.Keys == st.slots.Keys;
      }
    }
  }

  /** Allocating the slot of a declaration, loading its value and storing it. */
  lemma DeclTail(known: set<Name>, values: ValueMap, x: Name, e: Emitted, m: Meaning, env: Env,
                 low: nat, st: State, call: Oracle)
    requires Scoped(known, values, low) && low <= e.reg && Agree(known, values, env, st) && x !in known
    requires Stands(known, values, e.value, m, st) && Below(e.value, e.reg)
    ensures var v := LoadMemory(e.value, e.reg + 1);
            var run := ExecuteAll([Alloca(e.reg)] + v.code + [Store(v.value, Slot(e.reg))], st, call);
            match Content(m, env)
            case None => run.None?
            case Some(k) =>
              run.Some? && Agree(known + {x}, values[x := Slot(e.reg)], env[x := k], run.value) &&
              run.value.slots.Keys == st.slots.Keys + {e.reg} && run.value.out == st.out && run.value.args == st.args
  {
    hide Agree, Scoped, Stands, Within;
    var v := LoadMemory(e.value, e.reg + 1);
    var alloca, store := Alloca(e.reg), Store(v.value, Slot(e.reg));
    ExecuteAppend([alloca] + v.code, [store], st, call);
    ExecuteAppend([alloca], v.code, st, call);
    ExecuteOne(alloca, st, call);
    var st1 := SlotAdded(known, values, e.value, m, env, low, e.reg, st);
    assert Execute(alloca, st, call) == Some(st1);
    LoadMeaning(known, values, e.value, m, e.reg + 1, env, st1, call);
    if ExecuteAll(v.code, st1, call).Some? {
      var st2 := ExecuteAll(v.code, st1, call).value;
      ExecutePreserves(v.code, e.reg + 1, v.reg, st1, call);
      ExecuteOne(store, st2, call);
      if Content(m, env).Some? {
        SlotFilled(known, values, x, env, low, e.reg, Content(m, env).value, st1, st2,
                   Execute(store, st2, call).value);
      }
    }
  }

  /** A new slot disturbs nothing in scope. */
  lemma SlotAdded(known: set<Name>, values: ValueMap, v: Value, m: Meaning, env: Env, low: nat, slot: nat, st: State)
    returns (next: State)
    requires Scoped(known, values, low) && low <= slot && Agree(known, values, env, st)
    requires Stands(known, values, v, m, st)
    ensures next == st.(slots := st.slots[slot := None])
    ensures Agree(known, values, env, next) && Stands(known, values, v, m, next)
  {
    next := st.(slots := st.slots[slot := None]);
  }

  lemma SlotFilled(known: set<Name>, values: ValueMap, x: Name, env: Env, low: nat, slot: nat, n: int,
                   st: State, loaded: State, last: State)
    requires Scoped(known, values, low) && low <= slot && Agree(known, values, env, st) && x !in known
    requires loaded.slots == st.slots && last.slots == loaded.slots[slot := Some(n)]
    ensures Agree(known + {x}, values[x := Slot(slot)], env[x := n], last)
  {
  }

  /** An `if` under construction together with its scope. */
  ghost predicate Building(known: set<Name>, more: set<Name>, b: Builder, c: Builder, cont: Option<nat>) {
    Pending(b, c, cont) && KeepsScope(known, more, b, c)
  }

  lemma BuildingStarts(known: set<Name>, b: Builder)
    requires Ready(b) && Scoped(known, b.values, b.reg)
    ensures Building(known, known, b, b, None)
  {
    PendingStarts(b);
    KeepsNothing(known, b, b);
  }

  /** A finished branch, whatever generated it, leaves the `if` under construction. */
  lemma BuildingJoin(known: set<Name>, more: set<Name>, most: set<Name>, b: Builder, c: Builder, cont: Option<nat>,
                     r: Builder, end: Option<nat>)
    requires Building(known, more, b, c, cont)
    requires Region(StartBranch(c), r, end) && KeepsScope(more, most, c, r)
    ensures var j := Join(r, end, cont);
            Building(known, most, b, j.b, j.cont) && |c.blocks| < |j.b.blocks| && Grows(c.blocks, j.b.blocks) &&
            KeepsScope(more, most, c, j.b) && (cont.Some? ==> j.cont == cont)
  {
    PendingBranch(b, c, cont, r, end);
    JoinScope(more, most, c, r, end, cont);
    KeepsTwice(known, more, most, b, c, Join(r, end, cont).b);
    RegionGrows(StartBranch(c), r, end);
    JoinGrows(r, end, cont);
    assert Grows(c.blocks, StartBranch(c).blocks);
    GrowsTwice(c.blocks, StartBranch(c).blocks, r.blocks);
    GrowsTwice(c.blocks, r.blocks, Join(r, end, cont).b.blocks);
  }

  lemma JoinScope(known: set<Name>, more: set<Name>, c: Builder, r: Builder, end: Option<nat>, cont: Option<nat>)
    requires KeepsScope(known, more, c, r)
    ensures KeepsScope(known, more, c, Join(r, end, cont).b)
  {
  }

  lemma BuildingBranch(g: Globals, known: set<Name>, more: set<Name>, b: Builder, c: Builder, cont: Option<nat>,
                       s: Tree)
    requires Building(known, more, b, c, cont) && ClosedStmt(g, more, s)
    ensures var j := AddBranch(g, c, cont, s);
            var most := more + Declares(s);
            Building(known, most, b, j.b, j.cont) && |c.blocks| < |j.b.blocks| && Grows(c.blocks, j.b.blocks) &&
            KeepsScope(more, most, c, j.b) && (cont.Some? ==> j.cont == cont)
  {
    var r := GenStmt(g, StartBranch(c), |c.blocks|, s);
    StmtRegion(g, more, StartBranch(c), s);
    StmtScopes(g, more, StartBranch(c), s);
    BuildingJoin(known, more, more + Declares(s), b, c, cont, r.0, r.1);
  }

  /** Where the run of a branch has to arrive: at the continue block, unless it
      returns or gets stuck. */
  ghost predicate LeavesBranch(known: set<Name>, r: Builder, cont: Option<nat>, outcome: Outcome,
                         low: nat, st: State, reached: Conf, last: State)
  {
    match outcome
    case Normal(env) =>
      cont.Some? && reached == At(cont.value, 0, last) && Agree(known, r.values, env, last) &&
      Moves(st, last, low, r.reg)
    case Returned(v) => reached == Finished(v, st.out)
    case Wrong => reached == Stuck
  }

  /** A branch ends in the unterminated block its code was left in. */
  lemma BranchEnds(g: Globals, known: set<Name>, c: Builder, cont: Option<nat>, s: Tree)
    requires ClosedStmt(g, known, s) && (cont.Some? ==> cont.value < |c.blocks|)
    ensures var r := GenStmt(g, StartBranch(c), |c.blocks|, s);
            r.0.at < |r.0.blocks| && (r.1.Some? ==> r.0.at == r.1.value) &&
            (r.1.Some? && cont.Some? ==> cont.value < |r.0.blocks| && cont.value != r.0.at)
  {
    StmtRegion(g, known, StartBranch(c), s);
  }

  lemma {:induction false} BranchSimulates(g: Globals, call: Oracle, known: set<Name>, c: Builder,
                                           cont: Option<nat>, s: Tree, env: Env, st: State, f: Cfg)
    returns (n: nat, last: State)
    requires Sits(known, c, env, st) && ClosedStmt(g, known, s)
    requires cont.Some? ==> cont.value < |c.blocks|
    requires Grows(AddBranch(g, c, cont, s).b.blocks, f)
    ensures var j := AddBranch(g, c, cont, s);
            LeavesBranch(known + Declares(s), j.b, j.cont, Exec(g, call, s, env), c.reg, st,
                   StepN(f, call, At(|c.blocks|, 0, st), n), last)
    decreases s, 3
  {
    hide Agree, Scoped, Exec, Step, StepN, GenStmt, ClosedStmt, Grows, Moves;
    var start := StartBranch(c);
    var r := GenStmt(g, start, |c.blocks|, s);
    BranchEnds(g, known, c, cont, s);
    JoinGrows(r.0, r.1, cont);
    GrowsTwice(r.0.blocks, Join(r.0, r.1, cont).b.blocks, f);
    n, last := StmtSimulates(g, call, known, start, s, env, st, f);
    if Exec(g, call, s, env).Normal? {
      JoinRuns(call, r.0, r.1, cont, last, f);
      Onwards(f, call, At(|c.blocks|, 0, st), n, Here(r.0, last), 1);
      n := n + 1;
    }
  }

  /** The finished `if`: a run that left its branch is where the builder goes on. */
  lemma IfArrives(g: Globals, more: set<Name>, b: Builder, c: Builder, cond: Tree, yes: nat, no: nat,
                  cont: Option<nat>, outcome: Outcome, st: State, st1: State, reached: Conf, last: State)
    requires Pending(b, c, cont)
    requires |b.blocks| <= yes < |c.blocks| && |b.blocks| <= no < |c.blocks|
    requires Moves(st, st1, b.reg, b.reg) && LeavesBranch(more, c, cont, outcome, b.reg, st1, reached, last)
    ensures var r := Branch(g, c, b.at, cond, yes, no, cont);
            Arrives(more, r.0, r.1, outcome, b.reg, st, reached, last)
  {
    RegionBranch(g, b, c, cond, yes, no, cont);
    ExprWithin(g, c.values, c.reg, cond);
  }

  lemma RegionBranchGrows(g: Globals, b: Builder, c: Builder, cond: Tree, yes: nat, no: nat, cont: Option<nat>)
    requires Pending(b, c, cont)
    requires |b.blocks| <= yes < |c.blocks| && |b.blocks| <= no < |c.blocks|
    ensures Grows(c.blocks, Branch(g, c, b.at, cond, yes, no, cont).0.blocks)
  {
    RegionBranch(g, b, c, cond, yes, no, cont);
    var r := Branch(g, c, b.at, cond, yes, no, cont).0;
    forall i | 0 <= i < |c.blocks|
      ensures c.blocks[i] <= r.blocks[i]
    {
    }
  }

  /** The `if` before its condition is generated: the builder with both
      branches, and the block a false condition leads to. */
  function IfBranches(g: Globals, b: Builder, s: Tree): (Joined, nat)
    requires |s.kids| >= 2
  {
    var j := AddBranch(g, b, None, s.kids[1]);
    if |s.kids| > 2 then (AddBranch(g, j.b, j.cont, s.kids[2]), |j.b.blocks|)
    else
      var c := LazyContinue(j.b, j.cont);
      (c, c.cont.value)
  }

  lemma IfBuilt(g: Globals, known: set<Name>, b: Builder, s: Tree)
    requires Ready(b) && ClosedStmt(g, known, s) && s.head.If? && Scoped(known, b.values, b.reg)
    ensures var first := AddBranch(g, b, None, s.kids[1]);
            var (j, no) := IfBranches(g, b, s);
            var more := known + Declares(s.kids[1]);
            GenStmt(g, b, b.at, s) == Branch(g, j.b, b.at, s.kids[0], |b.blocks|, no, j.cont) &&
            Building(known, more, b, first.b, first.cont) && Building(known, known + Declares(s), b, j.b, j.cont) &&
            KeepsScope(more, known + Declares(s), first.b, j.b) &&
            |b.blocks| < |j.b.blocks| && |b.blocks| <= no < |j.b.blocks| &&
            Grows(first.b.blocks, j.b.blocks) && (first.cont.Some? ==> j.cont == first.cont)
  {
    hide Region, GenStmt, Scoped, Pending;
    GenIf(g, b, s);
    IfDeclares(known, s);
    var j1 := AddBranch(g, b, None, s.kids[1]);
    var more := known + Declares(s.kids[1]);
    BuildingStarts(known, b);
    BuildingBranch(g, known, known, b, b, None, s.kids[1]);
    if |s.kids| > 2 {
      BuildingBranch(g, known, more, b, j1.b, j1.cont, s.kids[2]);
    } else {
      PendingContinue(b, j1.b, j1.cont);
      LazyScope(known, more, b, j1.b, j1.cont);
      KeepsScoped(known, more, b, j1.b);
      LazyKeeps(more, j1.b, j1.cont);
    }
  }

  lemma {:induction false} IfSimulates(g: Globals, call: Oracle, known: set<Name>, b: Builder, s: Tree,
                                       env: Env, st: State, f: Cfg)
    returns (n: nat, last: State)
    requires Ready(b) && ClosedStmt(g, known, s) && s.head.If? && Sits(known, b, env, st)
    requires Grows(GenStmt(g, b, b.at, s).0.blocks, f)
    ensures var r := GenStmt(g, b, b.at, s);
            Arrives(known + Declares(s), r.0, r.1, Exec(g, call, s, env), b.reg, st,
                    StepN(f, call, Here(b, st), n), last)
    decreases s, 1
  {
    hide GenStmt, Exec, Eval, Grows, StepN, Sits, Moves, Agree;
    n, last := IfTests(g, call, known, b, s, env, st, f);
    ExecIf(g, call, s, env);
    var p := Eval(g, call, s.kids[0], env);
    if p.Some? && Truth(p.value.0).Some? {
      var taken := Truth(p.value.0).value;
      var entry := At(if taken then |b.blocks| else IfBranches(g, b, s).1, 0, last);
      var k, end := TakenSimulates(g, call, known, b, s, taken, p.value.1, st, last, f);
      Onwards(f, call, Here(b, st), n, entry, k);
      n, last := n + k, end;
    }
  }

  /** The condition of an `if` decides which block is entered. */
  lemma IfTests(g: Globals, call: Oracle, known: set<Name>, b: Builder, s: Tree, env: Env, st: State, f: Cfg)
    returns (n: nat, last: State)
    requires Ready(b) && ClosedStmt(g, known, s) && s.head.If? && Sits(known, b, env, st)
    requires Grows(GenStmt(g, b, b.at, s).0.blocks, f)
    ensures var p := Eval(g, call, s.kids[0], env);
            var reached := StepN(f, call, Here(b, st), n);
            if p.Some? && Truth(p.value.0).Some? then
              reached == At(if Truth(p.value.0).value then |b.blocks| else IfBranches(g, b, s).1, 0, last) &&
              Sits(known, b, p.value.1, last) && Moves(st, last, b.reg, b.reg)
            else reached == Stuck
  {
    hide Region, GenStmt, Eval, Grows, StepN, Pending;
    var (j, no) := IfBranches(g, b, s);
    IfBuilt(g, known, b, s);
    n, last := ConditionRuns(g, call, known, b, j.b, s.kids[0], |b.blocks|, no, j.cont, env, st, f);
  }

  lemma ExecIf(g: Globals, call: Oracle, s: Tree, env: Env)
    requires s.head.If? && |s.kids| >= 2
    ensures var p := Eval(g, call, s.kids[0], env);
            Exec(g, call, s, env) ==
            if p.Some? && Truth(p.value.0).Some? then Taken(g, call, s, Truth(p.value.0).value, p.value.1) else Wrong
  {
  }

  /** What an `if` does once its condition is decided. */
  function Taken(g: Globals, call: Oracle, s: Tree, taken: bool, env: Env): Outcome
    requires |s.kids| >= 2
  {
    if taken then Exec(g, call, s.kids[1], env)
    else if |s.kids| > 2 then Exec(g, call, s.kids[2], env)
    else Normal(env)
  }

  lemma {:induction false} TakenSimulates(g: Globals, call: Oracle, known: set<Name>, b: Builder, s: Tree,
                                          taken: bool, env: Env, st: State, mid: State, f: Cfg)
    returns (k: nat, last: State)
    requires Ready(b) && ClosedStmt(g, known, s) && s.head.If?
    requires Sits(known, b, env, mid) && Moves(st, mid, b.reg, b.reg)
    requires Grows(GenStmt(g, b, b.at, s).0.blocks, f)
    ensures var r := GenStmt(g, b, b.at, s);
            var entry := if taken then |b.blocks| else IfBranches(g, b, s).1;
            Arrives(known + Declares(s), r.0, r.1, Taken(g, call, s, taken, env), b.reg, st,
                    StepN(f, call, At(entry, 0, mid), k), last)
    decreases s, 0
  {
    hide GenStmt, Grows, Region, Agree, Scoped, Fresh, Sits, KeepsScope, Moves, LeavesBranch, Arrives, StepN;
    var first := AddBranch(g, b, None, s.kids[1]);
    var (j, no) := IfBranches(g, b, s);
    var more, most := known + Declares(s.kids[1]), known + Declares(s);
    var outcome := Taken(g, call, s, taken, env);
    SitsScoped(known, b, env, mid);
    IfBuilt(g, known, b, s);
    IfDeclares(known, s);
    RegionBranchGrows(g, b, j.b, s.kids[0], |b.blocks|, no, j.cont);
    GrowsTwice(j.b.blocks, GenStmt(g, b, b.at, s).0.blocks, f);
    SitsWider(known, more, b, first.b, env, mid);
    if taken {
      GrowsTwice(first.b.blocks, j.b.blocks, f);
      k, last := BranchSimulates(g, call, known, b, None, s.kids[1], env, mid, f);
      SkippedBranch(known, more, most, b, first, j, env, outcome, mid, StepN(f, call, At(|b.blocks|, 0, mid), k), last);
    } else if |s.kids| > 2 {
      k, last := BranchSimulates(g, call, more, first.b, first.cont, s.kids[2], env, mid, f);
      LeavesEarlier(most, j, outcome, b.reg, first.b.reg, mid, StepN(f, call, At(no, 0, mid), k), last);
    } else {
      k, last := 0, mid;
      NoBranch(more, b, first, env, mid);
      StaysAt(f, call, At(no, 0, mid));
    }
    var entry := if taken then |b.blocks| else no;
    IfArrives(g, most, b, j.b, s.kids[0], |b.blocks|, no, j.cont, outcome, st, mid,
              StepN(f, call, At(entry, 0, mid), k), last);
  }

  lemma StaysAt(f: Cfg, call: Oracle, c: Conf)
    ensures StepN(f, call, c, 0) == c
  {
  }

  /** The names of a branch that is generated later but was not taken agree. */
  lemma SkippedBranch(known: set<Name>, more: set<Name>, most: set<Name>, b: Builder, c: Joined, j: Joined, env: Env,
                      outcome: Outcome, st: State, reached: Conf, last: State)
    requires KeepsScope(known, more, b, c.b) && KeepsScope(more, most, c.b, j.b) && Sits(known, b, env, st)
    requires (c.cont.Some? ==> j.cont == c.cont) && LeavesBranch(more, c.b, c.cont, outcome, b.reg, st, reached, last)
    ensures LeavesBranch(most, j.b, j.cont, outcome, b.reg, st, reached, last)
  {
    if outcome.Normal? {
      FreshAfter(st, last, b.reg, c.b.reg);
      AgreeWider(more, most, c.b, j.b, outcome.env, last);
    }
  }

  lemma LeavesEarlier(known: set<Name>, j: Joined, outcome: Outcome, low: nat, high: nat, st: State, reached: Conf,
                      last: State)
    requires low <= high && LeavesBranch(known, j.b, j.cont, outcome, high, st, reached, last)
    ensures LeavesBranch(known, j.b, j.cont, outcome, low, st, reached, last)
  {
  }

  /** Without a false branch a false condition leads to the continue block. */
  lemma NoBranch(known: set<Name>, b: Builder, c: Joined, env: Env, st: State)
    requires Sits(known, c.b, env, st)
    ensures var j := LazyContinue(c.b, c.cont);
            LeavesBranch(known, j.b, j.cont, Normal(env), b.reg, st, At(j.cont.value, 0, st), st)
  {
  }

  lemma {:induction false} StmtsSimulate(g: Globals, call: Oracle, known: set<Name>, b: Builder, ss: seq<Tree>,
                                         env: Env, st: State, f: Cfg)
    returns (n: nat, last: State)
    requires Ready(b) && ClosedStmts(g, known, ss) && Sits(known, b, env, st)
    requires Grows(GenStmts(g, b, b.at, ss).0.blocks, f)
    ensures var r := GenStmts(g, b, b.at, ss);
            Arrives(known + DeclaresAll(ss), r.0, r.1, ExecAll(g, call, ss, env), b.reg, st,
                    StepN(f, call, Here(b, st), n), last)
    decreases ss
  {
    hide GenStmt, Exec, Agree, Scoped, Grows, Allocates, Fresh;
    if ss == [] {
      n, last := 0, st;
      assert known + DeclaresAll(ss) == known;
      NothingMoves(st, b.reg);
    } else {
      var r := GenStmt(g, b, b.at, ss[0]);
      var more := known + Declares(ss[0]);
      FirstOfMany(g, known, b, ss);
      if r.1.Some? {
        GrowsTwice(r.0.blocks, GenStmts(g, b, b.at, ss).0.blocks, f);
      }
      n, last := StmtSimulates(g, call, known, b, ss[0], env, st, f);
      var outcome := Exec(g, call, ss[0], env);
      if outcome.Normal? {
        var mid := last;
        var k: nat;
        FreshAfter(st, mid, b.reg, r.0.reg);
        k, last := StmtsSimulate(g, call, more, r.0, ss[1..], outcome.env, mid, f);
        Onwards(f, call, Here(b, st), n, Here(r.0, mid), k);
        assert more + DeclaresAll(ss[1..]) == known + DeclaresAll(ss);
        if ExecAll(g, call, ss, env).Normal? {
          AllocatesTwice(st, mid, last, b.reg, r.0.reg, GenStmts(g, b, b.at, ss).0.reg);
        }
        n := n + k;
      }
    }
  }

  lemma NothingMoves(st: State, reg: nat)
    ensures Moves(st, st, reg, reg)
  {
  }

  /** After the first of several statements the builder is ready for the next. */
  lemma FirstOfMany(g: Globals, known: set<Name>, b: Builder, ss: seq<Tree>)
    requires Ready(b) && ClosedStmts(g, known, ss) && Scoped(known, b.values, b.reg) && ss != []
    ensures var r := GenStmt(g, b, b.at, ss[0]);
            var all := GenStmts(g, b, b.at, ss);
            if r.1.None? then all == r
            else
              r.0.at == r.1.value && Ready(r.0) && Scoped(known + Declares(ss[0]), r.0.values, r.0.reg) &&
              b.reg <= r.0.reg <= all.0.reg &&
              all == GenStmts(g, r.0, r.0.at, ss[1..]) && Grows(r.0.blocks, all.0.blocks)
  {
    var r := GenStmt(g, b, b.at, ss[0]);
    StmtRegion(g, known, b, ss[0]);
    StmtScopes(g, known, b, ss[0]);
    if r.1.Some? {
      StmtsRegion(g, known + Declares(ss[0]), r.0, ss[1..]);
      var q := GenStmts(g, r.0, r.0.at, ss[1..]);
      RegionGrows(r.0, q.0, q.1);
    }
  }
}
