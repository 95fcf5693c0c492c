/** Dominance shows which names are surely declared: generated code that has it
    comes from trees whose references keep to the branches of the ifs. */
module NeedsDominance {
  import opened Wrappers
  import opened Ast
  import opened Machine
  import opened Semantics
  import opened ExprCodegen
  import opened Graph
  import opened StmtCodegen
  import opened Simulation
  import opened PlainReading
  import opened FunctionCodegen
  import opened MetaCodegen
  import opened Staging
  import opened Instantiation
  import opened WaysThrough
  import opened Dominance
  import opened MetaDominance

  /** The branches of every `if` are compounds, at every depth. */
  predicate ScopedIfs(s: Tree)
    decreases s, 0
  {
    match s.head
    case UnscopedCompound | Compound => AllScopedIfs(s.kids)
    case If =>
      |s.kids| >= 2 && s.kids[1].head.Compound? && ScopedIfs(s.kids[1]) &&
      (|s.kids| > 2 ==> s.kids[2].head.Compound? && ScopedIfs(s.kids[2]))
    case _ => true
  }

  predicate AllScopedIfs(ss: seq<Tree>)
    decreases ss
  {
    ss == [] || (ScopedIfs(ss[0]) && AllScopedIfs(ss[1..]))
  }

  predicate ScopedCalculations(t: Tree)
    decreases t, 0
  {
    match t.head
    case MetaCalculation => t.kids != [] ==> ScopedIfs(t.kids[0])
    case MetaIf =>
      |t.kids| >= 2 && ScopedCalculations(t.kids[1]) && (|t.kids| > 2 ==> ScopedCalculations(t.kids[2]))
    case _ => AllScopedCalculations(t.kids)
  }

  predicate AllScopedCalculations(ts: seq<Tree>)
    decreases ts
  {
    ts == [] || (ScopedCalculations(ts[0]) && AllScopedCalculations(ts[1..]))
  }

  /** The finished graph, with a certificate of its dominance. */
  ghost predicate Whole(f: Cfg, entry: seq<set<nat>>) {
    Certified(f, entry) && WellFormed(f)
  }

  /** Where the builder stands, of the names that may be declared only the sure
      ones have slots that are there, and no slot to come is. */
  ghost predicate LacksOthers(known: set<Name>, sure: set<Name>, b: Builder, entry: seq<set<nat>>) {
    b.at < |b.blocks| && b.at < |entry| && sure <= known && Scoped(known, b.values, b.reg) &&
    (forall k | k in There(b, entry) :: k < b.reg) &&
    forall x | x in known && x !in sure :: b.values[x].id !in There(b, entry)
  }

  /** What is there in the end was there before, or has been allocated since. */
  ghost predicate OnlyNew(there: set<nat>, before: set<nat>, low: nat, high: nat) {
    forall k | k in there :: k in before || low <= k < high
  }

  /** Code that was emitted is safe where it stands. */
  lemma EmittedIsSafe(f: Cfg, entry: seq<set<nat>>, b: Builder, code: Code)
    requires Certified(f, entry) && b.at < |b.blocks| && b.at < |f| && b.blocks[b.at] + code <= f[b.at]
    ensures CodeSafe(code, There(b, entry))
  {
    var all := b.blocks[b.at] + code;
    assert f[b.at] == all + f[b.at][|all|..];
    SafeAppend(all, f[b.at][|all|..], entry[b.at]);
    SafeAppend(b.blocks[b.at], code, entry[b.at]);
  }

  /** A block that is terminated is finished. */
  lemma TerminatedIsFinal(code: Code, whole: Code)
    requires Terminated(code) && Terminated(whole) && code <= whole
    ensures code == whole
  {
    assert whole[|code| - 1] == code[|code| - 1];
    assert forall k | 0 <= k < |whole| - 1 :: whole[..|whole| - 1][k] == whole[k];
    assert |code| == |whole|;
  }

  lemma ExprIsSure(g: Globals, known: set<Name>, sure: set<Name>, values: ValueMap, reg: nat, e: Tree, there: set<nat>)
    requires ClosedExpr(g, known, e) && sure <= known && Separate(known, values)
    requires forall x | x in known && x !in sure :: values[x].id !in there
    requires var r := GenExpr(g, values, reg, e); CodeSafe(r.code, there) && SlotsOf(r.value) <= there
    ensures ClosedExpr(g, sure, e)
  {
    var names := NamesThere(known, values, there);
    ExprUses(g, known, values, reg, e, there);
    MoreStillClosedExpr(g, known, sure, names, e);
  }

  /** What an expression other than a bare variable stands for is used. */
  lemma ValueIsUsed(g: Globals, known: set<Name>, values: ValueMap, reg: nat, e: Tree, there: set<nat>)
    requires ClosedExpr(g, known, e) && !IsVariable(g, e) && CodeSafe(GenExpr(g, values, reg, e).code, there)
    ensures SlotsOf(GenExpr(g, values, reg, e).value) <= there
  {
    hide CodeSafe, Within, GenOperator;
    if e.head.Binary? {
      var l := GenExpr(g, values, reg, e.kids[0]);
      var r := GenExpr(g, values, l.reg, e.kids[1]);
      assert GenExpr(g, values, reg, e) == GenOperator(e.head.op, l, r);
      ExprWithin(g, values, reg, e.kids[0]);
      ExprWithin(g, values, l.reg, e.kids[1]);
      OperatorStandsForUsed(e.head.op, l, r, reg, there);
    }
  }

  lemma OperatorStandsForUsed(op: BinaryOp, l: Emitted, r: Emitted, reg: nat, there: set<nat>)
    requires Within(l.code, reg, l.reg) && Within(r.code, l.reg, r.reg) && CodeSafe(GenOperator(op, l, r).code, there)
    ensures SlotsOf(GenOperator(op, l, r).value) <= there
  {
    hide CodeSafe, Within, LoadMemory;
    var tail := OperatorTail(op, l, r);
    OperatorSplits(op, l, r);
    SafeThen(l.code, reg, l.reg, r.code + tail, there);
    SafeThen(r.code, l.reg, r.reg, tail, there);
    TailUses(op, l, r, there);
    assert CodeSafe(tail, there);
    assert op.Assign? ==> GenOperator(op, l, r).value == r.value;
  }

  /** Straight-line code that allocates nothing leaves everything as it is. */
  lemma StillLacks(known: set<Name>, sure: set<Name>, b: Builder, entry: seq<set<nat>>, code: Code, reg: nat)
    requires LacksOthers(known, sure, b, entry) && Allocs(code) == {} && b.reg <= reg
    ensures var r := Emit(b.(reg := reg), code);
            LacksOthers(known, sure, r, entry) && There(r, entry) == There(b, entry)
  {
    AllocsAppend(b.blocks[b.at], code);
    assert There(Emit(b.(reg := reg), code), entry) == There(b, entry);
  }

  // Statements

  ghost predicate SureOn(known: set<Name>, sure: set<Name>, b: Builder, r: Builder, end: Option<nat>,
                         entry: seq<set<nat>>)
    requires b.at < |b.blocks| && b.at < |entry|
  {
    end.Some? ==>
      LacksOthers(known, sure, r, entry) && OnlyNew(There(r, entry), There(b, entry), b.reg, r.reg) && b.reg <= r.reg
  }

  lemma {:induction false} StmtIsSure(g: Globals, known: set<Name>, sure: set<Name>, b: Builder, s: Tree, f: Cfg,
                                      entry: seq<set<nat>>)
    requires Ready(b) && ClosedStmt(g, known, s) && ScopedIfs(s) && LacksOthers(known, sure, b, entry)
    requires Whole(f, entry) && Grows(GenStmt(g, b, b.at, s).0.blocks, f)
    ensures SureStmt(g, sure, s)
    ensures var r := GenStmt(g, b, b.at, s);
            SureOn(known + Declares(s), sure + SurelyLeft(s), b, r.0, r.1, entry)
    decreases s, 2
  {
    match s.head
    case UnscopedCompound => StmtsAreSure(g, known, sure, b, s.kids, f, entry);
    case Compound =>
      StmtsAreSure(g, known, sure, b, s.kids, f, entry);
      assert known + Declares(s) == known && sure + SurelyLeft(s) == sure;
      var r := GenStmts(g, b, b.at, s.kids);
      if r.1.Some? {
        OutsideStillLacks(known, sure, b, r.0, b.values, entry);
      }
    case If =>
      IfIsSure(g, known, sure, b, s, f, entry);
      assert known + Declares(s) == known && sure + SurelyLeft(s) == sure;
    case Return => ReturnIsSure(g, known, sure, b, s, f, entry);
    case ExpressionStmt =>
      ExpressionIsSure(g, known, sure, b, s, f, entry);
      assert known + Declares(s) == known && sure + SurelyLeft(s) == sure;
    case DeclStmt(_) => DeclIsSure(g, known, sure, b, s, f, entry);
  }

  /** Names from outside that lack their slots before a scope lack them after it. */
  lemma OutsideStillLacks(known: set<Name>, sure: set<Name>, b: Builder, r: Builder, values: ValueMap,
                          entry: seq<set<nat>>)
    requires LacksOthers(known, sure, b, entry) && SameOn(known, b.values, values) && b.reg <= r.reg
    requires r.at < |r.blocks| && r.at < |entry| && OnlyNew(There(r, entry), There(b, entry), b.reg, r.reg)
    ensures LacksOthers(known, sure, r.(values := values), entry)
  {
    ScopedOn(known, b.values, values, b.reg, r.reg);
    var q := r.(values := values);
    assert There(q, entry) == There(r, entry);
    forall x | x in known && x !in sure
      ensures values[x].id !in There(q, entry)
    {
      assert b.values[x] == values[x] && b.values[x].id < b.reg;
    }
  }

  lemma ReturnIsSure(g: Globals, known: set<Name>, sure: set<Name>, b: Builder, s: Tree, f: Cfg, entry: seq<set<nat>>)
    requires Ready(b) && ClosedStmt(g, known, s) && s.head.Return? && LacksOthers(known, sure, b, entry)
    requires Whole(f, entry) && Grows(GenStmt(g, b, b.at, s).0.blocks, f)
    ensures SureStmt(g, sure, s) && GenStmt(g, b, b.at, s).1.None?
  {
    if s.kids != [] {
      var e := GenExpr(g, b.values, b.reg, s.kids[0]);
      var v := LoadMemory(e.value, e.reg);
      var there, last := There(b, entry), [Ret(v.value)];
      var code := e.code + v.code;
      var r := GenStmt(g, b, b.at, s).0;
      assert r.blocks[b.at] == b.blocks[b.at] + (code + last);
      assert r.blocks[b.at] <= f[b.at];
      EmittedIsSafe(f, entry, b, code + last);
      ExprWithin(g, b.values, b.reg, s.kids[0]);
      LoadUses(e.value, e.reg, there);
      WithinAppend(e.code, v.code, b.reg, e.reg, v.reg);
      SafeThen(code, b.reg, v.reg, last, there);
      SafeThen(e.code, b.reg, e.reg, v.code, there);
      ExprIsSure(g, known, sure, b.values, b.reg, s.kids[0], There(b, entry));
    }
  }

  lemma ExpressionIsSure(g: Globals, known: set<Name>, sure: set<Name>, b: Builder, s: Tree, f: Cfg,
                         entry: seq<set<nat>>)
    requires Ready(b) && ClosedStmt(g, known, s) && s.head.ExpressionStmt? && LacksOthers(known, sure, b, entry)
    requires Whole(f, entry) && Grows(GenStmt(g, b, b.at, s).0.blocks, f)
    ensures SureStmt(g, sure, s)
    ensures var r := GenStmt(g, b, b.at, s); SureOn(known, sure, b, r.0, r.1, entry)
  {
    var e := GenExpr(g, b.values, b.reg, s.kids[0]);
    var r := GenStmt(g, b, b.at, s).0;
    assert r.blocks[b.at] == b.blocks[b.at] + e.code;
    assert r.blocks[b.at] <= f[b.at];
    EmittedIsSafe(f, entry, b, e.code);
    ExprWithin(g, b.values, b.reg, s.kids[0]);
    WithinAllocatesNothing(e.code, b.reg, e.reg);
    StillLacks(known, sure, b, entry, e.code, e.reg);
    if !IsVariable(g, s.kids[0]) {
      ValueIsUsed(g, known, b.values, b.reg, s.kids[0], There(b, entry));
      ExprIsSure(g, known, sure, b.values, b.reg, s.kids[0], There(b, entry));
    }
  }

  lemma DeclIsSure(g: Globals, known: set<Name>, sure: set<Name>, b: Builder, s: Tree, f: Cfg, entry: seq<set<nat>>)
    requires Ready(b) && ClosedStmt(g, known, s) && s.head.DeclStmt? && LacksOthers(known, sure, b, entry)
    requires Whole(f, entry) && Grows(GenStmt(g, b, b.at, s).0.blocks, f)
    ensures SureStmt(g, sure, s)
    ensures var r := GenStmt(g, b, b.at, s);
            SureOn(known + {s.head.name}, sure + {s.head.name}, b, r.0, r.1, entry)
  {
    hide CodeSafe, Within, GenExpr, LoadMemory, DeclCode, ClosedExpr, GenStmt, Certified, WellFormed;
    var e := GenExpr(g, b.values, b.reg, s.kids[0]);
    var reg := LoadMemory(e.value, e.reg + 1).reg;
    var m := Emit(b.(reg := reg), DeclCode(e));
    var there := There(b, entry);
    DeclIsGenerated(g, b, s);
    ExprGrows(g, b.values, b.reg, s.kids[0]);
    LoadGrows(e.value, e.reg + 1);
    assert m.blocks[b.at] <= f[b.at];
    EmittedIsSafe(f, entry, b, DeclCode(e));
    ExprWithin(g, b.values, b.reg, s.kids[0]);
    ValueIsOld(g, known, b.values, b.reg, s.kids[0]);
    DeclIsSafe(e, b.reg, there);
    ExprIsSure(g, known, sure, b.values, b.reg, s.kids[0], There(b, entry));
    NewSlotIsSure(known, sure, b, s.head.name, e.reg, DeclCode(e), reg, entry);
  }

  /** A declared name is sure from then on. */
  lemma NewSlotIsSure(known: set<Name>, sure: set<Name>, b: Builder, x: Name, slot: nat, code: Code, reg: nat,
                      entry: seq<set<nat>>)
    requires LacksOthers(known, sure, b, entry) && x !in known && b.reg <= slot < reg && Allocs(code) == {slot}
    ensures var r := Emit(b.(reg := reg), code).(values := b.values[x := Slot(slot)]);
            SureOn(known + {x}, sure + {x}, b, r, Some(b.at), entry)
  {
    var r := Emit(b.(reg := reg), code).(values := b.values[x := Slot(slot)]);
    AllocsAppend(b.blocks[b.at], code);
    assert There(r, entry) == There(b, entry) + {slot};
  }

  lemma LoadGrows(v: Value, reg: nat)
    ensures reg <= LoadMemory(v, reg).reg
  {
  }

  lemma {:induction false} StmtsAreSure(g: Globals, known: set<Name>, sure: set<Name>, b: Builder, ss: seq<Tree>,
                                        f: Cfg, entry: seq<set<nat>>)
    requires Ready(b) && ClosedStmts(g, known, ss) && AllScopedIfs(ss) && LacksOthers(known, sure, b, entry)
    requires Whole(f, entry) && Grows(GenStmts(g, b, b.at, ss).0.blocks, f)
    ensures AllSure(g, sure, ss)
    ensures var r := GenStmts(g, b, b.at, ss);
            SureOn(known + DeclaresAll(ss), sure + AllSurelyLeft(ss), b, r.0, r.1, entry)
    decreases ss
  {
    hide GenStmt, ClosedStmt, SureStmt, Whole;
    if ss == [] {
      assert known + DeclaresAll(ss) == known && sure + AllSurelyLeft(ss) == sure;
    } else {
      var r := GenStmt(g, b, b.at, ss[0]);
      var more, left := known + Declares(ss[0]), sure + SurelyLeft(ss[0]);
      FirstOfMany(g, known, b, ss);
      StmtRegion(g, known, b, ss[0]);
      if r.1.Some? {
        GrowsTwice(r.0.blocks, GenStmts(g, b, b.at, ss).0.blocks, f);
        StmtIsSure(g, known, sure, b, ss[0], f, entry);
        StmtsAreSure(g, more, left, r.0, ss[1..], f, entry);
        assert more + DeclaresAll(ss[1..]) == known + DeclaresAll(ss);
        assert left + AllSurelyLeft(ss[1..]) == sure + AllSurelyLeft(ss);
      } else {
        StmtIsSure(g, known, sure, b, ss[0], f, entry);
      }
    }
  }

  // Branches

  /** Once its branches are generated, the block of a condition is finished. */
  lemma ConditionIsFinal(g: Globals, b: Builder, c: Builder, cond: Tree, yes: nat, no: nat, cont: Option<nat>, f: Cfg,
                         entry: seq<set<nat>>)
    requires Pending(b, c, cont) && |b.blocks| <= yes < |c.blocks| && |b.blocks| <= no < |c.blocks|
    requires b.at < |entry| && Whole(f, entry) && Grows(Branch(g, c, b.at, cond, yes, no, cont).0.blocks, f)
    ensures var e := GenExpr(g, c.values, c.reg, cond);
            CodeSafe(e.code, There(b, entry)) && SlotsOf(e.value) <= There(b, entry)
    ensures yes < |entry| && no < |entry| && entry[yes] <= There(b, entry) && entry[no] <= There(b, entry)
  {
    hide Certified, WellFormed, CodeSafe, Within, GenExpr;
    var e := GenExpr(g, c.values, c.reg, cond);
    var r := Branch(g, c, b.at, cond, yes, no, cont).0;
    var test := [IsNotNull(e.reg, e.value)] + [CondBr(Temp(e.reg), yes, no)];
    var there := There(b, entry);
    RegionBranch(g, b, c, cond, yes, no, cont);
    BranchCode(g, b, c, cond, yes, no, cont);
    assert r.blocks[b.at] == b.blocks[b.at] + (e.code + test);
    ConditionTerminated(g, b, c, cond, yes, no, cont);
    FinalBlock(f, entry, r.blocks, b.at);
    EmittedIsSafe(f, entry, b, e.code + test);
    ExprWithin(g, c.values, c.reg, cond);
    SafeThen(e.code, c.reg, e.reg, test, there);
    TestUses(e, yes, no, there);
    WithinAllocatesNothing(e.code, c.reg, e.reg);
    AllocsAppend(e.code, test);
    AllocsAppend(b.blocks[b.at], e.code + test);
    assert There(b, entry) == entry[b.at] + Allocs(f[b.at]);
    assert yes in Succs(f[b.at]) && no in Succs(f[b.at]);
    EdgeLeads(f, entry, b.at, yes);
    EdgeLeads(f, entry, b.at, no);
  }

  lemma ConditionTerminated(g: Globals, b: Builder, c: Builder, cond: Tree, yes: nat, no: nat, cont: Option<nat>)
    requires Pending(b, c, cont) && |b.blocks| <= yes < |c.blocks| && |b.blocks| <= no < |c.blocks|
    ensures var r := Branch(g, c, b.at, cond, yes, no, cont).0; b.at < |r.blocks| && Terminated(r.blocks[b.at])
  {
    RegionBranch(g, b, c, cond, yes, no, cont);
    var r := Branch(g, c, b.at, cond, yes, no, cont).0;
    assert IsPart(b, r, b.at);
  }

  lemma FinalBlock(f: Cfg, entry: seq<set<nat>>, blocks: Cfg, i: nat)
    requires Whole(f, entry) && Grows(blocks, f) && i < |blocks| && Terminated(blocks[i])
    ensures i < |f| == |entry| && f[i] == blocks[i]
  {
    TerminatedIsFinal(blocks[i], f[i]);
  }

  lemma EdgeLeads(f: Cfg, entry: seq<set<nat>>, i: nat, t: nat)
    requires Whole(f, entry) && i < |f| && t in Succs(f[i])
    ensures i < |entry| && t < |entry| && entry[t] <= entry[i] + Allocs(f[i])
  {
    assert LeadsOn(f, entry, i);
  }

  /** A new branch lacks what the names of earlier branches would need. */
  lemma BranchLacks(known: set<Name>, inner: set<Name>, sure: set<Name>, b: Builder, c: Builder, entry: seq<set<nat>>)
    requires LacksOthers(known, sure, b, entry) && KeepsScope(known, inner, b, c)
    requires |c.blocks| < |entry| && entry[|c.blocks|] <= There(b, entry)
    ensures LacksOthers(inner, sure, StartBranch(c), entry) && There(StartBranch(c), entry) == entry[|c.blocks|]
  {
    var start := StartBranch(c);
    assert start.blocks[start.at] == [] && There(start, entry) == entry[|c.blocks|] + {};
    forall x | x in inner && x !in sure
      ensures start.values[x].id !in There(start, entry)
    {
      if x in known {
        assert b.values[x] == c.values[x];
      }
    }
  }

  /** What is there in the continue block was there when a branch that leads to it
      began, or was allocated in the branch. */
  lemma JoinIsNew(b: Builder, c: Builder, cont: Option<nat>, r: Builder, end: Option<nat>, f: Cfg,
                  entry: seq<set<nat>>)
    requires Pending(b, c, cont) && Region(StartBranch(c), r, end) && end.Some?
    requires Whole(f, entry) && Grows(Join(r, end, cont).b.blocks, f)
    ensures var j := Join(r, end, cont);
            r.at < |entry| && j.cont.value < |entry| && entry[j.cont.value] <= There(r, entry)
  {
    var j := Join(r, end, cont);
    var jump := [Br(j.cont.value)];
    PendingBranch(b, c, cont, r, end);
    assert IsPart(StartBranch(c), r, r.at);
    assert j.b.blocks[r.at] == r.blocks[r.at] + jump;
    assert j.cont != Some(r.at);
    FinalBlock(f, entry, j.b.blocks, r.at);
    SuccsAppend(r.blocks[r.at], jump);
    assert jump[..0] == [] && jump[1..] == [];
    AllocsAppend(r.blocks[r.at], jump);
    assert j.cont.value in Succs(jump);
    EdgeLeads(f, entry, r.at, j.cont.value);
  }

  lemma {:induction false} BranchIsSure(g: Globals, known: set<Name>, sure: set<Name>, b: Builder, c: Builder,
                                        cont: Option<nat>, s: Tree, f: Cfg, entry: seq<set<nat>>)
    requires Pending(b, c, cont) && ClosedStmt(g, known, s) && ScopedIfs(s)
    requires LacksOthers(known, sure, StartBranch(c), entry)
    requires Whole(f, entry) && Grows(AddBranch(g, c, cont, s).b.blocks, f)
    ensures SureStmt(g, sure, s)
    ensures var j := AddBranch(g, c, cont, s);
            GenStmt(g, StartBranch(c), |c.blocks|, s).1.Some? ==>
              j.cont.Some? && j.cont.value < |entry| &&
              OnlyNew(entry[j.cont.value], There(StartBranch(c), entry), c.reg, j.b.reg)
    decreases s, 3
  {
    hide GenStmt, ClosedStmt, SureStmt, Whole;
    var start := StartBranch(c);
    var r := GenStmt(g, start, |c.blocks|, s);
    StmtRegion(g, known, start, s);
    JoinGrows(r.0, r.1, cont);
    GrowsTwice(r.0.blocks, Join(r.0, r.1, cont).b.blocks, f);
    StmtIsSure(g, known, sure, start, s, f, entry);
    if r.1.Some? {
      JoinIsNew(b, c, cont, r.0, r.1, f, entry);
    }
  }

  lemma LacksScoped(known: set<Name>, sure: set<Name>, b: Builder, entry: seq<set<nat>>)
    requires LacksOthers(known, sure, b, entry)
    ensures b.at < |b.blocks| && b.at < |entry| && sure <= known && Scoped(known, b.values, b.reg)
  {
  }

  /** The condition of an `if`, whose code is generated in the scope of its
      branches. */
  lemma ConditionIsSure(g: Globals, known: set<Name>, most: set<Name>, sure: set<Name>, b: Builder, c: Builder,
                        cond: Tree, entry: seq<set<nat>>)
    requires ClosedExpr(g, known, cond) && LacksOthers(known, sure, b, entry) && KeepsScope(known, most, b, c)
    requires var e := GenExpr(g, c.values, c.reg, cond);
             CodeSafe(e.code, There(b, entry)) && SlotsOf(e.value) <= There(b, entry)
    ensures ClosedExpr(g, sure, cond)
  {
    ExprIsSure(g, known, sure, c.values, c.reg, cond, There(b, entry));
  }

  /** The finished `if`: in its continue block there is only what was there before
      it, or is new. */
  lemma IfLacks(g: Globals, known: set<Name>, most: set<Name>, sure: set<Name>, b: Builder, c: Builder, cond: Tree,
                yes: nat, no: nat, cont: Option<nat>, entry: seq<set<nat>>)
    requires Pending(b, c, cont) && KeepsScope(known, most, b, c) && LacksOthers(known, sure, b, entry)
    requires cont.Some? ==> cont.value < |entry| && OnlyNew(entry[cont.value], There(b, entry), b.reg, c.reg)
    ensures var r := Branch(g, c, b.at, cond, yes, no, cont); SureOn(known, sure, b, r.0, r.1, entry)
  {
    var r := Branch(g, c, b.at, cond, yes, no, cont).0;
    ExprGrows(g, c.values, c.reg, cond);
    if cont.Some? {
      assert r.blocks[cont.value] == [] && There(r, entry) == entry[cont.value] + {};
      OutsideStillLacks(known, sure, b, r, r.values, entry);
      assert r.(values := r.values) == r;
    }
  }

  lemma {:induction false} IfIsSure(g: Globals, known: set<Name>, sure: set<Name>, b: Builder, s: Tree, f: Cfg,
                                    entry: seq<set<nat>>)
    requires Ready(b) && ClosedStmt(g, known, s) && ScopedIfs(s) && s.head.If? && LacksOthers(known, sure, b, entry)
    requires Whole(f, entry) && Grows(GenStmt(g, b, b.at, s).0.blocks, f)
    ensures SureStmt(g, sure, s)
    ensures var r := GenStmt(g, b, b.at, s); SureOn(known, sure, b, r.0, r.1, entry)
    decreases s, 1
  {
    hide GenStmt, Whole, Pending, Grows, KeepsScope, LacksOthers, CodeSafe, Region;
    var first := AddBranch(g, b, None, s.kids[1]);
    var (j, no) := IfBranches(g, b, s);
    var all := GenStmt(g, b, b.at, s).0;
    LacksScoped(known, sure, b, entry);
    IfBuilt(g, known, b, s);
    assert known + Declares(s.kids[1]) == known && known + Declares(s) == known;
    RegionBranchGrows(g, b, j.b, s.kids[0], |b.blocks|, no, j.cont);
    GrowsTwice(j.b.blocks, all.blocks, f);
    GrowsTwice(first.b.blocks, j.b.blocks, f);
    ConditionIsFinal(g, b, j.b, s.kids[0], |b.blocks|, no, j.cont, f, entry);
    ConditionIsSure(g, known, known, sure, b, j.b, s.kids[0], entry);
    KeepsScoped(known, known, b, first.b);
    KeepsScoped(known, known, b, j.b);
    SelfKept(known, b);
    PendingStarts(b);
    BranchLacks(known, known, sure, b, b, entry);
    BranchIsSure(g, known, sure, b, b, None, s.kids[1], f, entry);
    if |s.kids| > 2 {
      BranchLacks(known, known, sure, b, first.b, entry);
      BranchIsSure(g, known, sure, b, first.b, first.cont, s.kids[2], f, entry);
      KeepsScoped(known, known, first.b, j.b);
    }
    IfLacks(g, known, known, sure, b, j.b, s.kids[0], |b.blocks|, no, j.cont, entry);
  }

  lemma SelfKept(known: set<Name>, b: Builder)
    requires Scoped(known, b.values, b.reg)
    ensures KeepsScope(known, known, b, b)
  {
  }

  // Meta trees

  lemma RegionLacks(known: set<Name>, sure: set<Name>, b: Builder, f: Cfg, entry: seq<set<nat>>)
    requires Ready(b) && LacksOthers(known, sure, b, entry) && Whole(f, entry) && Grows(CreateRegion(b).blocks, f)
    ensures var region := CreateRegion(b);
            LacksOthers(known, sure, region, entry) && There(region, entry) <= There(b, entry)
  {
    var region, jump := CreateRegion(b), [Br(|b.blocks|)];
    RegionCreated(b);
    assert IsPart(b, region, b.at);
    assert region.blocks[b.at] == b.blocks[b.at] + jump;
    FinalBlock(f, entry, region.blocks, b.at);
    SuccsAppend(b.blocks[b.at], jump);
    AllocsAppend(b.blocks[b.at], jump);
    assert jump[1..] == [] && jump[..0] == [];
    assert |b.blocks| in Succs(jump);
    EdgeLeads(f, entry, b.at, |b.blocks|);
    assert There(b, entry) == entry[b.at] + Allocs(f[b.at]);
    assert region.blocks[region.at] == [] && There(region, entry) == entry[|b.blocks|] + {};
  }

  lemma {:induction false} IntroduceAllocatesNothing(xs: seq<Name>, values: ValueMap, inside: bool)
    ensures Allocs(IntroduceCode(xs, values, inside)) == {}
    decreases xs
  {
    if xs != [] {
      var code := IntroduceCode(xs, values, inside);
      assert code[1..] == IntroduceCode(xs[1..], values, inside);
      IntroduceAllocatesNothing(xs[1..], values, inside);
    }
  }

  /** The same after code that allocates nothing. */
  lemma SureOnLater(known: set<Name>, sure: set<Name>, b: Builder, r: Builder, entry: seq<set<nat>>, code: Code)
    requires b.at < |b.blocks| && b.at < |entry| && SureOn(known, sure, b, r, Some(r.at), entry) && Allocs(code) == {}
    ensures SureOn(known, sure, b, Emit(r, code), Some(r.at), entry)
  {
    StillLacks(known, sure, r, entry, code, r.reg);
    EmitSameReg(r, code);
  }

  lemma {:induction false} MetaIsSure(g: Globals, known: set<Name>, sure: set<Name>, b: Builder, inside: bool, t: Tree,
                                      f: Cfg, entry: seq<set<nat>>)
    requires Ready(b) && ClosedMeta(g, known, inside, t) && ScopedCalculations(t) && LacksOthers(known, sure, b, entry)
    requires Whole(f, entry) && Grows(GenMeta(g, b, b.at, inside, t).0.blocks, f)
    ensures KeepsToBranches(g, sure, t)
    ensures var r := GenMeta(g, b, b.at, inside, t).0;
            SureOn(known + DeclaresMeta(t), sure + SurelyDeclares(t), b, r, Some(r.at), entry)
    decreases t, 2
  {
    hide LacksOthers;
    if t.head.MetaContribution? {
      MetasAreSure(g, known, sure, b, inside, t.kids, f, entry);
    } else if t.head.MetaIf? {
      MetaIfIsSure(g, known, sure, b, inside, t, f, entry);
      assert sure + SurelyDeclares(t) == sure;
    } else if t.head.MetaCalculation? {
      CalculationIsSure(g, known, sure, b, inside, t, f, entry);
    } else {
      CopyIsSure(g, known, sure, b, inside, t, f, entry);
    }
  }

  lemma CalculationIsSure(g: Globals, known: set<Name>, sure: set<Name>, b: Builder, inside: bool, t: Tree, f: Cfg,
                          entry: seq<set<nat>>)
    requires Ready(b) && ClosedMeta(g, known, inside, t) && ScopedCalculations(t) && LacksOthers(known, sure, b, entry)
    requires Whole(f, entry) && Grows(GenMeta(g, b, b.at, inside, t).0.blocks, f) && t.head.MetaCalculation?
    ensures KeepsToBranches(g, sure, t)
    ensures var r := GenMeta(g, b, b.at, inside, t).0;
            SureOn(known + DeclaresMeta(t), sure + SurelyDeclares(t), b, r, Some(r.at), entry)
  {
    hide GenStmt, ClosedStmt, SureStmt, Whole, Grows, IntroduceCode, LacksOthers, Scoped;
    var s, region := t.kids[0], CreateRegion(b);
    var r := GenStmt(g, region, region.at, s);
    var code := IntroduceCode(Exports(s), r.0.values, inside);
    StmtRegionOf(g, known, b, s);
    CalculationGrows(g, known, b, s, code, f);
    RegionLacks(known, sure, b, f, entry);
    StmtIsSure(g, known, sure, region, s, f, entry);
    FromRegion(known + Declares(s), sure + SurelyLeft(s), b, r.0, entry);
    IntroduceAllocatesNothing(Exports(s), r.0.values, inside);
    SureOnLater(known + Declares(s), sure + SurelyLeft(s), b, r.0, entry, code);
  }

  lemma StmtRegionOf(g: Globals, known: set<Name>, b: Builder, s: Tree)
    requires Ready(b) && ClosedStmt(g, known, s) && !Terminates(s)
    ensures var region := CreateRegion(b);
            var r := GenStmt(g, region, region.at, s);
            Ready(region) && r.1 == Some(r.0.at) && r.0.at < |r.0.blocks|
  {
    RegionCreated(b);
    StmtRegion(g, known, CreateRegion(b), s);
  }

  lemma FromRegion(known: set<Name>, sure: set<Name>, b: Builder, r: Builder, entry: seq<set<nat>>)
    requires b.at < |b.blocks| && b.at < |entry| && |b.blocks| < |entry|
    requires SureOn(known, sure, CreateRegion(b), r, Some(r.at), entry)
    requires There(CreateRegion(b), entry) <= There(b, entry)
    ensures SureOn(known, sure, b, r, Some(r.at), entry)
  {
  }

  lemma {:induction false} CopyIsSure(g: Globals, known: set<Name>, sure: set<Name>, b: Builder, inside: bool, t: Tree,
                                      f: Cfg, entry: seq<set<nat>>)
    requires Ready(b) && ClosedMeta(g, known, inside, t) && ScopedCalculations(t) && LacksOthers(known, sure, b, entry)
    requires Whole(f, entry) && Grows(GenMeta(g, b, b.at, inside, t).0.blocks, f) && IsPlain(t.head)
    ensures KeepsToBranches(g, sure, t)
    ensures var r := GenMeta(g, b, b.at, inside, t).0;
            SureOn(known + DeclaresMeta(t), sure + SurelyDeclares(t), b, r, Some(r.at), entry)
    decreases t, 0
  {
    hide GenMeta, GenMetas, ClosedMeta, Whole, Grows, LacksOthers, Scoped, KeepsScope;
    var start, deeper := MetaStart(b, t.head), Deeper(inside, t.head);
    var r := GenMetas(g, start, start.at, deeper, t.kids).0;
    var contribute := Contribute(t.head);
    ClosedPlain(g, known, inside, t);
    GenCopy(g, b, inside, t);
    CopyGrows(g, known, b, deeper, t, f);
    assert [contribute][1..] == [] && [Reduce][1..] == [];
    LacksScoped(known, sure, b, entry);
    StillLacks(known, sure, b, entry, [contribute], b.reg);
    EmitSameReg(b, [contribute]);
    MetasAreSure(g, known, sure, start, deeper, t.kids, f, entry);
    MetasRegion(g, known, start, deeper, t.kids);
    if Opens(t.head) {
      MetasScope(g, known, start, deeper, t.kids);
      assert known + DeclaresMeta(t) == known && sure + SurelyDeclares(t) == sure;
      LacksScoped(known + DeclaresMetas(t.kids), sure + SurelyDeclaresAll(t.kids), r, entry);
      ScopeEnds(known, known + DeclaresMetas(t.kids), sure, start, r, entry);
    }
    SureOnLater(known + DeclaresMeta(t), sure + SurelyDeclares(t), b, r, entry, [Reduce]);
  }

  lemma ScopeEnds(known: set<Name>, more: set<Name>, sure: set<Name>, b: Builder, r: Builder, entry: seq<set<nat>>)
    requires LacksOthers(known, sure, b, entry) && KeepsScope(known, more, b, r) && r.at < |r.blocks| && r.at < |entry|
    requires OnlyNew(There(r, entry), There(b, entry), b.reg, r.reg)
    ensures LacksOthers(known, sure, r, entry)
  {
    OutsideStillLacks(known, sure, b, r, r.values, entry);
    assert r.(values := r.values) == r;
  }

  lemma {:induction false} MetasAreSure(g: Globals, known: set<Name>, sure: set<Name>, b: Builder, inside: bool,
                                        ts: seq<Tree>, f: Cfg, entry: seq<set<nat>>)
    requires Ready(b) && ClosedMetas(g, known, inside, ts) && AllScopedCalculations(ts)
    requires LacksOthers(known, sure, b, entry)
    requires Whole(f, entry) && Grows(GenMetas(g, b, b.at, inside, ts).0.blocks, f)
    ensures AllKeepToBranches(g, sure, ts)
    ensures var r := GenMetas(g, b, b.at, inside, ts).0;
            SureOn(known + DeclaresMetas(ts), sure + SurelyDeclaresAll(ts), b, r, Some(r.at), entry)
    decreases ts, 0
  {
    hide GenMeta, ClosedMeta, KeepsToBranches, Whole;
    if ts == [] {
      assert known + DeclaresMetas(ts) == known && sure + SurelyDeclaresAll(ts) == sure;
    } else {
      var r := GenMeta(g, b, b.at, inside, ts[0]).0;
      var more, left := known + DeclaresMeta(ts[0]), sure + SurelyDeclares(ts[0]);
      FirstMeta(g, known, b, inside, ts);
      MetaRegion(g, known, b, inside, ts[0]);
      GrowsTwice(r.blocks, GenMetas(g, b, b.at, inside, ts).0.blocks, f);
      MetaIsSure(g, known, sure, b, inside, ts[0], f, entry);
      MetasAreSure(g, more, left, r, inside, ts[1..], f, entry);
      assert more + DeclaresMetas(ts[1..]) == known + DeclaresMetas(ts);
      assert left + SurelyDeclaresAll(ts[1..]) == sure + SurelyDeclaresAll(ts);
    }
  }

  lemma {:induction false} MetaBranchIsSure(g: Globals, known: set<Name>, sure: set<Name>, b: Builder, c: Builder,
                                            cont: Option<nat>, inside: bool, t: Tree, f: Cfg, entry: seq<set<nat>>)
    requires Pending(b, c, cont) && ClosedMeta(g, known, inside, t) && ScopedCalculations(t)
    requires LacksOthers(known, sure, StartBranch(c), entry)
    requires Whole(f, entry) && Grows(AddMetaBranch(g, c, cont, inside, t).b.blocks, f)
    ensures KeepsToBranches(g, sure, t)
    ensures var j := AddMetaBranch(g, c, cont, inside, t);
            j.cont.Some? && j.cont.value < |entry| &&
            OnlyNew(entry[j.cont.value], There(StartBranch(c), entry), c.reg, j.b.reg)
    decreases t, 3
  {
    hide GenMeta, ClosedMeta, KeepsToBranches, Whole;
    var start := StartBranch(c);
    var r := GenMeta(g, start, |c.blocks|, inside, t);
    MetaRegion(g, known, start, inside, t);
    JoinGrows(r.0, r.1, cont);
    GrowsTwice(r.0.blocks, Join(r.0, r.1, cont).b.blocks, f);
    MetaIsSure(g, known, sure, start, inside, t, f, entry);
    JoinIsNew(b, c, cont, r.0, r.1, f, entry);
  }

  /** Behind a meta-if only what was there before it is there on both ways. */
  lemma MetaIfLacks(g: Globals, known: set<Name>, most: set<Name>, sure: set<Name>, b: Builder, c: Builder, cond: Tree,
                    yes: nat, no: nat, cont: nat, entry: seq<set<nat>>)
    requires Pending(b, c, Some(cont)) && KeepsScope(known, most, b, c) && LacksOthers(known, sure, b, entry)
    requires cont < |entry| && entry[cont] <= There(b, entry)
    ensures var r := Branch(g, c, b.at, cond, yes, no, Some(cont)).0; SureOn(most, sure, b, r, Some(r.at), entry)
  {
    var r := Branch(g, c, b.at, cond, yes, no, Some(cont)).0;
    ExprGrows(g, c.values, c.reg, cond);
    assert r.blocks[cont] == [] && There(r, entry) == entry[cont] + {};
    forall x | x in most && x !in sure
      ensures r.values[x].id !in There(r, entry)
    {
      if x in known {
        assert b.values[x] == c.values[x];
      }
    }
  }

  lemma {:induction false} MetaIfIsSure(g: Globals, known: set<Name>, sure: set<Name>, b: Builder, inside: bool,
                                        t: Tree, f: Cfg, entry: seq<set<nat>>)
    requires Ready(b) && ClosedMeta(g, known, inside, t) && ScopedCalculations(t) && LacksOthers(known, sure, b, entry)
    requires Whole(f, entry) && Grows(GenMeta(g, b, b.at, inside, t).0.blocks, f) && t.head.MetaIf?
    ensures KeepsToBranches(g, sure, t)
    ensures var r := GenMeta(g, b, b.at, inside, t).0;
            SureOn(known + DeclaresMeta(t), sure, b, r, Some(r.at), entry)
    decreases t, 1
  {
    hide GenMeta, Whole, Pending, Grows, KeepsScope, LacksOthers, CodeSafe, Region;
    var first := AddMetaBranch(g, b, None, inside, t.kids[1]);
    var (j, no) := MetaIfBranches(g, b, inside, t);
    var all := GenMeta(g, b, b.at, inside, t).0;
    var inner, most := known + DeclaresMeta(t.kids[1]), known + DeclaresMeta(t);
    LacksScoped(known, sure, b, entry);
    MetaIfBuilt(g, known, b, inside, t);
    RegionBranchGrows(g, b, j.b, t.kids[0], |b.blocks|, no, j.cont);
    GrowsTwice(j.b.blocks, all.blocks, f);
    GrowsTwice(first.b.blocks, j.b.blocks, f);
    ConditionIsFinal(g, b, j.b, t.kids[0], |b.blocks|, no, j.cont, f, entry);
    ConditionIsSure(g, known, most, sure, b, j.b, t.kids[0], entry);
    SelfKept(known, b);
    PendingStarts(b);
    BranchLacks(known, known, sure, b, b, entry);
    MetaBranchIsSure(g, known, sure, b, b, None, inside, t.kids[1], f, entry);
    if |t.kids| > 2 {
      BranchLacks(known, inner, sure, b, first.b, entry);
      MetaBranchIsSure(g, inner, sure, b, first.b, first.cont, inside, t.kids[2], f, entry);
    }
    MetaIfLacks(g, known, most, sure, b, j.b, t.kids[0], |b.blocks|, no, j.cont.value, entry);
  }

  // Whole functions

  lemma StartsLacking(known: set<Name>, b: Builder, entry: seq<set<nat>>)
    requires b.at == 0 < |b.blocks| && entry != [] && entry[0] == {} && Scoped(known, b.values, b.reg)
    requires forall k | k in There(b, [{}]) :: k < b.reg
    ensures LacksOthers(known, known, b, entry)
  {
    assert There(b, entry) == There(b, [{}]);
  }

  /** A generated function has dominance exactly when it uses no name that a
      branch may have left undeclared. */
  lemma FunctionDominatedIff(g: Globals, ps: Params, body: Tree)
    requires ClosedFunction(g, ps, body) && ScopedIfs(body)
    ensures Dominated(GenFunction(g, ps, body)) <==> SureStmt(g, ParamNames(ps), body)
  {
    var f := GenFunction(g, ps, body);
    FunctionWellFormed(g, ps, body);
    if SureStmt(g, ParamNames(ps), body) {
      FunctionDominated(g, ps, body);
    }
    if Dominated(f) {
      DominatedIsCertifiable(f);
      var entry: seq<set<nat>> :| Certified(f, entry) && entry[0] == {};
      var b := SetUpStackFrame(ENTRY, ps, 0);
      var r := GenStmt(g, b, b.at, body);
      BodyRegion(g, ps, body);
      EntryCovered(g, ps);
      StartsLacking(ParamNames(ps), b, entry);
      FinalReturn(r.0, r.1);
      StmtIsSure(g, ParamNames(ps), ParamNames(ps), b, body, f, entry);
    }
  }

  /** A compiled meta declaration has dominance exactly when it keeps to the
      branches of its meta-ifs. */
  lemma MetaDominatedIff(g: Globals, ps: Params, contribution: Tree)
    requires ClosedMetaFunction(g, ps, contribution) && ScopedCalculations(contribution)
    ensures Dominated(GenMetaFunction(g, ps, contribution)) <==> KeepsToBranches(g, ParamNames(ps), contribution)
  {
    var f := GenMetaFunction(g, ps, contribution);
    MetaFunctionWellFormed(g, ps, contribution);
    if KeepsToBranches(g, ParamNames(ps), contribution) {
      MetaFunctionDominated(g, ps, contribution);
    }
    if Dominated(f) {
      DominatedIsCertifiable(f);
      var entry: seq<set<nat>> :| Certified(f, entry) && entry[0] == {};
      var b := MetaFrame(ps);
      var r := GenMeta(g, b, b.at, false, contribution);
      MetaFrameRegion(g, ps);
      MetaFrameCovered(g, ps);
      StartsLacking(ParamNames(ps), b, entry);
      MetaRegion(g, ParamNames(ps), b, false, contribution);
      FinalReturn(r.0, r.1);
      MetaIsSure(g, ParamNames(ps), ParamNames(ps), b, false, contribution, f, entry);
    }
  }
}
