/** Slots are allocated before they are used, on every path: dominance, as LLVM
    understands it, for the slots of generated code (src/Codegen/FunctionCodegen.cpp). */
module Dominance {
  import opened Wrappers
  import opened Ast
  import opened Machine
  import opened Semantics
  import opened ExprCodegen
  import opened Graph
  import opened Runs
  import opened StmtCodegen
  import opened Simulation
  import opened WaysThrough

  function SlotsOf(v: Value): set<nat> {
    if v.Slot? then {v.id} else {}
  }

  /** The slots an instruction needs to be there. */
  function UsesOf(i: Instr): set<nat> {
    match i
    case Load(_, p) => SlotsOf(p)
    case Store(v, p) => SlotsOf(v) + SlotsOf(p)
    case CallSym(_, callee, _) => SlotsOf(callee)
    case IsNotNull(_, v) => SlotsOf(v)
    case Introduce(_, p, _) => SlotsOf(p)
    case _ => {}
  }

  function AllocOf(i: Instr): set<nat> {
    if i.Alloca? then {i.slot} else {}
  }

  function Allocs(code: Code): set<nat> {
    if code == [] then {} else AllocOf(code[0]) + Allocs(code[1..])
  }

  /** Run where some slots are there, the code uses none before it is. */
  predicate CodeSafe(code: Code, there: set<nat>)
    decreases code
  {
    code == [] || (UsesOf(code[0]) <= there && CodeSafe(code[1..], there + AllocOf(code[0])))
  }

  /** The sets say which slots are there when a block is entered, whatever path
      led to it, and every use is covered. */
  ghost predicate Certified(f: Cfg, entry: seq<set<nat>>) {
    |entry| == |f| &&
    (forall i | 0 <= i < |f| :: CodeSafe(f[i], entry[i])) &&
    forall i | 0 <= i < |f| :: LeadsOn(f, entry, i)
  }

  ghost predicate LeadsOn(f: Cfg, entry: seq<set<nat>>, i: nat)
    requires i < |f| == |entry|
  {
    forall t | t in Succs(f[i]) :: t < |f| && entry[t] <= entry[i] + Allocs(f[i])
  }

  ghost predicate Certifiable(f: Cfg) {
    f != [] && exists entry: seq<set<nat>> :: Certified(f, entry) && entry[0] == {}
  }

  /** A way control may take from the entry, block by block. */
  predicate IsPath(f: Cfg, path: seq<nat>) {
    path != [] && path[0] == 0 && (forall i | 0 <= i < |path| :: path[i] < |f|) &&
    forall i | 0 < i < |path| :: path[i] in Succs(f[path[i - 1]])
  }

  /** The slots that are allocated in the blocks before the last one. */
  function AllocatedOn(f: Cfg, path: seq<nat>): set<nat>
    requires forall i | 0 <= i < |path| :: path[i] < |f|
    decreases path
  {
    if |path| <= 1 then {} else AllocatedOn(f, path[..|path| - 1]) + Allocs(f[path[|path| - 2]])
  }

  ghost predicate SafeOn(f: Cfg, path: seq<nat>) {
    IsPath(f, path) ==> CodeSafe(f[path[|path| - 1]], AllocatedOn(f, path))
  }

  /** Every slot is allocated before it is used, on every path from the entry. */
  ghost predicate Dominated(f: Cfg) {
    f != [] && forall path :: SafeOn(f, path)
  }

  // What dominance means for runs

  lemma {:induction false} AllocsAppend(a: Code, b: Code)
    ensures Allocs(a + b) == Allocs(a) + Allocs(b)
    decreases a
  {
    if a == [] {
      assert a + b == b;
    } else {
      assert (a + b)[1..] == a[1..] + b;
      AllocsAppend(a[1..], b);
    }
  }

  lemma {:induction false} SafeAppend(a: Code, b: Code, there: set<nat>)
    ensures CodeSafe(a + b, there) <==> CodeSafe(a, there) && CodeSafe(b, there + Allocs(a))
    decreases a
  {
    if a == [] {
      assert a + b == b;
      assert there + Allocs(a) == there;
    } else {
      assert (a + b)[1..] == a[1..] + b;
      SafeAppend(a[1..], b, there + AllocOf(a[0]));
      assert there + AllocOf(a[0]) + Allocs(a[1..]) == there + Allocs(a);
    }
  }

  lemma {:induction false} SafeMore(code: Code, there: set<nat>, more: set<nat>)
    requires CodeSafe(code, there) && there <= more
    ensures CodeSafe(code, more)
    decreases code
  {
    if code != [] {
      SafeMore(code[1..], there + AllocOf(code[0]), more + AllocOf(code[0]));
    }
  }

  lemma UseIsCovered(code: Code, i: nat, there: set<nat>)
    requires CodeSafe(code, there) && i < |code|
    ensures UsesOf(code[i]) <= there + Allocs(code[..i])
    ensures Allocs(code[..i + 1]) == Allocs(code[..i]) + AllocOf(code[i])
  {
    assert code == code[..i] + code[i..];
    SafeAppend(code[..i], code[i..], there);
    assert code[..i + 1] == code[..i] + [code[i]];
    AllocsAppend(code[..i], [code[i]]);
    assert [code[i]][1..] == [];
  }

  /** What is there at a point of a run. */
  ghost predicate IsThere(f: Cfg, entry: seq<set<nat>>, c: Conf) {
    c.At? ==>
      c.block < |f| == |entry| && c.pos <= |f[c.block]| &&
      entry[c.block] + Allocs(f[c.block][..c.pos]) <= c.st.slots.Keys
  }

  lemma StaysThere(f: Cfg, call: Oracle, entry: seq<set<nat>>, c: Conf)
    requires Certified(f, entry) && WellFormed(f) && IsThere(f, entry, c)
    ensures IsThere(f, entry, Step(f, call, c))
  {
    if c.At? && c.pos < |f[c.block]| && Step(f, call, c).At? {
      var code, next := f[c.block], Step(f, call, c);
      UseIsCovered(code, c.pos, entry[c.block]);
      if IsTerminator(code[c.pos]) {
        TargetsAreSuccs(code, c.pos);
        assert forall k | 0 <= k < |code| - 1 :: code[..|code| - 1][k] == code[k];
        assert c.pos == |code| - 1;
        assert code[..|code|] == code;
        assert LeadsOn(f, entry, c.block);
        assert f[next.block][..0] == [];
        assert entry[next.block] <= entry[c.block] + Allocs(code);
        assert AllocOf(code[c.pos]) == {};
      }
    }
  }

  lemma {:induction false} StaysThereLong(f: Cfg, call: Oracle, entry: seq<set<nat>>, c: Conf, n: nat)
    requires Certified(f, entry) && WellFormed(f) && IsThere(f, entry, c)
    ensures IsThere(f, entry, StepN(f, call, c, n))
    decreases n
  {
    if n != 0 {
      StaysThere(f, call, entry, c);
      StaysThereLong(f, call, entry, Step(f, call, c), n - 1);
    }
  }

  /** The next instruction finds all slots it uses. */
  ghost predicate FindsSlots(f: Cfg, c: Conf) {
    c.At? && c.block < |f| && c.pos < |f[c.block]| ==> UsesOf(f[c.block][c.pos]) <= c.st.slots.Keys
  }

  /** No run of a graph with dominance ever uses a slot that was not allocated. */
  lemma DominatedRuns(f: Cfg, call: Oracle, args: seq<int>, n: nat)
    requires Dominated(f) && WellFormed(f)
    ensures FindsSlots(f, StepN(f, call, Start(args), n))
  {
    DominatedIsCertifiable(f);
    var entry: seq<set<nat>> :| Certified(f, entry) && entry[0] == {};
    assert f[0][..0] == [];
    StaysThereLong(f, call, entry, Start(args), n);
    var c := StepN(f, call, Start(args), n);
    if c.At? && c.block < |f| && c.pos < |f[c.block]| {
      UseIsCovered(f[c.block], c.pos, entry[c.block]);
    }
  }

  // Paths and certificates

  lemma PathPrefix(f: Cfg, path: seq<nat>)
    requires IsPath(f, path) && |path| > 1
    ensures IsPath(f, path[..|path| - 1]) && path[|path| - 1] in Succs(f[path[|path| - 2]])
    ensures path[..|path| - 1][|path| - 2] == path[|path| - 2]
  {
  }

  /** What a certificate says of a block is true of every path to it. */
  lemma {:induction false} CertifiedPath(f: Cfg, entry: seq<set<nat>>, path: seq<nat>)
    requires f != [] && Certified(f, entry) && entry[0] == {} && IsPath(f, path)
    ensures entry[path[|path| - 1]] <= AllocatedOn(f, path)
    decreases path
  {
    if |path| > 1 {
      PathPrefix(f, path);
      CertifiedPath(f, entry, path[..|path| - 1]);
      assert LeadsOn(f, entry, path[|path| - 2]);
    }
  }

  lemma CertifiableIsDominated(f: Cfg)
    requires Certifiable(f)
    ensures Dominated(f)
  {
    var entry: seq<set<nat>> :| Certified(f, entry) && entry[0] == {};
    forall path | IsPath(f, path)
      ensures SafeOn(f, path)
    {
      var last := path[|path| - 1];
      CertifiedPath(f, entry, path);
      SafeMore(f[last], entry[last], AllocatedOn(f, path));
    }
  }

  function UsesAll(code: Code): set<nat> {
    if code == [] then {} else UsesOf(code[0]) + UsesAll(code[1..])
  }

  function Used(f: Cfg): set<nat> {
    if f == [] then {} else UsesAll(f[0]) + Used(f[1..])
  }

  lemma {:induction false} UsedHolds(f: Cfg, i: nat)
    requires i < |f|
    ensures UsesAll(f[i]) <= Used(f)
    decreases f
  {
    if i != 0 {
      UsedHolds(f[1..], i - 1);
    }
  }

  ghost predicate LeadsTo(f: Cfg, path: seq<nat>, i: nat) {
    IsPath(f, path) && path[|path| - 1] == i
  }

  /** The slots, among the used ones, that every path to a block allocates. */
  ghost function EntryOf(f: Cfg, i: nat): set<nat> {
    set k | k in Used(f) && forall path | LeadsTo(f, path, i) :: k in AllocatedOn(f, path)
  }

  lemma {:induction false} MeetIsSafe(f: Cfg, i: nat, code: Code, more: set<nat>)
    requires UsesAll(code) <= Used(f)
    requires forall path | LeadsTo(f, path, i) :: CodeSafe(code, AllocatedOn(f, path) + more)
    ensures CodeSafe(code, EntryOf(f, i) + more)
    decreases code
  {
    if code != [] {
      var next := more + AllocOf(code[0]);
      forall path | LeadsTo(f, path, i)
        ensures UsesOf(code[0]) <= AllocatedOn(f, path) + more
        ensures CodeSafe(code[1..], AllocatedOn(f, path) + next)
      {
        assert CodeSafe(code, AllocatedOn(f, path) + more);
        assert AllocatedOn(f, path) + more + AllocOf(code[0]) == AllocatedOn(f, path) + next;
      }
      MeetIsSafe(f, i, code[1..], next);
      assert EntryOf(f, i) + more + AllocOf(code[0]) == EntryOf(f, i) + next;
    }
  }

  lemma PathExtends(f: Cfg, path: seq<nat>, i: nat, t: nat)
    requires LeadsTo(f, path, i) && t < |f| && t in Succs(f[i])
    ensures LeadsTo(f, path + [t], t) && AllocatedOn(f, path + [t]) == AllocatedOn(f, path) + Allocs(f[i])
  {
    var longer := path + [t];
    assert longer[..|longer| - 1] == path;
    forall k | 0 < k < |longer|
      ensures longer[k] in Succs(f[longer[k - 1]])
    {
      if k < |path| {
        assert longer[k] == path[k] && longer[k - 1] == path[k - 1];
      }
    }
  }

  lemma EntryLeadsOn(f: Cfg, i: nat, t: nat)
    requires i < |f| && t < |f| && t in Succs(f[i])
    ensures EntryOf(f, t) <= EntryOf(f, i) + Allocs(f[i])
  {
    forall k | k in EntryOf(f, t) && k !in Allocs(f[i])
      ensures k in EntryOf(f, i)
    {
      forall path | LeadsTo(f, path, i)
        ensures k in AllocatedOn(f, path)
      {
        PathExtends(f, path, i, t);
      }
    }
  }

  lemma DominatedIsCertifiable(f: Cfg)
    requires Dominated(f) && WellFormed(f)
    ensures Certifiable(f)
  {
    var entry := seq(|f|, i requires 0 <= i < |f| => EntryOf(f, i));
    forall i | 0 <= i < |f|
      ensures CodeSafe(f[i], entry[i]) && LeadsOn(f, entry, i)
    {
      UsedHolds(f, i);
      forall path | LeadsTo(f, path, i)
        ensures CodeSafe(f[i], AllocatedOn(f, path) + {})
      {
        assert SafeOn(f, path);
        assert AllocatedOn(f, path) + {} == AllocatedOn(f, path);
      }
      MeetIsSafe(f, i, f[i], {});
      assert EntryOf(f, i) + {} == EntryOf(f, i);
      forall t | t in Succs(f[i])
        ensures t < |f| && entry[t] <= entry[i] + Allocs(f[i])
      {
        assert JumpsWithin(f[i], 0, |f|);
        EntryLeadsOn(f, i, t);
      }
    }
    assert LeadsTo(f, [0], 0) && AllocatedOn(f, [0]) == {};
    assert entry[0] == {};
  }

  // Growing a certified graph

  lemma CertifiedBlock(f: Cfg, entry: seq<set<nat>>, there: set<nat>)
    requires Certified(f, entry)
    ensures Certified(f + [[]], entry + [there])
  {
    var h, more := f + [[]], entry + [there];
    forall i | 0 <= i < |h|
      ensures CodeSafe(h[i], more[i]) && LeadsOn(h, more, i)
    {
      if i < |f| {
        assert h[i] == f[i] && more[i] == entry[i];
        assert LeadsOn(f, entry, i);
      }
    }
  }

  lemma CertifiedEmit(f: Cfg, entry: seq<set<nat>>, at: nat, code: Code)
    requires Certified(f, entry) && at < |f| && CodeSafe(code, entry[at] + Allocs(f[at]))
    requires forall t | t in Succs(code) :: t < |f| && entry[t] <= entry[at] + Allocs(f[at]) + Allocs(code)
    ensures Certified(f[at := f[at] + code], entry)
  {
    var h := f[at := f[at] + code];
    SafeAppend(f[at], code, entry[at]);
    AllocsAppend(f[at], code);
    SuccsAppend(f[at], code);
    forall i | 0 <= i < |h|
      ensures CodeSafe(h[i], entry[i]) && LeadsOn(h, entry, i)
    {
      assert CodeSafe(f[i], entry[i]) && LeadsOn(f, entry, i);
    }
  }

  /** What is there where the builder goes on. */
  function There(b: Builder, entry: seq<set<nat>>): set<nat>
    requires b.at < |b.blocks| && b.at < |entry|
  {
    entry[b.at] + Allocs(b.blocks[b.at])
  }

  /** The names have slots that are there. */
  ghost predicate Held(names: set<Name>, values: ValueMap, there: set<nat>) {
    forall x | x in names :: x in values && values[x].Slot? && values[x].id in there
  }

  // Expressions

  lemma {:induction false} WithinAllocatesNothing(code: Code, low: nat, high: nat)
    requires Within(code, low, high)
    ensures Allocs(code) == {}
    decreases code
  {
    if code != [] {
      assert WritesWithin(code[0], low, high);
      assert forall i | 0 <= i < |code[1..]| :: code[1..][i] == code[i + 1];
      WithinAllocatesNothing(code[1..], low, high);
    }
  }

  /** Code that allocates nothing, then more code. */
  lemma SafeThen(a: Code, low: nat, high: nat, b: Code, there: set<nat>)
    requires Within(a, low, high)
    ensures CodeSafe(a + b, there) <==> CodeSafe(a, there) && CodeSafe(b, there)
  {
    WithinAllocatesNothing(a, low, high);
    SafeAppend(a, b, there);
    assert there + Allocs(a) == there;
  }

  /** A load uses the slot it loads from, and nothing else is used later. */
  lemma LoadUses(v: Value, reg: nat, there: set<nat>)
    ensures var l := LoadMemory(v, reg);
            Within(l.code, reg, l.reg) && (CodeSafe(l.code, there) <==> SlotsOf(v) <= there) && SlotsOf(l.value) == {}
  {
    var l := LoadMemory(v, reg);
    if IsPointer(v) {
      assert l.code[1..] == [];
    }
  }

  /** What an expression uses: the slots of the variables it mentions, and those
      only. */
  lemma {:induction false} ExprUses(g: Globals, known: set<Name>, values: ValueMap, reg: nat, e: Tree, there: set<nat>)
    requires ClosedExpr(g, known, e) && forall x | x in known :: x in values && values[x].Slot?
    ensures var r := GenExpr(g, values, reg, e);
            CodeSafe(r.code, there) && SlotsOf(r.value) <= there <==> ClosedExpr(g, NamesThere(known, values, there), e)
    decreases e, 1
  {
    match e.head
    case Binary(_) => BinaryUses(g, known, values, reg, e, there);
    case Call => CallUses(g, known, values, reg, e, there);
    case _ =>
  }

  /** The names whose slots are there. */
  ghost function NamesThere(known: set<Name>, values: ValueMap, there: set<nat>): set<Name>
    requires forall x | x in known :: x in values && values[x].Slot?
  {
    set x | x in known && values[x].id in there
  }

  lemma {:induction false} BinaryUses(g: Globals, known: set<Name>, values: ValueMap, reg: nat, e: Tree,
                                      there: set<nat>)
    requires ClosedExpr(g, known, e) && e.head.Binary?
    requires forall x | x in known :: x in values && values[x].Slot?
    ensures var r := GenExpr(g, values, reg, e);
            CodeSafe(r.code, there) && SlotsOf(r.value) <= there <==> ClosedExpr(g, NamesThere(known, values, there), e)
    decreases e, 0
  {
    hide CodeSafe, LoadMemory, Within, GenOperator;
    var l := GenExpr(g, values, reg, e.kids[0]);
    var r := GenExpr(g, values, l.reg, e.kids[1]);
    ExprUses(g, known, values, reg, e.kids[0], there);
    ExprUses(g, known, values, l.reg, e.kids[1], there);
    ExprWithin(g, values, reg, e.kids[0]);
    ExprWithin(g, values, l.reg, e.kids[1]);
    OperatorUses(e.head.op, l, r, reg, there);
  }

  /** An operator uses what its operands use and stand for. */
  lemma OperatorUses(op: BinaryOp, l: Emitted, r: Emitted, reg: nat, there: set<nat>)
    requires Within(l.code, reg, l.reg) && Within(r.code, l.reg, r.reg)
    ensures var o := GenOperator(op, l, r);
            CodeSafe(o.code, there) && SlotsOf(o.value) <= there <==>
            CodeSafe(l.code, there) && CodeSafe(r.code, there) && SlotsOf(l.value) <= there && SlotsOf(r.value) <= there
  {
    hide CodeSafe, LoadMemory, Within;
    OperatorSplits(op, l, r);
    SafeThen(l.code, reg, l.reg, r.code + OperatorTail(op, l, r), there);
    SafeThen(r.code, l.reg, r.reg, OperatorTail(op, l, r), there);
    TailUses(op, l, r, there);
  }

  lemma TailUses(op: BinaryOp, l: Emitted, r: Emitted, there: set<nat>)
    ensures CodeSafe(OperatorTail(op, l, r), there) <==> SlotsOf(l.value) <= there && SlotsOf(r.value) <= there
    ensures !op.Assign? ==> SlotsOf(GenOperator(op, l, r).value) == {}
  {
    hide LoadMemory;
    if op.Assign? {
      var v := LoadMemory(r.value, r.reg);
      LoadUses(r.value, r.reg, there);
      SafeThen(v.code, r.reg, v.reg, [Store(v.value, l.value)], there);
      assert [Store(v.value, l.value)][1..] == [];
    } else {
      var a := LoadMemory(l.value, r.reg);
      var b := LoadMemory(r.value, a.reg);
      LoadUses(l.value, r.reg, there);
      LoadUses(r.value, a.reg, there);
      var last := OperatorInstrs(op, a.value, b.value, b.reg);
      WithinAppend(a.code, b.code, r.reg, a.reg, b.reg);
      SafeThen(a.code, r.reg, a.reg, b.code, there);
      SafeThen(a.code + b.code, r.reg, b.reg, last, there);
      InstrsUseNothing(op, a.value, b.value, b.reg, there);
    }
  }

  lemma InstrsUseNothing(op: BinaryOp, a: Value, b: Value, reg: nat, there: set<nat>)
    ensures CodeSafe(OperatorInstrs(op, a, b, reg), there)
  {
    var code := OperatorInstrs(op, a, b, reg);
    if IsComparison(op) {
      assert code[1..] == [ZExt(reg + 1, Temp(reg))];
      assert code[1..][1..] == [];
    } else {
      assert code[1..] == [];
    }
  }

  lemma {:induction false} CallUses(g: Globals, known: set<Name>, values: ValueMap, reg: nat, e: Tree, there: set<nat>)
    requires ClosedExpr(g, known, e) && e.head.Call?
    requires forall x | x in known :: x in values && values[x].Slot?
    ensures var r := GenExpr(g, values, reg, e);
            CodeSafe(r.code, there) && SlotsOf(r.value) <= there <==> ClosedExpr(g, NamesThere(known, values, there), e)
    decreases e, 0
  {
    hide CodeSafe, Within;
    var f := GenExpr(g, values, reg, e.kids[0]);
    var args := GenArgs(g, values, f.reg, e.kids[1..]);
    ExprUses(g, known, values, reg, e.kids[0], there);
    ArgsUse(g, known, values, f.reg, e.kids[1..], there);
    ExprWithin(g, values, reg, e.kids[0]);
    ArgsWithin(g, values, f.reg, e.kids[1..]);
    CallSafe(f, args, reg, there);
  }

  lemma CallSafe(f: Emitted, args: EmittedArgs, reg: nat, there: set<nat>)
    requires Within(f.code, reg, f.reg) && Within(args.code, f.reg, args.reg)
    ensures CodeSafe(f.code + args.code + [CallSym(args.reg, f.value, args.values)], there) <==>
            CodeSafe(f.code, there) && CodeSafe(args.code, there) && SlotsOf(f.value) <= there
  {
    var last := [CallSym(args.reg, f.value, args.values)];
    assert last[1..] == [];
    WithinAppend(f.code, args.code, reg, f.reg, args.reg);
    SafeThen(f.code + args.code, reg, args.reg, last, there);
    SafeThen(f.code, reg, f.reg, args.code, there);
  }

  lemma {:induction false} ArgsUse(g: Globals, known: set<Name>, values: ValueMap, reg: nat, es: seq<Tree>,
                                   there: set<nat>)
    requires ClosedExprs(g, known, es) && forall x | x in known :: x in values && values[x].Slot?
    ensures CodeSafe(GenArgs(g, values, reg, es).code, there) <==> ClosedExprs(g, NamesThere(known, values, there), es)
    decreases es
  {
    hide CodeSafe, LoadMemory, Within;
    if es == [] {
      assert CodeSafe([], there) by { NothingIsSafe(there); }
    } else {
      var a := GenExpr(g, values, reg, es[0]);
      var v := LoadMemory(a.value, a.reg);
      var more := GenArgs(g, values, v.reg, es[1..]);
      ExprUses(g, known, values, reg, es[0], there);
      ArgsUse(g, known, values, v.reg, es[1..], there);
      ExprWithin(g, values, reg, es[0]);
      LoadUses(a.value, a.reg, there);
      WithinAppend(a.code, v.code, reg, a.reg, v.reg);
      SafeThen(a.code, reg, a.reg, v.code, there);
      SafeThen(a.code + v.code, reg, v.reg, more.code, there);
    }
  }

  lemma NothingIsSafe(there: set<nat>)
    ensures CodeSafe([], there)
  {
  }

  /** An expression whose variables are all there is safe. */
  lemma ExprIsSafe(g: Globals, known: set<Name>, sure: set<Name>, values: ValueMap, reg: nat, e: Tree, there: set<nat>)
    requires ClosedExpr(g, known, e) && ClosedExpr(g, sure, e) && sure <= known
    requires (forall x | x in known :: x in values && values[x].Slot?) && Held(sure, values, there)
    ensures var r := GenExpr(g, values, reg, e); CodeSafe(r.code, there) && SlotsOf(r.value) <= there
  {
    ExprUses(g, known, values, reg, e, there);
    MoreStillClosedExpr(g, known, NamesThere(known, values, there), sure, e);
  }

  // Statements

  /** The builder's graph is certified, and the names have slots that are there. */
  ghost predicate Covers(sure: set<Name>, b: Builder, entry: seq<set<nat>>) {
    Certified(b.blocks, entry) && b.at < |b.blocks| == |entry| && Held(sure, b.values, There(b, entry))
  }

  /** What generating something leaves of the certificate: it grows, and what
      was there stays there. */
  ghost predicate CoversOn(sure: set<Name>, there: set<nat>, entry: seq<set<nat>>, r: Builder, end: Option<nat>,
                           more: seq<set<nat>>)
  {
    Certified(r.blocks, more) && r.at < |r.blocks| == |more| && entry <= more &&
    (end.Some? ==> there <= There(r, more) && Held(sure, r.values, There(r, more)))
  }

  lemma OpenCodeCovers(sure: set<Name>, b: Builder, entry: seq<set<nat>>, code: Code, reg: nat, end: Option<nat>)
    requires Covers(sure, b, entry) && CodeSafe(code, There(b, entry)) && Succs(code) == {}
    ensures CoversOn(sure, There(b, entry), entry, Emit(b.(reg := reg), code), end, entry)
  {
    CertifiedEmit(b.blocks, entry, b.at, code);
    AllocsAppend(b.blocks[b.at], code);
  }

  lemma {:induction false} StmtCovered(g: Globals, known: set<Name>, sure: set<Name>, b: Builder, s: Tree,
                                       entry: seq<set<nat>>)
    returns (more: seq<set<nat>>)
    requires Ready(b) && ClosedStmt(g, known, s) && Scoped(known, b.values, b.reg)
    requires sure <= known && SureStmt(g, sure, s) && Covers(sure, b, entry)
    ensures var r := GenStmt(g, b, b.at, s);
            CoversOn(sure + SurelyLeft(s), There(b, entry), entry, r.0, r.1, more)
    decreases s, 2
  {
    match s.head
    case UnscopedCompound => more := StmtsCovered(g, known, sure, b, s.kids, entry);
    case Compound =>
      more := StmtsCovered(g, known, sure, b, s.kids, entry);
      assert sure + SurelyLeft(s) == sure;
    case If =>
      more := IfCovered(g, known, sure, b, s, entry);
      assert sure + SurelyLeft(s) == sure;
    case Return =>
      more := entry;
      ReturnCovered(g, known, sure, b, s, entry);
    case ExpressionStmt =>
      more := entry;
      ExpressionCovered(g, known, sure, b, s, entry);
      assert sure + SurelyLeft(s) == sure;
    case DeclStmt(_) =>
      more := entry;
      DeclCovered(g, known, sure, b, s, entry);
  }

  lemma ReturnCovered(g: Globals, known: set<Name>, sure: set<Name>, b: Builder, s: Tree, entry: seq<set<nat>>)
    requires Ready(b) && ClosedStmt(g, known, s) && Scoped(known, b.values, b.reg) && s.head.Return?
    requires sure <= known && SureStmt(g, sure, s) && Covers(sure, b, entry)
    ensures var r := GenStmt(g, b, b.at, s); r.1.None? && CoversOn(sure, There(b, entry), entry, r.0, r.1, entry)
  {
    var there := There(b, entry);
    if s.kids == [] {
      assert [RetVoid][1..] == [] && [RetVoid][..0] == [];
      OpenCodeCovers(sure, b, entry, [RetVoid], b.reg, None);
    } else {
      var e := GenExpr(g, b.values, b.reg, s.kids[0]);
      var v := LoadMemory(e.value, e.reg);
      var code := e.code + v.code;
      ExprIsSafe(g, known, sure, b.values, b.reg, s.kids[0], there);
      ExprWithin(g, b.values, b.reg, s.kids[0]);
      LoadUses(e.value, e.reg, there);
      SafeThen(e.code, b.reg, e.reg, v.code, there);
      WithinAppend(e.code, v.code, b.reg, e.reg, v.reg);
      SafeThen(code, b.reg, v.reg, [Ret(v.value)], there);
      assert [Ret(v.value)][1..] == [] && [Ret(v.value)][..0] == [];
      WithinIsOpen(code, b.reg, v.reg);
      OpenHasNoSuccs(code);
      SuccsAppend(code, [Ret(v.value)]);
      OpenCodeCovers(sure, b, entry, code + [Ret(v.value)], v.reg, None);
    }
  }

  lemma ExpressionCovered(g: Globals, known: set<Name>, sure: set<Name>, b: Builder, s: Tree, entry: seq<set<nat>>)
    requires Ready(b) && ClosedStmt(g, known, s) && Scoped(known, b.values, b.reg) && s.head.ExpressionStmt?
    requires sure <= known && SureStmt(g, sure, s) && Covers(sure, b, entry)
    ensures var r := GenStmt(g, b, b.at, s); CoversOn(sure, There(b, entry), entry, r.0, r.1, entry)
  {
    var e := GenExpr(g, b.values, b.reg, s.kids[0]);
    if ClosedExpr(g, sure, s.kids[0]) {
      ExprIsSafe(g, known, sure, b.values, b.reg, s.kids[0], There(b, entry));
    } else {
      assert e.code == [];
    }
    ExprWithin(g, b.values, b.reg, s.kids[0]);
    WithinIsOpen(e.code, b.reg, e.reg);
    OpenHasNoSuccs(e.code);
    OpenCodeCovers(sure, b, entry, e.code, e.reg, Some(b.at));
  }

  /** The code of a declaration: its value, its slot, and the store. */
  function DeclCode(e: Emitted): Code {
    var v := LoadMemory(e.value, e.reg + 1);
    e.code + ([Alloca(e.reg)] + v.code + [Store(v.value, Slot(e.reg))])
  }

  /** A declaration is safe exactly when its value is, and allocates its slot. */
  lemma DeclIsSafe(e: Emitted, reg: nat, there: set<nat>)
    requires Within(e.code, reg, e.reg) && SlotsOf(e.value) != {e.reg}
    ensures CodeSafe(DeclCode(e), there) <==> CodeSafe(e.code, there) && SlotsOf(e.value) <= there
    ensures Allocs(DeclCode(e)) == {e.reg} && Succs(DeclCode(e)) == {}
  {
    hide LoadMemory, CodeSafe, Within;
    var v := LoadMemory(e.value, e.reg + 1);
    var alloca, store := [Alloca(e.reg)], [Store(v.value, Slot(e.reg))];
    var more := there + {e.reg};
    LoadUses(e.value, e.reg + 1, more);
    SafeThen(e.code, reg, e.reg, alloca + v.code + store, there);
    SafeAppend(alloca + v.code, store, there);
    SafeAppend(alloca, v.code, there);
    SlotIsSafe(v.value, e.reg, there);
    WithinAllocatesNothing(e.code, reg, e.reg);
    WithinAllocatesNothing(v.code, e.reg + 1, v.reg);
    AllocsAppend(alloca, v.code);
    AllocsAppend(alloca + v.code, store);
    AllocsAppend(e.code, alloca + v.code + store);
    assert more + {} == more;
    WithinIsOpen(e.code, reg, e.reg);
    WithinIsOpen(v.code, e.reg + 1, v.reg);
    OpenHasNoSuccs(DeclCode(e));
  }

  /** Allocating a slot, and storing into it. */
  lemma SlotIsSafe(v: Value, slot: nat, there: set<nat>)
    requires SlotsOf(v) == {}
    ensures CodeSafe([Alloca(slot)], there) && Allocs([Alloca(slot)]) == {slot}
    ensures CodeSafe([Store(v, Slot(slot))], there + {slot}) && Allocs([Store(v, Slot(slot))]) == {}
  {
    assert [Alloca(slot)][1..] == [] && [Store(v, Slot(slot))][1..] == [];
  }

  /** An operand is no slot that is still to come. */
  lemma ValueIsOld(g: Globals, known: set<Name>, values: ValueMap, reg: nat, e: Tree)
    requires ClosedExpr(g, known, e) && Scoped(known, values, reg)
    ensures forall k | k in SlotsOf(GenExpr(g, values, reg, e).value) :: k < reg
  {
    var all := set x | x in known :: values[x].id;
    ExprUses(g, known, values, reg, e, all);
    assert NamesThere(known, values, all) == known;
  }

  lemma DeclCovered(g: Globals, known: set<Name>, sure: set<Name>, b: Builder, s: Tree, entry: seq<set<nat>>)
    requires Ready(b) && ClosedStmt(g, known, s) && Scoped(known, b.values, b.reg) && s.head.DeclStmt?
    requires sure <= known && SureStmt(g, sure, s) && Covers(sure, b, entry)
    ensures var r := GenStmt(g, b, b.at, s);
            CoversOn(sure + {s.head.name}, There(b, entry), entry, r.0, r.1, entry)
  {
    hide Certified, CodeSafe, Within, GenExpr, LoadMemory, DeclCode, ClosedExpr, Scoped, GenStmt;
    var e := GenExpr(g, b.values, b.reg, s.kids[0]);
    var reg := LoadMemory(e.value, e.reg + 1).reg;
    var m := Emit(b.(reg := reg), DeclCode(e));
    DeclParts(g, known, sure, b, s, entry);
    OpenCodeCovers(sure, b, entry, DeclCode(e), reg, Some(b.at));
    AllocsAppend(b.blocks[b.at], DeclCode(e));
    assert There(m, entry) == There(b, entry) + {e.reg};
    DeclIsGenerated(g, b, s);
    assert s.head.name !in sure;
  }

  lemma DeclParts(g: Globals, known: set<Name>, sure: set<Name>, b: Builder, s: Tree, entry: seq<set<nat>>)
    requires Ready(b) && ClosedStmt(g, known, s) && Scoped(known, b.values, b.reg) && s.head.DeclStmt?
    requires sure <= known && SureStmt(g, sure, s) && Covers(sure, b, entry)
    ensures var e := GenExpr(g, b.values, b.reg, s.kids[0]);
            CodeSafe(DeclCode(e), There(b, entry)) && Allocs(DeclCode(e)) == {e.reg} && Succs(DeclCode(e)) == {}
    ensures s.head.name !in known && |s.kids| == 1
  {
    hide CodeSafe, Within, GenExpr, DeclCode, Certified;
    var e := GenExpr(g, b.values, b.reg, s.kids[0]);
    var there := There(b, entry);
    ExprIsSafe(g, known, sure, b.values, b.reg, s.kids[0], there);
    ExprWithin(g, b.values, b.reg, s.kids[0]);
    ExprGrows(g, b.values, b.reg, s.kids[0]);
    ValueIsOld(g, known, b.values, b.reg, s.kids[0]);
    DeclIsSafe(e, b.reg, there);
  }

  lemma ExprGrows(g: Globals, values: ValueMap, reg: nat, e: Tree)
    ensures reg <= GenExpr(g, values, reg, e).reg
  {
    ExprWithin(g, values, reg, e);
  }

  lemma DeclIsGenerated(g: Globals, b: Builder, s: Tree)
    requires s.head.DeclStmt? && s.kids != []
    ensures var e := GenExpr(g, b.values, b.reg, s.kids[0]);
            var m := Emit(b.(reg := LoadMemory(e.value, e.reg + 1).reg), DeclCode(e));
            GenStmt(g, b, b.at, s) == (m.(values := b.values[s.head.name := Slot(e.reg)]), Some(b.at))
  {
  }

  lemma {:induction false} StmtsCovered(g: Globals, known: set<Name>, sure: set<Name>, b: Builder, ss: seq<Tree>,
                                        entry: seq<set<nat>>)
    returns (more: seq<set<nat>>)
    requires Ready(b) && ClosedStmts(g, known, ss) && Scoped(known, b.values, b.reg)
    requires sure <= known && AllSure(g, sure, ss) && Covers(sure, b, entry)
    ensures var r := GenStmts(g, b, b.at, ss);
            CoversOn(sure + AllSurelyLeft(ss), There(b, entry), entry, r.0, r.1, more)
    decreases ss
  {
    hide GenStmt, Certified, Scoped, Grows;
    if ss == [] {
      more := entry;
      assert sure + AllSurelyLeft(ss) == sure;
    } else {
      var r := GenStmt(g, b, b.at, ss[0]);
      var left := sure + SurelyLeft(ss[0]);
      FirstOfMany(g, known, b, ss);
      more := StmtCovered(g, known, sure, b, ss[0], entry);
      if r.1.Some? {
        SureIsDeclared(ss[0]);
        more := StmtsCovered(g, known + Declares(ss[0]), left, r.0, ss[1..], more);
        assert left + AllSurelyLeft(ss[1..]) == sure + AllSurelyLeft(ss);
      }
    }
  }

  // Branches

  /** A certified `if` under construction: its blocks are entered with what was
      there before it. */
  ghost predicate HalfCovered(b: Builder, entry: seq<set<nat>>, c: Builder, cont: Option<nat>, more: seq<set<nat>>) {
    b.at < |b.blocks| == |entry| && entry <= more && Certified(c.blocks, more) && Pending(b, c, cont) &&
    |more| == |c.blocks| && (cont.Some? ==> cont.value < |more| && more[cont.value] == There(b, entry))
  }

  lemma HalfStarts(b: Builder, entry: seq<set<nat>>)
    requires Ready(b) && Certified(b.blocks, entry)
    ensures HalfCovered(b, entry, b, None, entry)
  {
    PendingStarts(b);
  }

  /** The next branch starts with what was there before the `if`. */
  lemma BranchCovered(b: Builder, entry: seq<set<nat>>, c: Builder, cont: Option<nat>, more: seq<set<nat>>,
                      sure: set<Name>)
    requires HalfCovered(b, entry, c, cont, more) && Held(sure, c.values, There(b, entry))
    ensures var start := StartBranch(c);
            var wider := more + [There(b, entry)];
            Covers(sure, start, wider) && There(start, wider) == There(b, entry) && Ready(start)
  {
    CertifiedBlock(c.blocks, more, There(b, entry));
    assert StartBranch(c).blocks[|c.blocks|] == [];
  }

  lemma LazyCovered(b: Builder, entry: seq<set<nat>>, c: Builder, cont: Option<nat>, more: seq<set<nat>>)
    returns (wider: seq<set<nat>>)
    requires HalfCovered(b, entry, c, cont, more)
    ensures var j := LazyContinue(c, cont); HalfCovered(b, entry, j.b, j.cont, wider) && more <= wider
  {
    wider := more;
    PendingContinue(b, c, cont);
    if cont.None? {
      CertifiedBlock(c.blocks, more, There(b, entry));
      wider := more + [There(b, entry)];
    }
  }

  /** A branch that can be left jumps to the continue block with at least what
      was there before the `if`. */
  lemma JoinCovered(b: Builder, entry: seq<set<nat>>, c: Builder, cont: Option<nat>, more: seq<set<nat>>,
                    r: Builder, end: Option<nat>, grown: seq<set<nat>>)
    returns (wider: seq<set<nat>>)
    requires HalfCovered(b, entry, c, cont, more) && Region(StartBranch(c), r, end)
    requires Certified(r.blocks, grown) && more + [There(b, entry)] <= grown
    requires end.Some? ==> There(b, entry) <= There(r, grown)
    ensures var j := Join(r, end, cont); HalfCovered(b, entry, j.b, j.cont, wider) && grown <= wider
  {
    wider := grown;
    PendingBranch(b, c, cont, r, end);
    if end.Some? {
      var l := LazyContinue(r, cont);
      var jump := [Br(l.cont.value)];
      if cont.None? {
        CertifiedBlock(r.blocks, grown, There(b, entry));
        wider := grown + [There(b, entry)];
      }
      assert jump[1..] == [] && jump[..0] == [];
      assert Succs(jump) == {l.cont.value};
      assert wider[l.cont.value] == There(b, entry);
      assert l.b.blocks[r.at] == r.blocks[r.at] && wider[r.at] == grown[r.at];
      CertifiedEmit(l.b.blocks, wider, r.at, jump);
    }
  }

  /** The condition is generated last, into the block before the branches. */
  lemma ConditionCovered(g: Globals, known: set<Name>, sure: set<Name>, b: Builder, entry: seq<set<nat>>, c: Builder,
                         cond: Tree, yes: nat, no: nat, cont: Option<nat>, more: seq<set<nat>>)
    requires HalfCovered(b, entry, c, cont, more) && ClosedExpr(g, known, cond) && ClosedExpr(g, sure, cond)
    requires sure <= known && Separate(known, c.values) && Held(sure, c.values, There(b, entry))
    requires yes < |c.blocks| && no < |c.blocks| && more[yes] == more[no] == There(b, entry)
    ensures var r := Branch(g, c, b.at, cond, yes, no, cont);
            CoversOn(sure, There(b, entry), entry, r.0, r.1, more)
  {
    hide Certified, CodeSafe, Pending, Within, GenExpr, Held;
    var e := GenExpr(g, c.values, c.reg, cond);
    var there := There(b, entry);
    var test := [IsNotNull(e.reg, e.value)] + [CondBr(Temp(e.reg), yes, no)];
    ExprIsSafe(g, known, sure, c.values, c.reg, cond, there);
    ExprWithin(g, c.values, c.reg, cond);
    SafeThen(e.code, c.reg, e.reg, test, there);
    TestUses(e, yes, no, there);
    WithinAllocatesNothing(e.code, c.reg, e.reg);
    WithinIsOpen(e.code, c.reg, e.reg);
    OpenHasNoSuccs(e.code);
    SuccsAppend(e.code, test);
    BranchSuccs(e, yes, no);
    PendingKeeps(b, c, cont);
    assert more[b.at] == entry[b.at];
    AllocsAppend(e.code, test);
    CertifiedEmit(c.blocks, more, b.at, e.code + test);
    assert test == [IsNotNull(e.reg, e.value), CondBr(Temp(e.reg), yes, no)];
    var r := Branch(g, c, b.at, cond, yes, no, cont).0;
    assert r.blocks == c.blocks[b.at := c.blocks[b.at] + (e.code + test)] && r.values == c.values;
    if cont.Some? {
      assert r.blocks[cont.value] == [] && There(r, more) == there + {};
      assert There(r, more) == there;
    }
  }

  lemma TestUses(e: Emitted, yes: nat, no: nat, there: set<nat>)
    ensures var test := [IsNotNull(e.reg, e.value)] + [CondBr(Temp(e.reg), yes, no)];
            (CodeSafe(test, there) <==> SlotsOf(e.value) <= there) && Allocs(test) == {}
  {
    var test, jump := [IsNotNull(e.reg, e.value)], [CondBr(Temp(e.reg), yes, no)];
    assert test[1..] == [] && jump[1..] == [];
    SafeAppend(test, jump, there);
    AllocsAppend(test, jump);
    assert Allocs(test) == AllocOf(test[0]) + Allocs([]);
    assert CodeSafe(jump, there + Allocs(test)) <==> CodeSafe([], there + Allocs(test) + AllocOf(jump[0]));
  }

  lemma PendingKeeps(b: Builder, c: Builder, cont: Option<nat>)
    requires Pending(b, c, cont)
    ensures b.at < |b.blocks| <= |c.blocks| && c.blocks[b.at] == b.blocks[b.at]
    ensures cont.Some? ==> |b.blocks| <= cont.value < |c.blocks| && c.blocks[cont.value] == []
  {
  }

  lemma BranchSuccs(e: Emitted, yes: nat, no: nat)
    ensures Succs([IsNotNull(e.reg, e.value)] + [CondBr(Temp(e.reg), yes, no)]) == {yes, no}
  {
    var test, jump := [IsNotNull(e.reg, e.value)], [CondBr(Temp(e.reg), yes, no)];
    SuccsAppend(test, jump);
    assert test[..0] == [] && jump[..0] == [];
  }

  lemma {:induction false} IfCovered(g: Globals, known: set<Name>, sure: set<Name>, b: Builder, s: Tree,
                                     entry: seq<set<nat>>)
    returns (more: seq<set<nat>>)
    requires Ready(b) && ClosedStmt(g, known, s) && Scoped(known, b.values, b.reg) && s.head.If?
    requires sure <= known && SureStmt(g, sure, s) && Covers(sure, b, entry)
    ensures var r := GenStmt(g, b, b.at, s); CoversOn(sure, There(b, entry), entry, r.0, r.1, more)
    decreases s, 1
  {
    hide GenStmt, Certified, Region, Pending, Scoped, KeepsScope;
    var there := There(b, entry);
    var first := AddBranch(g, b, None, s.kids[1]);
    var (j, no) := IfBranches(g, b, s);
    var inner := known + Declares(s.kids[1]);
    IfBuilt(g, known, b, s);
    HalfStarts(b, entry);
    more := NextCovered(g, known, sure, b, entry, b, None, entry, s.kids[1]);
    assert more[|b.blocks|] == there;
    KeepsScoped(known, inner, b, first.b);
    HeldAlike(known, sure, b.values, first.b.values, there);
    if |s.kids| > 2 {
      more := NextCovered(g, inner, sure, b, entry, first.b, first.cont, more, s.kids[2]);
    } else {
      more := LazyCovered(b, entry, first.b, first.cont, more);
    }
    KeepsScoped(known, known + Declares(s), b, j.b);
    HeldAlike(known, sure, b.values, j.b.values, there);
    SeparateFewer(known, known + Declares(s), j.b.values, j.b.reg);
    ConditionCovered(g, known, sure, b, entry, j.b, s.kids[0], |b.blocks|, no, j.cont, more);
  }

  lemma HeldAlike(known: set<Name>, sure: set<Name>, a: ValueMap, b: ValueMap, there: set<nat>)
    requires sure <= known && SameOn(known, a, b) && Held(sure, a, there)
    ensures Held(sure, b, there)
  {
  }

  lemma SeparateFewer(known: set<Name>, more: set<Name>, values: ValueMap, reg: nat)
    requires known <= more && Scoped(more, values, reg)
    ensures Separate(known, values)
  {
  }

  /** One more branch. */
  lemma {:induction false} NextCovered(g: Globals, known: set<Name>, sure: set<Name>, b: Builder, entry: seq<set<nat>>,
                                       c: Builder, cont: Option<nat>, more: seq<set<nat>>, s: Tree)
    returns (wider: seq<set<nat>>)
    requires HalfCovered(b, entry, c, cont, more) && Held(sure, c.values, There(b, entry))
    requires ClosedStmt(g, known, s) && Scoped(known, c.values, c.reg) && sure <= known && SureStmt(g, sure, s)
    ensures var j := AddBranch(g, c, cont, s);
            HalfCovered(b, entry, j.b, j.cont, wider) && more + [There(b, entry)] <= wider
    decreases s, 3
  {
    hide GenStmt, Certified, Pending, Scoped;
    var start, there := StartBranch(c), There(b, entry);
    var r := GenStmt(g, start, |c.blocks|, s);
    BranchCovered(b, entry, c, cont, more, sure);
    StmtRegion(g, known, start, s);
    var grown := StmtCovered(g, known, sure, start, s, more + [there]);
    wider := JoinCovered(b, entry, c, cont, more, r.0, r.1, grown);
  }
}
