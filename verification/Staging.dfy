/** Generating a meta function and running it writes exactly the layout of the
    specialised tree. */
module Staging {
  import opened Wrappers
  import opened Ast
  import opened Layout
  import opened Sequences
  import opened Machine
  import opened Semantics
  import opened ExprCodegen
  import opened Graph
  import opened StmtCodegen
  import opened Acyclicity
  import opened Simulation
  import opened MetaCodegen

  // Shape of the generated blocks

  lemma RegionCreated(b: Builder)
    requires Ready(b)
    ensures var r := CreateRegion(b); Region(b, r, Some(r.at)) && r.at == |b.blocks| && r.blocks[r.at] == []
  {
    var r := CreateRegion(b);
    var was := b.blocks[b.at];
    var jump := Br(|b.blocks|);
    assert r.blocks[b.at] == was + [jump];
    assert r.blocks[b.at][..|was|] == was;
    OpenHasNoSuccs(was);
    SuccsAppend(was, [jump]);
    assert Succs([jump]) == {|b.blocks|};
  }

  /** More straight-line code at the end of a region. */
  lemma RegionEmits(b: Builder, r: Builder, code: Code)
    requires Region(b, r, Some(r.at)) && Open(code)
    ensures Region(b, Emit(r, code), Some(r.at))
  {
    RegionEmitOpen(r, code, r.reg, r.values);
    assert Emit(r.(reg := r.reg), code).(values := r.values) == Emit(r, code);
    RegionTwice(b, r, Emit(r, code), Some(r.at));
  }

  lemma {:induction false} IntroduceIsOpen(xs: seq<Name>, values: ValueMap, insideFunction: bool)
    ensures Open(IntroduceCode(xs, values, insideFunction))
    decreases xs
  {
    if xs != [] {
      IntroduceIsOpen(xs[1..], values, insideFunction);
    }
  }

  function MetaStart(b: Builder, h: Head): Builder {
    Emit(b, [Contribute(h)])
  }

  /** A node that is copied: neither a contribution nor a meta statement. */
  predicate IsPlain(h: Head) {
    !h.MetaContribution? && !h.MetaIf? && !h.MetaCalculation?
  }

  function Deeper(insideFunction: bool, h: Head): bool {
    insideFunction || h.FunctionDecl?
  }

  lemma ClosedPlain(g: Globals, known: set<Name>, insideFunction: bool, t: Tree)
    requires ClosedMeta(g, known, insideFunction, t) && IsPlain(t.head)
    ensures ClosedMetas(g, known, Deeper(insideFunction, t.head), t.kids)
  {
  }

  lemma PlainRegion(b: Builder, h: Head, r: Builder)
    requires Ready(b) && Region(MetaStart(b, h), r, Some(r.at))
    ensures var q := if NeedsMarker(h) then Emit(r, [Reduce]) else r; Region(b, q, Some(q.at))
  {
    RegionStarts(b);
    RegionEmits(b, b, [Contribute(h)]);
    RegionTwice(b, MetaStart(b, h), r, Some(r.at));
    RegionEmits(b, r, [Reduce]);
  }

  /** The staging compiler, too, always leaves the builder in its one
      unterminated block, and control never ends early. */
  lemma {:induction false} MetaRegion(g: Globals, known: set<Name>, b: Builder, insideFunction: bool, t: Tree)
    requires Ready(b) && ClosedMeta(g, known, insideFunction, t)
    ensures var r := GenMeta(g, b, b.at, insideFunction, t); r.1 == Some(r.0.at) && Region(b, r.0, r.1)
    decreases t, 1
  {
    if t.head.MetaContribution? {
      MetasRegion(g, known, b, insideFunction, t.kids);
    } else if t.head.MetaIf? {
      MetaIfRegion(g, known, b, insideFunction, t);
    } else if t.head.MetaCalculation? {
      CalculationRegion(g, known, b, insideFunction, t);
    } else {
      CopyRegion(g, known, b, insideFunction, t);
    }
  }

  lemma {:induction false} CopyRegion(g: Globals, known: set<Name>, b: Builder, insideFunction: bool, t: Tree)
    requires Ready(b) && ClosedMeta(g, known, insideFunction, t) && IsPlain(t.head)
    ensures var r := GenMeta(g, b, b.at, insideFunction, t); r.1 == Some(r.0.at) && Region(b, r.0, r.1)
    decreases t, 0
  {
    var start := MetaStart(b, t.head);
    var deeper := Deeper(insideFunction, t.head);
    var r := GenMetas(g, start, start.at, deeper, t.kids).0;
    ClosedPlain(g, known, insideFunction, t);
    RegionStarts(b);
    RegionEmits(b, b, [Contribute(t.head)]);
    MetasRegion(g, known, start, deeper, t.kids);
    PlainRegion(b, t.head, r);
    GenCopy(g, b, insideFunction, t);
  }

  /** What is generated for a copied node. */
  lemma GenCopy(g: Globals, b: Builder, insideFunction: bool, t: Tree)
    requires IsPlain(t.head)
    ensures var r := GenMetas(g, MetaStart(b, t.head), b.at, Deeper(insideFunction, t.head), t.kids);
            GenMeta(g, b, b.at, insideFunction, t) == (if NeedsMarker(t.head) then Emit(r.0, [Reduce]) else r.0, r.1)
  {
  }

  lemma CalculationRegion(g: Globals, known: set<Name>, b: Builder, insideFunction: bool, t: Tree)
    requires Ready(b) && ClosedMeta(g, known, insideFunction, t) && t.head.MetaCalculation?
    ensures var r := GenMeta(g, b, b.at, insideFunction, t); r.1 == Some(r.0.at) && Region(b, r.0, r.1)
  {
    var region := CreateRegion(b);
    RegionCreated(b);
    var (r, end) := GenStmt(g, region, region.at, t.kids[0]);
    StmtRegion(g, known, region, t.kids[0]);
    RegionTwice(b, region, r, end);
    IntroduceIsOpen(Exports(t.kids[0]), r.values, insideFunction);
    RegionEmits(b, r, IntroduceCode(Exports(t.kids[0]), r.values, insideFunction));
  }

  function AddMetaBranch(g: Globals, c: Builder, cont: Option<nat>, insideFunction: bool, t: Tree): Joined {
    var r := GenMeta(g, StartBranch(c), |c.blocks|, insideFunction, t);
    Join(r.0, r.1, cont)
  }

  lemma {:induction false} MetaIfRegion(g: Globals, known: set<Name>, b: Builder, insideFunction: bool, t: Tree)
    requires Ready(b) && ClosedMeta(g, known, insideFunction, t) && t.head.MetaIf?
    ensures var r := GenMeta(g, b, b.at, insideFunction, t); r.1 == Some(r.0.at) && Region(b, r.0, r.1)
    decreases t, 0
  {
    hide Region, Pending, GenExpr;
    var yes := |b.blocks|;
    var (b1, end1) := GenMeta(g, StartBranch(b), yes, insideFunction, t.kids[1]);
    var j1 := Join(b1, end1, None);
    MetaRegion(g, known, StartBranch(b), insideFunction, t.kids[1]);
    PendingStarts(b);
    PendingBranch(b, b, None, b1, end1);
    if |t.kids| > 2 {
      var no := |j1.b.blocks|;
      var (b2, end2) := GenMeta(g, StartBranch(j1.b), no, insideFunction, t.kids[2]);
      var j2 := Join(b2, end2, j1.cont);
      MetaRegion(g, known + DeclaresMeta(t.kids[1]), StartBranch(j1.b), insideFunction, t.kids[2]);
      PendingBranch(b, j1.b, j1.cont, b2, end2);
      RegionBranch(g, b, j2.b, t.kids[0], yes, no, j2.cont);
    } else {
      var j2 := LazyContinue(j1.b, j1.cont);
      PendingContinue(b, j1.b, j1.cont);
      RegionBranch(g, b, j2.b, t.kids[0], yes, j2.cont.value, j2.cont);
    }
  }

  lemma {:induction false} MetasRegion(g: Globals, known: set<Name>, b: Builder, insideFunction: bool, ts: seq<Tree>)
    requires Ready(b) && ClosedMetas(g, known, insideFunction, ts)
    ensures var r := GenMetas(g, b, b.at, insideFunction, ts); r.1 == Some(r.0.at) && Region(b, r.0, r.1)
    decreases ts
  {
    if ts == [] {
      RegionStarts(b);
    } else {
      var r := GenMeta(g, b, b.at, insideFunction, ts[0]).0;
      MetaRegion(g, known, b, insideFunction, ts[0]);
      MetasRegion(g, known + DeclaresMeta(ts[0]), r, insideFunction, ts[1..]);
      var q := GenMetas(g, r, r.at, insideFunction, ts[1..]);
      RegionTwice(b, r, q.0, q.1);
    }
  }

  // Order of the generated blocks

  lemma OrderCreated(b: Builder)
    requires Ready(b)
    ensures OrderOf(b, CreateRegion(b), [|b.blocks|])
  {
    var r := CreateRegion(b);
    RegionCreated(b);
    var was := b.blocks[b.at];
    OpenHasNoSuccs(was);
    SuccsAppend(was, [Br(|b.blocks|)]);
    assert r.blocks[b.at] == was + [Br(|b.blocks|)];
    assert Succs([Br(|b.blocks|)]) == {|b.blocks|};
    assert [|b.blocks|][1..] == [];
    assert Ordered(r.blocks, [|b.blocks|], {});
    assert ([b.at] + [|b.blocks|])[1..] == [|b.blocks|];
  }

  lemma OrderEmits(b: Builder, r: Builder, code: Code, order: seq<nat>)
    requires Region(b, r, Some(r.at)) && Open(code) && OrderOf(b, r, order)
    ensures OrderOf(b, Emit(r, code), order)
  {
    OpenHasNoSuccs(code);
    SuccsAppend(r.blocks[r.at], code);
    OrderedGrows(r.blocks, Emit(r, code).blocks, [b.at] + order, {}, {});
    var none: set<nat> := {};
    assert none + none == none;
  }

  lemma {:induction false} MetaOrder(g: Globals, known: set<Name>, b: Builder, insideFunction: bool, t: Tree)
    returns (order: seq<nat>)
    requires Ready(b) && ClosedMeta(g, known, insideFunction, t)
    ensures OrderOf(b, GenMeta(g, b, b.at, insideFunction, t).0, order)
    decreases t, 3
  {
    if t.head.MetaContribution? {
      order := MetasOrder(g, known, b, insideFunction, t.kids);
    } else if t.head.MetaIf? {
      order := MetaIfOrder(g, known, b, insideFunction, t);
    } else if t.head.MetaCalculation? {
      order := CalculationOrder(g, known, b, insideFunction, t);
    } else {
      order := PlainOrder(g, known, b, insideFunction, t);
    }
  }

  lemma {:induction false} PlainOrder(g: Globals, known: set<Name>, b: Builder, insideFunction: bool, t: Tree)
    returns (order: seq<nat>)
    requires Ready(b) && ClosedMeta(g, known, insideFunction, t) && IsPlain(t.head)
    ensures OrderOf(b, GenMeta(g, b, b.at, insideFunction, t).0, order)
    decreases t, 0
  {
    var start := MetaStart(b, t.head);
    var deeper := Deeper(insideFunction, t.head);
    ClosedPlain(g, known, insideFunction, t);
    RegionStarts(b);
    RegionEmits(b, b, [Contribute(t.head)]);
    StraightLine(b, start, Some(start.at));
    MetasRegion(g, known, start, deeper, t.kids);
    var inner := MetasOrder(g, known, start, deeper, t.kids);
    var r := GenMetas(g, start, b.at, deeper, t.kids).0;
    OrderTwice(b, start, r, Some(r.at), [], inner);
    RegionTwice(b, start, r, Some(r.at));
    order := [] + inner;
    OrderEmits(b, r, [Reduce], order);
  }

  lemma CalculationOrder(g: Globals, known: set<Name>, b: Builder, insideFunction: bool, t: Tree)
    returns (order: seq<nat>)
    requires Ready(b) && ClosedMeta(g, known, insideFunction, t) && t.head.MetaCalculation?
    ensures OrderOf(b, GenMeta(g, b, b.at, insideFunction, t).0, order)
  {
    var region := CreateRegion(b);
    RegionCreated(b);
    OrderCreated(b);
    var (r, end) := GenStmt(g, region, region.at, t.kids[0]);
    StmtRegion(g, known, region, t.kids[0]);
    var inner := StmtOrder(g, known, region, t.kids[0]);
    OrderTwice(b, region, r, end, [|b.blocks|], inner);
    order := [|b.blocks|] + inner;
    RegionTwice(b, region, r, end);
    IntroduceIsOpen(Exports(t.kids[0]), r.values, insideFunction);
    OrderEmits(b, r, IntroduceCode(Exports(t.kids[0]), r.values, insideFunction), order);
  }

  lemma {:induction false} MetaIfOrder(g: Globals, known: set<Name>, b: Builder, insideFunction: bool, t: Tree)
    returns (order: seq<nat>)
    requires Ready(b) && ClosedMeta(g, known, insideFunction, t) && t.head.MetaIf?
    ensures OrderOf(b, GenMeta(g, b, b.at, insideFunction, t).0, order)
    decreases t, 0
  {
    var yes := |b.blocks|;
    assert PendingOrder(b, b, None, []);
    var c, cont, first := MetaBranchOrder(g, known, b, b, None, [], insideFunction, t.kids[1]);
    if |t.kids| > 2 {
      var no := |c.blocks|;
      var more := known + DeclaresMeta(t.kids[1]);
      var c2, cont2, both := MetaBranchOrder(g, more, b, c, cont, first, insideFunction, t.kids[2]);
      OrderBranch(g, b, c2, t.kids[0], yes, no, cont2, both);
      order := both + Opt(cont2);
    } else {
      var j := LazyContinue(c, cont);
      PendingContinue(b, c, cont);
      PendingOrderContinue(b, c, cont, first);
      OrderBranch(g, b, j.b, t.kids[0], yes, j.cont.value, j.cont, first);
      order := first + Opt(j.cont);
    }
  }

  lemma {:induction false} MetaBranchOrder(g: Globals, known: set<Name>, b: Builder, c: Builder, cont: Option<nat>,
                                           order: seq<nat>, insideFunction: bool, t: Tree)
    returns (next: Builder, nextCont: Option<nat>, nextOrder: seq<nat>)
    requires Pending(b, c, cont) && PendingOrder(b, c, cont, order) && ClosedMeta(g, known, insideFunction, t)
    ensures var j := AddMetaBranch(g, c, cont, insideFunction, t);
            next == j.b && nextCont == j.cont && |c.blocks| < |next.blocks|
    ensures Pending(b, next, nextCont) && PendingOrder(b, next, nextCont, nextOrder)
    decreases t, 4
  {
    var r := GenMeta(g, StartBranch(c), |c.blocks|, insideFunction, t);
    MetaRegion(g, known, StartBranch(c), insideFunction, t);
    PendingBranch(b, c, cont, r.0, r.1);
    var inner := MetaOrder(g, known, StartBranch(c), insideFunction, t);
    PendingOrderBranch(b, c, cont, order, r.0, r.1, inner);
    var j := Join(r.0, r.1, cont);
    next, nextCont, nextOrder := j.b, j.cont, order + ([|c.blocks|] + inner);
  }

  lemma {:induction false} MetasOrder(g: Globals, known: set<Name>, b: Builder, insideFunction: bool, ts: seq<Tree>)
    returns (order: seq<nat>)
    requires Ready(b) && ClosedMetas(g, known, insideFunction, ts)
    ensures OrderOf(b, GenMetas(g, b, b.at, insideFunction, ts).0, order)
    decreases ts
  {
    if ts == [] {
      order := [];
      OpenHasNoSuccs(b.blocks[b.at]);
      OrderStarts(b, b);
    } else {
      var r := GenMeta(g, b, b.at, insideFunction, ts[0]).0;
      MetaRegion(g, known, b, insideFunction, ts[0]);
      order := MetaOrder(g, known, b, insideFunction, ts[0]);
      var rest := known + DeclaresMeta(ts[0]);
      MetasRegion(g, rest, r, insideFunction, ts[1..]);
      var second := MetasOrder(g, rest, r, insideFunction, ts[1..]);
      var q := GenMetas(g, r, r.at, insideFunction, ts[1..]);
      OrderTwice(b, r, q.0, q.1, order, second);
      order := order + second;
    }
  }

  // Scopes

  lemma {:induction false} MetaScopes(g: Globals, known: set<Name>, b: Builder, insideFunction: bool, t: Tree)
    requires Ready(b) && ClosedMeta(g, known, insideFunction, t) && Scoped(known, b.values, b.reg)
    ensures KeepsScope(known, known + DeclaresMeta(t), b, GenMeta(g, b, b.at, insideFunction, t).0)
    decreases t, 1
  {
    hide GenStmt;
    if t.head.MetaContribution? {
      MetasScope(g, known, b, insideFunction, t.kids);
    } else if t.head.MetaIf? {
      MetaIfScopes(g, known, b, insideFunction, t);
    } else if t.head.MetaCalculation? {
      var region := CreateRegion(b);
      RegionCreated(b);
      StmtScopes(g, known, region, t.kids[0]);
    } else {
      CopyScopes(g, known, b, insideFunction, t);
    }
  }

  /** At the end of a scope the names outside it have kept their slots. */
  lemma KeepsFewer(known: set<Name>, more: set<Name>, b: Builder, r: Builder)
    requires KeepsScope(known, more, b, r) && Scoped(known, b.values, b.reg)
    ensures KeepsScope(known, known, b, r)
  {
  }

  lemma {:induction false} CopyScopes(g: Globals, known: set<Name>, b: Builder, insideFunction: bool, t: Tree)
    requires Ready(b) && ClosedMeta(g, known, insideFunction, t) && Scoped(known, b.values, b.reg)
    requires IsPlain(t.head)
    ensures KeepsScope(known, known + DeclaresMeta(t), b, GenMeta(g, b, b.at, insideFunction, t).0)
    decreases t, 0
  {
    hide Scoped, KeepsScope, ClosedMeta, ClosedMetas;
    var start, deeper := MetaStart(b, t.head), Deeper(insideFunction, t.head);
    ClosedPlain(g, known, insideFunction, t);
    GenCopy(g, b, insideFunction, t);
    RegionStarts(b);
    RegionEmits(b, b, [Contribute(t.head)]);
    MetasScope(g, known, start, deeper, t.kids);
    var r := GenMetas(g, start, start.at, deeper, t.kids).0;
    CopyKeeps(known, known + DeclaresMetas(t.kids), b, t.head, r);
    if Opens(t.head) {
      KeepsFewer(known, known + DeclaresMetas(t.kids), b, GenMeta(g, b, b.at, insideFunction, t).0);
      assert known + DeclaresMeta(t) == known;
    }
  }

  lemma CopyKeeps(known: set<Name>, more: set<Name>, b: Builder, h: Head, r: Builder)
    requires KeepsScope(known, more, MetaStart(b, h), r)
    ensures KeepsScope(known, more, b, r) && KeepsScope(known, more, b, Emit(r, [Reduce]))
  {
  }

  lemma {:induction false} MetaBranchScopes(g: Globals, known: set<Name>, c: Builder, cont: Option<nat>,
                                            insideFunction: bool, t: Tree)
    requires ClosedMeta(g, known, insideFunction, t) && Scoped(known, c.values, c.reg)
    ensures KeepsScope(known, known + DeclaresMeta(t), c, AddMetaBranch(g, c, cont, insideFunction, t).b)
    decreases t, 2
  {
    MetaScopes(g, known, StartBranch(c), insideFunction, t);
  }

  function MetaIfBranches(g: Globals, b: Builder, insideFunction: bool, t: Tree): (Joined, nat)
    requires |t.kids| >= 2
  {
    var j := AddMetaBranch(g, b, None, insideFunction, t.kids[1]);
    if |t.kids| > 2 then (AddMetaBranch(g, j.b, j.cont, insideFunction, t.kids[2]), |j.b.blocks|)
    else
      var c := LazyContinue(j.b, j.cont);
      (c, c.cont.value)
  }

  /** The shape of what is generated for a meta-if. */
  lemma GenMetaIf(g: Globals, b: Builder, insideFunction: bool, t: Tree)
    requires t.head.MetaIf? && |t.kids| >= 2
    ensures var (j, no) := MetaIfBranches(g, b, insideFunction, t);
            GenMeta(g, b, b.at, insideFunction, t) == Branch(g, j.b, b.at, t.kids[0], |b.blocks|, no, j.cont)
  {
  }

  lemma {:induction false} MetaIfScopes(g: Globals, known: set<Name>, b: Builder, insideFunction: bool, t: Tree)
    requires Ready(b) && ClosedMeta(g, known, insideFunction, t) && Scoped(known, b.values, b.reg) && t.head.MetaIf?
    ensures KeepsScope(known, known + DeclaresMeta(t), b, GenMeta(g, b, b.at, insideFunction, t).0)
    decreases t, 0
  {
    hide Scoped, GenExpr, GenMeta, KeepsScope;
    GenMetaIf(g, b, insideFunction, t);
    var j1 := AddMetaBranch(g, b, None, insideFunction, t.kids[1]);
    var more := known + DeclaresMeta(t.kids[1]);
    var most := known + DeclaresMeta(t);
    MetaBranchScopes(g, known, b, None, insideFunction, t.kids[1]);
    KeepsScoped(known, more, b, j1.b);
    if |t.kids| > 2 {
      MetaBranchScopes(g, more, j1.b, j1.cont, insideFunction, t.kids[2]);
      assert more + DeclaresMeta(t.kids[2]) == most;
      KeepsTwice(known, more, most, b, j1.b, AddMetaBranch(g, j1.b, j1.cont, insideFunction, t.kids[2]).b);
    } else {
      assert more == most;
    }
    var (j, no) := MetaIfBranches(g, b, insideFunction, t);
    LazyScope(known, more, b, j1.b, j1.cont);
    BranchScope(g, known, most, b, j.b, b.at, t.kids[0], |b.blocks|, no, j.cont);
  }

  lemma {:induction false} MetasScope(g: Globals, known: set<Name>, b: Builder, insideFunction: bool, ts: seq<Tree>)
    requires Ready(b) && ClosedMetas(g, known, insideFunction, ts) && Scoped(known, b.values, b.reg)
    ensures KeepsScope(known, known + DeclaresMetas(ts), b, GenMetas(g, b, b.at, insideFunction, ts).0)
    decreases ts
  {
    if ts != [] {
      var r := GenMeta(g, b, b.at, insideFunction, ts[0]).0;
      var more := known + DeclaresMeta(ts[0]);
      MetaRegion(g, known, b, insideFunction, ts[0]);
      MetaScopes(g, known, b, insideFunction, ts[0]);
      MetasScope(g, more, r, insideFunction, ts[1..]);
      assert more + DeclaresMetas(ts[1..]) == known + DeclaresMetas(ts);
      KeepsTwice(known, more, known + DeclaresMetas(ts), b, r, GenMetas(g, r, r.at, insideFunction, ts[1..]).0);
    } else {
      assert known + DeclaresMetas(ts) == known;
      KeepsNothing(known, b, b);
    }
  }

  // What running the generated code writes

  /** Where the run of generated meta code has to arrive: with the layout of the
      specialised trees written, at the end of the function when it returns in
      the middle, or stuck when nothing is defined. */
  ghost predicate Writes(known: set<Name>, r: Builder, meant: Staged, low: nat, st: State, reached: Conf, last: State) {
    match meant
    case Undefined => reached == Stuck
    case Cut(ts, beginning, v) => reached == Finished(v, st.out + (EncodeAll(ts) + beginning))
    case Done(ts, env) =>
      r.at < |r.blocks| && reached == Here(r, last) && Agree(known, r.values, env, last) &&
      last.out == st.out + EncodeAll(ts) && last.args == st.args && Allocates(st, last, low, r.reg)
  }

  lemma EncodeExported(x: Name, n: int, insideFunction: bool)
    ensures EncodeAll([Exported(x, n, insideFunction)]) ==
            [Some(ExportHead(x, insideFunction)), Some(IntegerLiteral(n))]
  {
    var literal := Tree(IntegerLiteral(n), []);
    var t := Exported(x, n, insideFunction);
    assert EncodeAll([]) == [];
    assert [literal][1..] == [] && [t][1..] == [];
    assert Encode(literal) == [Some(IntegerLiteral(n))];
    assert EncodeAll([literal]) == Encode(literal) + EncodeAll([]);
    assert Encode(t) == [Some(t.head)] + EncodeAll(t.kids) + Closing(t.head);
    assert EncodeAll([t]) == Encode(t) + EncodeAll([]);
  }

  /** Exporting values writes declarations holding them; nothing else changes. */
  lemma {:induction false} IntroduceWrites(call: Oracle, known: set<Name>, values: ValueMap, xs: seq<Name>,
                                           insideFunction: bool, env: Env, st: State)
    requires Agree(known, values, env, st) && forall x | x in xs :: x in env
    ensures var run := ExecuteAll(IntroduceCode(xs, values, insideFunction), st, call);
            run == Some(st.(out := st.out + EncodeAll(ExportTrees(xs, env, insideFunction))))
    decreases xs
  {
    if xs == [] {
      assert st.out + [] == st.out;
    } else {
      var x := xs[0];
      var first := Introduce(x, LocalValue(values, x), insideFunction);
      var rest := IntroduceCode(xs[1..], values, insideFunction);
      assert x in known && x in env;
      EncodeExported(x, env[x], insideFunction);
      var st1 := Execute(first, st, call).value;
      IntroduceWrites(call, known, values, xs[1..], insideFunction, env, st1);
      var code := IntroduceCode(xs, values, insideFunction);
      assert code[0] == first && code[1..] == rest;
      var one, more := [Exported(x, env[x], insideFunction)], ExportTrees(xs[1..], env, insideFunction);
      EncodeAllAppend(one, more);
      assert ExportTrees(xs, env, insideFunction) == one + more;
      Assoc(st.out, EncodeAll(one), EncodeAll(more));
    }
  }

  /** One more straight-line instruction run at the end of a region. */
  lemma EmitRuns(f: Cfg, call: Oracle, r: Builder, code: Code, st: State)
    requires r.at < |r.blocks| && Open(code) && Grows(Emit(r, code).blocks, f)
    requires ExecuteAll(code, st, call).Some?
    ensures StepN(f, call, Here(r, st), |code|) == Here(Emit(r, code), ExecuteAll(code, st, call).value)
  {
    assert Emit(r, code).blocks[r.at] <= f[r.at];
    EmittedRuns(f, call, r.at, r.blocks[r.at], code, st);
  }

  lemma EmitGrows(r: Builder, code: Code)
    ensures Grows(r.blocks, Emit(r, code).blocks)
  {
  }

  lemma {:induction false} MetaWrites(g: Globals, call: Oracle, known: set<Name>, b: Builder, insideFunction: bool,
                                      t: Tree, env: Env, st: State, f: Cfg)
    returns (n: nat, last: State)
    requires Ready(b) && ClosedMeta(g, known, insideFunction, t)
    requires Sits(known, b, env, st)
    requires Grows(GenMeta(g, b, b.at, insideFunction, t).0.blocks, f)
    ensures Writes(known + DeclaresMeta(t), GenMeta(g, b, b.at, insideFunction, t).0,
                   Specialise(g, call, insideFunction, t, env), b.reg, st, StepN(f, call, Here(b, st), n), last)
    decreases t, 2
  {
    if t.head.MetaContribution? {
      n, last := MetasWrite(g, call, known, b, insideFunction, t.kids, env, st, f);
    } else if t.head.MetaIf? {
      n, last := MetaIfWrites(g, call, known, b, insideFunction, t, env, st, f);
    } else if t.head.MetaCalculation? {
      n, last := CalculationWrites(g, call, known, b, insideFunction, t, env, st, f);
    } else {
      n, last := CopyWrites(g, call, known, b, insideFunction, t, env, st, f);
    }
  }

  lemma CalculationWrites(g: Globals, call: Oracle, known: set<Name>, b: Builder, insideFunction: bool,
                          t: Tree, env: Env, st: State, f: Cfg)
    returns (n: nat, last: State)
    requires Ready(b) && ClosedMeta(g, known, insideFunction, t) && t.head.MetaCalculation?
    requires Sits(known, b, env, st)
    requires Grows(GenMeta(g, b, b.at, insideFunction, t).0.blocks, f)
    ensures Writes(known + DeclaresMeta(t), GenMeta(g, b, b.at, insideFunction, t).0,
                   Specialise(g, call, insideFunction, t, env), b.reg, st, StepN(f, call, Here(b, st), n), last)
  {
    hide GenMeta, Specialise, GenStmt, Exec, Agree, Scoped, Fresh, ClosedStmt, IntroduceCode, ExecuteAll, Open, Grows,
         StepN, ExportTrees, Exports;
    var s := t.kids[0];
    var region := CreateRegion(b);
    var r := GenStmt(g, region, region.at, s).0;
    var code := IntroduceCode(Exports(s), r.values, insideFunction);
    var outcome := Exec(g, call, s, env);
    var start, result := Here(b, st), Emit(r, code);
    CalculationParts(g, call, b, insideFunction, t, env);
    CalculationGrows(g, known, b, s, code, f);
    RegionRuns(f, call, b, st);
    var k;
    k, last := StmtSimulates(g, call, known, region, s, env, st, f);
    Onwards(f, call, start, 1, Here(region, st), k);
    n := 1 + k;
    var meant := Calculated(Exports(s), insideFunction, outcome);
    if outcome.Normal? {
      ExportsHaveValues(g, call, s, env);
      IntroduceIsOpen(Exports(s), r.values, insideFunction);
      IntroduceWrites(call, known + Declares(s), r.values, Exports(s), insideFunction, outcome.env, last);
      EmitRuns(f, call, r, code, last);
      Onwards(f, call, start, n, Here(r, last), |code|);
      var end := ExecuteAll(code, last, call).value;
      AgreeAfter(known + Declares(s), r.values, outcome.env, last, end);
      n, last := n + |code|, end;
    } else {
      NothingWritten(st.out);
    }
    assert Writes(known + Declares(s), result, meant, b.reg, st, StepN(f, call, start, n), last);
  }

  /** What is generated for a calculation, and what it means. */
  lemma CalculationParts(g: Globals, call: Oracle, b: Builder, insideFunction: bool, t: Tree, env: Env)
    requires t.head.MetaCalculation? && |t.kids| == 1
    ensures var s := t.kids[0];
            var region := CreateRegion(b);
            var r := GenStmt(g, region, region.at, s);
            var outcome := Exec(g, call, s, env);
            GenMeta(g, b, b.at, insideFunction, t) ==
            (Emit(r.0, IntroduceCode(Exports(s), r.0.values, insideFunction)), r.1) &&
            Specialise(g, call, insideFunction, t, env) == Calculated(Exports(s), insideFunction, outcome) &&
            DeclaresMeta(t) == Declares(s)
  {
  }

  lemma NothingWritten(out: Layout)
    ensures out + (EncodeAll([]) + []) == out
  {
    assert EncodeAll([]) + [] == [];
  }

  lemma CalculationGrows(g: Globals, known: set<Name>, b: Builder, s: Tree, code: Code, f: Cfg)
    requires Ready(b) && ClosedStmt(g, known, s)
    requires var region := CreateRegion(b);
             Grows(Emit(GenStmt(g, region, region.at, s).0, code).blocks, f)
    ensures var region := CreateRegion(b);
            var r := GenStmt(g, region, region.at, s);
            Ready(region) && Grows(region.blocks, f) && Grows(r.0.blocks, f) && region.values == b.values
  {
    RegionCreated(b);
    var region := CreateRegion(b);
    var r := GenStmt(g, region, region.at, s);
    StmtRegion(g, known, region, s);
    EmitGrows(r.0, code);
    GrowsTwice(r.0.blocks, Emit(r.0, code).blocks, f);
    RegionGrows(region, r.0, r.1);
    GrowsTwice(region.blocks, r.0.blocks, f);
  }

  /** Entering the region of a calculation. */
  lemma RegionRuns(f: Cfg, call: Oracle, b: Builder, st: State)
    requires Ready(b) && Grows(CreateRegion(b).blocks, f)
    ensures StepN(f, call, Here(b, st), 1) == At(|b.blocks|, 0, st)
  {
    var r := CreateRegion(b);
    assert r.blocks[b.at] == b.blocks[b.at] + [Br(|b.blocks|)];
    assert r.blocks[b.at] <= f[b.at];
    assert f[b.at][|b.blocks[b.at]|] == Br(|b.blocks|);
    OneMore(f, call, Here(b, st), 0);
  }

  lemma {:induction false} CopyWrites(g: Globals, call: Oracle, known: set<Name>, b: Builder, insideFunction: bool,
                                      t: Tree, env: Env, st: State, f: Cfg)
    returns (n: nat, last: State)
    requires Ready(b) && ClosedMeta(g, known, insideFunction, t) && IsPlain(t.head)
    requires Sits(known, b, env, st)
    requires Grows(GenMeta(g, b, b.at, insideFunction, t).0.blocks, f)
    ensures Writes(known + DeclaresMeta(t), GenMeta(g, b, b.at, insideFunction, t).0,
                   Specialise(g, call, insideFunction, t, env), b.reg, st, StepN(f, call, Here(b, st), n), last)
    decreases t, 0
  {
    hide GenMeta, GenMetas, Specialise, SpecialiseAll, Agree, Scoped, Fresh, Sits, KeepsScope, Allocates, ClosedMeta,
         ClosedMetas, EncodeAll, Grows, StepN, DeclaresMeta;
    var start := MetaStart(b, t.head);
    var deeper := Deeper(insideFunction, t.head);
    var r := GenMetas(g, start, start.at, deeper, t.kids).0;
    var result := if NeedsMarker(t.head) then Emit(r, [Reduce]) else r;
    var inner := SpecialiseAll(g, call, deeper, t.kids, env);
    var here := Here(b, st);
    ClosedPlain(g, known, insideFunction, t);
    GenCopy(g, b, insideFunction, t);
    SpecialiseCopy(g, call, insideFunction, t, env);
    CopyGrows(g, known, b, deeper, t, f);
    var contribute := Contribute(t.head);
    ExecuteOne(contribute, st, call);
    var st1 := st.(out := st.out + [Some(t.head)]);
    EmitRuns(f, call, b, [contribute], st);
    SitsAfter(known, b, start, env, st, st1);
    var k;
    k, last := MetasWrite(g, call, known, start, deeper, t.kids, env, st1, f);
    Onwards(f, call, here, 1, Here(start, st1), k);
    n := 1 + k;
    var meant := Under(t.head, env, inner);
    if inner.Done? {
      MetasScope(g, known, start, deeper, t.kids);
      CopyDeclares(known, t);
      CopyAgrees(known, known + DeclaresMetas(t.kids), start, t.head, r, env, inner.env, st1, last);
      if NeedsMarker(t.head) {
        ExecuteOne(Reduce, last, call);
        EmitRuns(f, call, r, [Reduce], last);
        Onwards(f, call, here, n, Here(r, last), 1);
        var end := last.(out := last.out + [None]);
        AgreeAfter(known + DeclaresMeta(t), r.values, meant.env, last, end);
        AllocatesAlike(st1, last, st, end, b.reg, r.reg);
        n, last := n + 1, end;
      } else {
        AllocatesAlike(st1, last, st, last, b.reg, r.reg);
      }
      EncodeCopy(st.out, t.head, inner.trees);
    } else if inner.Cut? {
      CutCopy(st.out, t.head, inner.trees, inner.beginning);
    }
    assert Writes(known + DeclaresMeta(t), result, meant, b.reg, st, StepN(f, call, here, n), last);
  }

  lemma SitsAfter(known: set<Name>, b: Builder, c: Builder, env: Env, st: State, last: State)
    requires Sits(known, b, env, st) && c.values == b.values && c.reg == b.reg && last.slots == st.slots
    ensures Sits(known, c, env, last)
  {
  }

  lemma AllocatesAlike(a: State, b: State, c: State, d: State, low: nat, high: nat)
    requires Allocates(a, b, low, high) && a.slots == c.slots && b.slots == d.slots
    ensures Allocates(c, d, low, high)
  {
  }

  lemma CopyDeclares(known: set<Name>, t: Tree)
    requires IsPlain(t.head)
    ensures known + DeclaresMeta(t) == if Opens(t.head) then known else known + DeclaresMetas(t.kids)
  {
  }

  /** What is declared at the end of a copied node. */
  lemma CopyAgrees(known: set<Name>, more: set<Name>, b: Builder, h: Head, r: Builder, env: Env, inner: Env,
                   st: State, last: State)
    requires KeepsScope(known, more, b, r) && Sits(known, b, env, st)
    requires Agree(more, r.values, inner, last) && Allocates(st, last, b.reg, r.reg)
    ensures Agree(if Opens(h) then known else more, r.values, if Opens(h) then Kept(env, inner) else inner, last)
  {
    AgreeKept(known, more, b, r, env, inner, st, last);
  }

  lemma SpecialiseCopy(g: Globals, call: Oracle, insideFunction: bool, t: Tree, env: Env)
    requires IsPlain(t.head)
    ensures Specialise(g, call, insideFunction, t, env) ==
            Under(t.head, env, SpecialiseAll(g, call, Deeper(insideFunction, t.head), t.kids, env))
  {
  }

  lemma CutCopy(before: Layout, h: Head, ts: seq<Tree>, beginning: Layout)
    ensures before + [Some(h)] + (EncodeAll(ts) + beginning) ==
            before + (EncodeAll([]) + ([Some(h)] + (EncodeAll(ts) + beginning)))
  {
    Assoc(before, [Some(h)], EncodeAll(ts) + beginning);
    EmptyLeft([Some(h)] + (EncodeAll(ts) + beginning));
  }

  /** A copied node, its children's layouts and its marker are its layout. */
  lemma EncodeCopy(before: Layout, h: Head, ts: seq<Tree>)
    ensures before + [Some(h)] + EncodeAll(ts) + Closing(h) == before + EncodeAll([Tree(h, ts)])
    ensures !NeedsMarker(h) ==> before + [Some(h)] + EncodeAll(ts) == before + EncodeAll([Tree(h, ts)])
  {
    var t := Tree(h, ts);
    assert [t][1..] == [];
    assert EncodeAll([t]) == Encode(t) + EncodeAll([]);
    assert EncodeAll([]) == [];
    assert EncodeAll([t]) == [Some(h)] + EncodeAll(ts) + Closing(h);
  }

  lemma CopyGrows(g: Globals, known: set<Name>, b: Builder, deeper: bool, t: Tree, f: Cfg)
    requires Ready(b) && ClosedMetas(g, known, deeper, t.kids)
    requires var r := GenMetas(g, MetaStart(b, t.head), b.at, deeper, t.kids).0;
             Grows((if NeedsMarker(t.head) then Emit(r, [Reduce]) else r).blocks, f)
    ensures var start := MetaStart(b, t.head);
            Ready(start) && Grows(start.blocks, f) && Grows(GenMetas(g, start, b.at, deeper, t.kids).0.blocks, f)
  {
    var start := MetaStart(b, t.head);
    RegionStarts(b);
    RegionEmits(b, b, [Contribute(t.head)]);
    MetasRegion(g, known, start, deeper, t.kids);
    var r := GenMetas(g, start, b.at, deeper, t.kids);
    EmitGrows(r.0, [Reduce]);
    GrowsTwice(r.0.blocks, (if NeedsMarker(t.head) then Emit(r.0, [Reduce]) else r.0).blocks, f);
    RegionGrows(start, r.0, r.1);
    GrowsTwice(start.blocks, r.0.blocks, f);
  }

  lemma BuildingMetaBranch(g: Globals, known: set<Name>, more: set<Name>, b: Builder, c: Builder, cont: Option<nat>,
                           insideFunction: bool, t: Tree)
    requires Building(known, more, b, c, cont) && ClosedMeta(g, more, insideFunction, t)
    ensures var j := AddMetaBranch(g, c, cont, insideFunction, t);
            var most := more + DeclaresMeta(t);
            Building(known, most, b, j.b, j.cont) && |c.blocks| < |j.b.blocks| && Grows(c.blocks, j.b.blocks) &&
            KeepsScope(more, most, c, j.b) && (cont.Some? ==> j.cont == cont)
  {
    var r := GenMeta(g, StartBranch(c), |c.blocks|, insideFunction, t);
    MetaRegion(g, more, StartBranch(c), insideFunction, t);
    MetaScopes(g, more, StartBranch(c), insideFunction, t);
    BuildingJoin(known, more, more + DeclaresMeta(t), b, c, cont, r.0, r.1);
  }

  lemma MetaIfBuilt(g: Globals, known: set<Name>, b: Builder, insideFunction: bool, t: Tree)
    requires Ready(b) && ClosedMeta(g, known, insideFunction, t) && t.head.MetaIf? && Scoped(known, b.values, b.reg)
    ensures var first := AddMetaBranch(g, b, None, insideFunction, t.kids[1]);
            var (j, no) := MetaIfBranches(g, b, insideFunction, t);
            var more := known + DeclaresMeta(t.kids[1]);
            var most := known + DeclaresMeta(t);
            GenMeta(g, b, b.at, insideFunction, t) == Branch(g, j.b, b.at, t.kids[0], |b.blocks|, no, j.cont) &&
            Building(known, more, b, first.b, first.cont) && Building(known, most, b, j.b, j.cont) &&
            KeepsScope(more, most, first.b, j.b) && |b.blocks| < |j.b.blocks| && |b.blocks| <= no < |j.b.blocks| &&
            Grows(first.b.blocks, j.b.blocks) && (first.cont.Some? ==> j.cont == first.cont)
  {
    hide Region, GenMeta, Scoped, Pending;
    GenMetaIf(g, b, insideFunction, t);
    var j1 := AddMetaBranch(g, b, None, insideFunction, t.kids[1]);
    var more := known + DeclaresMeta(t.kids[1]);
    BuildingStarts(known, b);
    BuildingMetaBranch(g, known, known, b, b, None, insideFunction, t.kids[1]);
    if |t.kids| > 2 {
      BuildingMetaBranch(g, known, more, b, j1.b, j1.cont, insideFunction, t.kids[2]);
      assert more + DeclaresMeta(t.kids[2]) == known + DeclaresMeta(t);
    } else {
      PendingContinue(b, j1.b, j1.cont);
      LazyScope(known, more, b, j1.b, j1.cont);
      KeepsScoped(known, more, b, j1.b);
      LazyKeeps(more, j1.b, j1.cont);
      assert more == known + DeclaresMeta(t);
    }
  }

  /** Where the run of a branch of a meta-if has to arrive. */
  ghost predicate LeavesWriting(known: set<Name>, r: Builder, cont: Option<nat>, meant: Staged,
                                low: nat, st: State, reached: Conf, last: State)
  {
    match meant
    case Undefined => reached == Stuck
    case Cut(ts, beginning, v) => reached == Finished(v, st.out + (EncodeAll(ts) + beginning))
    case Done(ts, env) =>
      cont.Some? && reached == At(cont.value, 0, last) && Agree(known, r.values, env, last) &&
      last.out == st.out + EncodeAll(ts) && last.args == st.args && Allocates(st, last, low, r.reg)
  }

  lemma MetaBranchEnds(g: Globals, known: set<Name>, c: Builder, cont: Option<nat>, insideFunction: bool, t: Tree)
    requires ClosedMeta(g, known, insideFunction, t) && (cont.Some? ==> cont.value < |c.blocks|)
    ensures var r := GenMeta(g, StartBranch(c), |c.blocks|, insideFunction, t);
            r.1 == Some(r.0.at) && r.0.at < |r.0.blocks| &&
            (cont.Some? ==> cont.value < |r.0.blocks| && cont.value != r.0.at)
  {
    MetaRegion(g, known, StartBranch(c), insideFunction, t);
  }

  lemma {:induction false} MetaBranchWrites(g: Globals, call: Oracle, known: set<Name>, c: Builder,
                                            cont: Option<nat>, insideFunction: bool, t: Tree, env: Env, st: State,
                                            f: Cfg)
    returns (n: nat, last: State)
    requires Sits(known, c, env, st) && ClosedMeta(g, known, insideFunction, t)
    requires cont.Some? ==> cont.value < |c.blocks|
    requires Grows(AddMetaBranch(g, c, cont, insideFunction, t).b.blocks, f)
    ensures var j := AddMetaBranch(g, c, cont, insideFunction, t);
            LeavesWriting(known + DeclaresMeta(t), j.b, j.cont, Specialise(g, call, insideFunction, t, env), c.reg, st,
                          StepN(f, call, At(|c.blocks|, 0, st), n), last)
    decreases t, 3
  {
    hide Agree, Scoped, Fresh, Allocates, StepN, GenMeta, Grows, Specialise;
    var start := StartBranch(c);
    var r := GenMeta(g, start, |c.blocks|, insideFunction, t);
    MetaBranchEnds(g, known, c, cont, insideFunction, t);
    JoinGrows(r.0, r.1, cont);
    GrowsTwice(r.0.blocks, Join(r.0, r.1, cont).b.blocks, f);
    n, last := MetaWrites(g, call, known, start, insideFunction, t, env, st, f);
    var meant := Specialise(g, call, insideFunction, t, env);
    if meant.Done? {
      JoinRuns(call, r.0, r.1, cont, last, f);
      Onwards(f, call, At(|c.blocks|, 0, st), n, Here(r.0, last), 1);
      n := n + 1;
    }
  }

  lemma MetaIfArrives(g: Globals, more: set<Name>, b: Builder, c: Builder, cond: Tree, yes: nat, no: nat,
                      cont: Option<nat>, meant: Staged, st: State, st1: State, reached: Conf, last: State)
    requires Pending(b, c, cont)
    requires |b.blocks| <= yes < |c.blocks| && |b.blocks| <= no < |c.blocks|
    requires Moves(st, st1, b.reg, b.reg) && LeavesWriting(more, c, cont, meant, b.reg, st1, reached, last)
    ensures Writes(more, Branch(g, c, b.at, cond, yes, no, cont).0, meant, b.reg, st, reached, last)
  {
    RegionBranch(g, b, c, cond, yes, no, cont);
    ExprWithin(g, c.values, c.reg, cond);
  }

  lemma {:induction false} MetaIfWrites(g: Globals, call: Oracle, known: set<Name>, b: Builder, insideFunction: bool,
                                        t: Tree, env: Env, st: State, f: Cfg)
    returns (n: nat, last: State)
    requires Ready(b) && ClosedMeta(g, known, insideFunction, t) && t.head.MetaIf?
    requires Sits(known, b, env, st)
    requires Grows(GenMeta(g, b, b.at, insideFunction, t).0.blocks, f)
    ensures Writes(known + DeclaresMeta(t), GenMeta(g, b, b.at, insideFunction, t).0,
                   Specialise(g, call, insideFunction, t, env), b.reg, st, StepN(f, call, Here(b, st), n), last)
    decreases t, 1
  {
    hide GenMeta, Specialise, Sits, Moves, Agree, Eval;
    var start, r := Here(b, st), GenMeta(g, b, b.at, insideFunction, t).0;
    n, last := MetaIfTests(g, call, known, b, insideFunction, t, env, st, f);
    var p := Eval(g, call, t.kids[0], env);
    var meant := Undefined;
    if p.Some? && Truth(p.value.0).Some? {
      var taken := Truth(p.value.0).value;
      var entry := At(if taken then |b.blocks| else MetaIfBranches(g, b, insideFunction, t).1, 0, last);
      meant := SpecialiseTaken(g, call, insideFunction, t, taken, p.value.1);
      var k, end := TakenWrites(g, call, known, b, insideFunction, t, taken, p.value.1, st, last, f);
      Onwards(f, call, start, n, entry, k);
      n, last := n + k, end;
    }
    assert Writes(known + DeclaresMeta(t), r, meant, b.reg, st, StepN(f, call, start, n), last);
    SpecialiseIf(g, call, insideFunction, t, env);
    assert meant == Specialise(g, call, insideFunction, t, env);
  }

  lemma SpecialiseIf(g: Globals, call: Oracle, insideFunction: bool, t: Tree, env: Env)
    requires t.head.MetaIf? && |t.kids| >= 2
    ensures var p := Eval(g, call, t.kids[0], env);
            Specialise(g, call, insideFunction, t, env) ==
            if p.Some? && Truth(p.value.0).Some?
            then SpecialiseTaken(g, call, insideFunction, t, Truth(p.value.0).value, p.value.1) else Undefined
  {
  }

  lemma MetaIfTests(g: Globals, call: Oracle, known: set<Name>, b: Builder, insideFunction: bool, t: Tree,
                    env: Env, st: State, f: Cfg)
    returns (n: nat, last: State)
    requires Ready(b) && ClosedMeta(g, known, insideFunction, t) && t.head.MetaIf?
    requires Sits(known, b, env, st)
    requires Grows(GenMeta(g, b, b.at, insideFunction, t).0.blocks, f)
    ensures var p := Eval(g, call, t.kids[0], env);
            var reached := StepN(f, call, Here(b, st), n);
            if p.Some? && Truth(p.value.0).Some? then
              reached ==
                At(if Truth(p.value.0).value then |b.blocks| else MetaIfBranches(g, b, insideFunction, t).1, 0, last) &&
              Sits(known, b, p.value.1, last) && Moves(st, last, b.reg, b.reg)
            else reached == Stuck
  {
    hide Region, GenMeta, Eval, Grows, StepN, Pending;
    var (j, no) := MetaIfBranches(g, b, insideFunction, t);
    MetaIfBuilt(g, known, b, insideFunction, t);
    n, last := ConditionRuns(g, call, known, b, j.b, t.kids[0], |b.blocks|, no, j.cont, env, st, f);
  }

  lemma {:induction false} TakenWrites(g: Globals, call: Oracle, known: set<Name>, b: Builder, insideFunction: bool,
                                       t: Tree, taken: bool, env: Env, st: State, mid: State, f: Cfg)
    returns (k: nat, last: State)
    requires Ready(b) && ClosedMeta(g, known, insideFunction, t) && t.head.MetaIf?
    requires Sits(known, b, env, mid) && Moves(st, mid, b.reg, b.reg)
    requires Grows(GenMeta(g, b, b.at, insideFunction, t).0.blocks, f)
    ensures var entry := if taken then |b.blocks| else MetaIfBranches(g, b, insideFunction, t).1;
            Writes(known + DeclaresMeta(t), GenMeta(g, b, b.at, insideFunction, t).0,
                   SpecialiseTaken(g, call, insideFunction, t, taken, env), b.reg, st,
                   StepN(f, call, At(entry, 0, mid), k), last)
    decreases t, 0
  {
    hide GenMeta, Grows, Region, Agree, Scoped, Fresh, Sits, KeepsScope, Moves, LeavesWriting, Writes, StepN;
    var first := AddMetaBranch(g, b, None, insideFunction, t.kids[1]);
    var (j, no) := MetaIfBranches(g, b, insideFunction, t);
    var more, most := known + DeclaresMeta(t.kids[1]), known + DeclaresMeta(t);
    var meant := SpecialiseTaken(g, call, insideFunction, t, taken, env);
    SitsScoped(known, b, env, mid);
    MetaIfBuilt(g, known, b, insideFunction, t);
    RegionBranchGrows(g, b, j.b, t.kids[0], |b.blocks|, no, j.cont);
    GrowsTwice(j.b.blocks, GenMeta(g, b, b.at, insideFunction, t).0.blocks, f);
    SitsWider(known, more, b, first.b, env, mid);
    if taken {
      GrowsTwice(first.b.blocks, j.b.blocks, f);
      k, last := MetaBranchWrites(g, call, known, b, None, insideFunction, t.kids[1], env, mid, f);
      SkippedMetaBranch(known, more, most, b, first, j, env, meant, mid, StepN(f, call, At(|b.blocks|, 0, mid), k),
                        last);
    } else if |t.kids| > 2 {
      k, last := MetaBranchWrites(g, call, more, first.b, first.cont, insideFunction, t.kids[2], env, mid, f);
      assert more + DeclaresMeta(t.kids[2]) == most;
      LeavesWritingEarlier(most, j, meant, b.reg, first.b.reg, mid, StepN(f, call, At(no, 0, mid), k), last);
    } else {
      k, last := 0, mid;
      assert more == most;
      NoMetaBranch(more, b, first, env, mid);
      StaysAt(f, call, At(no, 0, mid));
    }
    var entry := if taken then |b.blocks| else no;
    MetaIfArrives(g, most, b, j.b, t.kids[0], |b.blocks|, no, j.cont, meant, st, mid,
                  StepN(f, call, At(entry, 0, mid), k), last);
  }

  /** The names of a branch that is generated later but was not taken agree. */
  lemma SkippedMetaBranch(known: set<Name>, more: set<Name>, most: set<Name>, b: Builder, c: Joined, j: Joined,
                          env: Env, meant: Staged, st: State, reached: Conf, last: State)
    requires KeepsScope(known, more, b, c.b) && KeepsScope(more, most, c.b, j.b) && Sits(known, b, env, st)
    requires c.cont.Some? ==> j.cont == c.cont
    requires LeavesWriting(more, c.b, c.cont, meant, b.reg, st, reached, last)
    ensures LeavesWriting(most, j.b, j.cont, meant, b.reg, st, reached, last)
  {
    if meant.Done? {
      FreshAfter(st, last, b.reg, c.b.reg);
      AgreeWider(more, most, c.b, j.b, meant.env, last);
    }
  }

  lemma LeavesWritingEarlier(known: set<Name>, j: Joined, meant: Staged, low: nat, high: nat, st: State, reached: Conf,
                             last: State)
    requires low <= high && LeavesWriting(known, j.b, j.cont, meant, high, st, reached, last)
    ensures LeavesWriting(known, j.b, j.cont, meant, low, st, reached, last)
  {
  }

  /** Without a false branch a false condition leads to the continue block. */
  lemma NoMetaBranch(known: set<Name>, b: Builder, c: Joined, env: Env, st: State)
    requires Sits(known, c.b, env, st)
    ensures var j := LazyContinue(c.b, c.cont);
            LeavesWriting(known, j.b, j.cont, Done([], env), b.reg, st, At(j.cont.value, 0, st), st)
  {
    assert st.out + EncodeAll([]) == st.out;
  }

  lemma {:induction false} MetasWrite(g: Globals, call: Oracle, known: set<Name>, b: Builder, insideFunction: bool,
                                      ts: seq<Tree>, env: Env, st: State, f: Cfg)
    returns (n: nat, last: State)
    requires Ready(b) && ClosedMetas(g, known, insideFunction, ts)
    requires Sits(known, b, env, st)
    requires Grows(GenMetas(g, b, b.at, insideFunction, ts).0.blocks, f)
    ensures Writes(known + DeclaresMetas(ts), GenMetas(g, b, b.at, insideFunction, ts).0,
                   SpecialiseAll(g, call, insideFunction, ts, env), b.reg, st, StepN(f, call, Here(b, st), n),
                   last)
    decreases ts
  {
    hide GenMeta, Specialise, Agree, Scoped, Fresh, Allocates, Grows;
    if ts == [] {
      n, last := 0, st;
      NothingMoves(st, b.reg);
      assert known + DeclaresMetas(ts) == known;
      assert st.out + EncodeAll([]) == st.out;
    } else {
      var r := GenMeta(g, b, b.at, insideFunction, ts[0]).0;
      var result := GenMetas(g, b, b.at, insideFunction, ts).0;
      var more := known + DeclaresMeta(ts[0]);
      assert more + DeclaresMetas(ts[1..]) == known + DeclaresMetas(ts);
      SpecialiseFirst(g, call, insideFunction, ts, env);
      FirstMeta(g, known, b, insideFunction, ts);
      GrowsTwice(r.blocks, result.blocks, f);
      n, last := MetaWrites(g, call, known, b, insideFunction, ts[0], env, st, f);
      var first := Specialise(g, call, insideFunction, ts[0], env);
      if first.Done? {
        var mid := last;
        FreshAfter(st, mid, b.reg, r.reg);
        var k, end := MetasWrite(g, call, more, r, insideFunction, ts[1..], first.env, mid, f);
        WritesThen(known + DeclaresMetas(ts), result, first.trees,
                   SpecialiseAll(g, call, insideFunction, ts[1..], first.env),
                   b.reg, r.reg, st, mid, f, call, Here(b, st), n, Here(r, mid), k, end);
        n, last := n + k, end;
      }
    }
  }

  /** What is written first and what is written next are written one after the other. */
  lemma WritesThen(known: set<Name>, r: Builder, first: seq<Tree>, rest: Staged,
                   low: nat, middle: nat, st: State, mid: State, f: Cfg, call: Oracle, here: Conf, n: nat,
                   there: Conf, k: nat, last: State)
    requires StepN(f, call, here, n) == there && low <= middle <= r.reg
    requires mid.out == st.out + EncodeAll(first) && mid.args == st.args && Allocates(st, mid, low, middle)
    requires Writes(known, r, rest, middle, mid, StepN(f, call, there, k), last)
    ensures Writes(known, r, After(first, rest), low, st, StepN(f, call, here, n + k), last)
  {
    if rest.Done? {
      AllocatesTwice(st, mid, last, low, middle, r.reg);
    }
    Onwards(f, call, here, n, there, k);
    if !rest.Undefined? {
      EncodeAllAppend(first, rest.trees);
      Assoc(st.out, EncodeAll(first), EncodeAll(rest.trees));
    }
    if rest.Cut? {
      CutAfter(st.out, EncodeAll(first), EncodeAll(rest.trees), rest.beginning);
    }
  }

  lemma CutAfter(before: Layout, first: Layout, rest: Layout, beginning: Layout)
    ensures before + first + (rest + beginning) == before + (first + rest + beginning)
  {
    Assoc(first, rest, beginning);
    Assoc(before, first, rest + beginning);
  }

  lemma SpecialiseFirst(g: Globals, call: Oracle, insideFunction: bool, ts: seq<Tree>, env: Env)
    requires ts != []
    ensures var first := Specialise(g, call, insideFunction, ts[0], env);
            SpecialiseAll(g, call, insideFunction, ts, env) ==
            if first.Done? then After(first.trees, SpecialiseAll(g, call, insideFunction, ts[1..], first.env))
            else first
  {
  }

  lemma FirstMeta(g: Globals, known: set<Name>, b: Builder, insideFunction: bool, ts: seq<Tree>)
    requires Ready(b) && ClosedMetas(g, known, insideFunction, ts) && Scoped(known, b.values, b.reg) && ts != []
    ensures var r := GenMeta(g, b, b.at, insideFunction, ts[0]).0;
            var all := GenMetas(g, b, b.at, insideFunction, ts);
            Ready(r) && Scoped(known + DeclaresMeta(ts[0]), r.values, r.reg) && b.reg <= r.reg <= all.0.reg &&
            all == GenMetas(g, r, r.at, insideFunction, ts[1..]) && Grows(r.blocks, all.0.blocks)
  {
    var r := GenMeta(g, b, b.at, insideFunction, ts[0]).0;
    MetaRegion(g, known, b, insideFunction, ts[0]);
    MetaScopes(g, known, b, insideFunction, ts[0]);
    MetasRegion(g, known + DeclaresMeta(ts[0]), r, insideFunction, ts[1..]);
    var q := GenMetas(g, r, r.at, insideFunction, ts[1..]);
    RegionGrows(r, q.0, q.1);
  }
}
