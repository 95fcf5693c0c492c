/** Generated control flow never loops.  Creation order does not show this: the
    continue block of an `if` can be older than the blocks of its false branch
    (src/Codegen/FunctionCodegen.cpp, codegenIfStructure). */
module Acyclicity {
  import opened Wrappers
  import opened Ast
  import opened Machine
  import opened Semantics
  import opened Graph
  import opened StmtCodegen

  /** `order` lists the new blocks so that, entered from the block the builder
      was in, control only moves forward. */
  ghost predicate OrderOf(b: Builder, r: Builder, order: seq<nat>) {
    Lists(order, |b.blocks|, |r.blocks|) && Ordered(r.blocks, [b.at] + order, {})
  }

  lemma OrderStarts(b: Builder, r: Builder)
    requires b.at < |r.blocks| && |r.blocks| == |b.blocks| && Succs(r.blocks[b.at]) == {}
    ensures OrderOf(b, r, [])
  {
    assert ([b.at] + [])[1..] == [];
  }

  /** Two ordered stretches of a graph, the second entered from a block of the first. */
  lemma OrderChain(f: Cfg, h: Cfg, first: seq<nat>, at: nat, second: seq<nat>)
    requires Ordered(f, first, {}) && Ordered(h, [at] + second, {})
    requires at < |f| && Succs(f[at]) == {}
    requires forall i | i in first && i < |f| && i != at :: i < |h| && h[i] == f[i]
    requires Elems(first) !! Elems(second)
    ensures Ordered(h, first + second, {})
  {
    assert ([at] + second)[1..] == second;
    OrderedGrows(f, h, first, {}, Elems(second));
    assert {} + Elems(second) == Elems(second) + {};
    OrderedAppend(h, first, second, {});
  }

  lemma OrderTwice(b: Builder, m: Builder, r: Builder, end: Option<nat>, first: seq<nat>, second: seq<nat>)
    requires Region(b, m, Some(m.at)) && Region(m, r, end)
    requires OrderOf(b, m, first) && OrderOf(m, r, second)
    ensures OrderOf(b, r, first + second)
  {
    OpenHasNoSuccs(m.blocks[m.at]);
    var whole := [b.at] + first;
    forall i | i in whole && i < |m.blocks| && i != m.at
      ensures i < |r.blocks| && r.blocks[i] == m.blocks[i]
    {
    }
    assert Elems(whole) !! Elems(second) by {
      forall i | i in whole
        ensures i !in second
      {
        assert i < |m.blocks|;
      }
    }
    OrderChain(m.blocks, r.blocks, whole, m.at, second);
    assert [b.at] + (first + second) == whole + second;
  }

  function Opt(x: Option<nat>): seq<nat> {
    if x.Some? then [x.value] else []
  }

  /** The order of the branches of an `if` under construction: they leave
      through the continue block only. */
  ghost predicate PendingOrder(b: Builder, c: Builder, cont: Option<nat>, order: seq<nat>) {
    Lists(order + Opt(cont), |b.blocks|, |c.blocks|) && (cont.Some? ==> cont.value !in order) &&
    Ordered(c.blocks, order, Elems(Opt(cont)))
  }

  lemma PendingOrderBranch(b: Builder, c: Builder, cont: Option<nat>, order: seq<nat>,
                           r: Builder, end: Option<nat>, inner: seq<nat>)
    requires Pending(b, c, cont) && PendingOrder(b, c, cont, order)
    requires Region(StartBranch(c), r, end) && OrderOf(StartBranch(c), r, inner)
    ensures var j := Join(r, end, cont);
            PendingOrder(b, j.b, j.cont, order + ([|c.blocks|] + inner))
  {
    var j := Join(r, end, cont);
    var branch := [|c.blocks|] + inner;
    EarlierStays(b, c, cont, order, r, end, inner);
    BranchJoins(b, c, cont, r, end, inner);
    BranchLists(b, c, cont, order, r, end, inner);
    OrderedWiden(j.b.blocks, order, Elems(Opt(j.cont)), Elems(branch) + Elems(Opt(j.cont)));
    OrderedAppend(j.b.blocks, order, branch, Elems(Opt(j.cont)));
  }

  /** A new branch does not disturb the earlier ones. */
  lemma EarlierStays(b: Builder, c: Builder, cont: Option<nat>, order: seq<nat>,
                     r: Builder, end: Option<nat>, inner: seq<nat>)
    requires Pending(b, c, cont) && PendingOrder(b, c, cont, order)
    requires Region(StartBranch(c), r, end) && OrderOf(StartBranch(c), r, inner)
    ensures var j := Join(r, end, cont); Ordered(j.b.blocks, order, Elems(Opt(j.cont)))
  {
    var start := StartBranch(c);
    var j := Join(r, end, cont);
    forall i | i in order && i < |c.blocks|
      ensures i < |j.b.blocks| && Succs(j.b.blocks[i]) <= Succs(c.blocks[i]) + {}
    {
      assert i in order + Opt(cont);
      assert start.blocks[i] == c.blocks[i];
      assert r.blocks[i] == start.blocks[i];
      assert end.Some? ==> end.value >= |c.blocks|;
      assert j.b.blocks[i] == r.blocks[i];
    }
    OrderedGrows(c.blocks, j.b.blocks, order, Elems(Opt(cont)), {});
    OrderedWiden(j.b.blocks, order, Elems(Opt(cont)) + {}, Elems(Opt(j.cont)));
  }

  /** The new branch leaves through the continue block only. */
  lemma BranchJoins(b: Builder, c: Builder, cont: Option<nat>, r: Builder, end: Option<nat>, inner: seq<nat>)
    requires Pending(b, c, cont)
    requires Region(StartBranch(c), r, end) && OrderOf(StartBranch(c), r, inner)
    ensures var j := Join(r, end, cont); Ordered(j.b.blocks, [|c.blocks|] + inner, Elems(Opt(j.cont)))
  {
    var j := Join(r, end, cont);
    var branch := [|c.blocks|] + inner;
    forall i | i in branch && i < |r.blocks|
      ensures i < |j.b.blocks| && Succs(j.b.blocks[i]) <= Succs(r.blocks[i]) + Elems(Opt(j.cont))
    {
      if end == Some(i) {
        var l := LazyContinue(r, cont);
        assert l.b.blocks[i] == r.blocks[i];
        assert j.b.blocks[i] == r.blocks[i] + [Br(l.cont.value)];
        SuccsAppend(r.blocks[i], [Br(l.cont.value)]);
        assert Succs([Br(l.cont.value)]) == {l.cont.value};
      } else {
        assert j.b.blocks[i] == r.blocks[i];
      }
    }
    OrderedGrows(r.blocks, j.b.blocks, branch, {}, Elems(Opt(j.cont)));
    assert {} + Elems(Opt(j.cont)) == Elems(Opt(j.cont));
  }

  lemma BranchLists(b: Builder, c: Builder, cont: Option<nat>, order: seq<nat>,
                    r: Builder, end: Option<nat>, inner: seq<nat>)
    requires Pending(b, c, cont) && PendingOrder(b, c, cont, order)
    requires Region(StartBranch(c), r, end) && OrderOf(StartBranch(c), r, inner)
    ensures var j := Join(r, end, cont);
            var branch := [|c.blocks|] + inner;
            Lists(order + branch + Opt(j.cont), |b.blocks|, |j.b.blocks|) && Elems(order) !! Elems(branch) &&
            (j.cont.Some? ==> j.cont.value !in order + branch)
  {
    var start := StartBranch(c);
    var j := Join(r, end, cont);
    var branch := [|c.blocks|] + inner;
    assert |start.blocks| == |c.blocks| + 1;
    forall i: nat
      ensures i in branch <==> |c.blocks| <= i < |r.blocks|
    {
      assert i in inner <==> |start.blocks| <= i < |r.blocks|;
    }
    forall i: nat
      ensures i in order || i in Opt(cont) <==> |b.blocks| <= i < |c.blocks|
    {
      assert i in order + Opt(cont) <==> |b.blocks| <= i < |c.blocks|;
    }
    forall i: nat
      ensures i in order + branch + Opt(j.cont) <==> |b.blocks| <= i < |j.b.blocks|
    {
    }
  }

  lemma {:induction false} OrderedWiden(f: Cfg, order: seq<nat>, exits: set<nat>, wider: set<nat>)
    requires Ordered(f, order, exits) && exits <= wider
    ensures Ordered(f, order, wider)
    decreases order
  {
    if order != [] {
      OrderedWiden(f, order[1..], exits, wider);
    }
  }

  lemma PendingOrderContinue(b: Builder, c: Builder, cont: Option<nat>, order: seq<nat>)
    requires Pending(b, c, cont) && PendingOrder(b, c, cont, order)
    ensures var j := LazyContinue(c, cont); PendingOrder(b, j.b, j.cont, order)
  {
    if cont.None? {
      OrderBeforeBlock(c.blocks, order, |b.blocks|);
    }
  }

  /** A new block can follow everything that is ordered already. */
  lemma OrderBeforeBlock(f: Cfg, order: seq<nat>, low: nat)
    requires Lists(order + [], low, |f|) && Ordered(f, order, Elems([])) && low <= |f|
    ensures Lists(order + [|f|], low, |f| + 1) && |f| !in order && Ordered(f + [[]], order, Elems([|f|]))
  {
    assert order + [] == order;
    forall i: nat
      ensures i in order + [|f|] <==> low <= i < |f| + 1
    {
      assert i in order <==> low <= i < |f|;
    }
    OrderedGrows(f, f + [[]], order, Elems([]), {});
    OrderedWiden(f + [[]], order, Elems([]) + {}, Elems([|f|]));
  }

  lemma OrderBranch(g: Globals, b: Builder, c: Builder, cond: Tree, yes: nat, no: nat, cont: Option<nat>,
                    order: seq<nat>)
    requires Pending(b, c, cont) && PendingOrder(b, c, cont, order)
    requires |b.blocks| <= yes < |c.blocks| && |b.blocks| <= no < |c.blocks|
    ensures var r := Branch(g, c, b.at, cond, yes, no, cont).0; OrderOf(b, r, order + Opt(cont))
  {
    var r := Branch(g, c, b.at, cond, yes, no, cont).0;
    var all := order + Opt(cont);
    RegionBranch(g, b, c, cond, yes, no, cont);
    forall i | i in order && i < |c.blocks|
      ensures i < |r.blocks| && Succs(r.blocks[i]) <= Succs(c.blocks[i]) + {}
    {
      assert i in all;
      assert i != b.at;
      assert r.blocks[i] == c.blocks[i];
    }
    OrderedGrows(c.blocks, r.blocks, order, Elems(Opt(cont)), {});
    assert Elems(Opt(cont)) + {} == Elems(Opt(cont));
    if cont.Some? {
      assert r.blocks[cont.value] == c.blocks[cont.value];
      assert [cont.value][1..] == [];
    }
    assert Ordered(r.blocks, Opt(cont), {});
    OrderedAppend(r.blocks, order, Opt(cont), {});
    assert yes in all && no in all;
    assert ([b.at] + all)[1..] == all;
  }

  /** The blocks a statement creates can be listed so that every jump goes forward. */
  lemma {:induction false} StmtOrder(g: Globals, known: set<Name>, b: Builder, s: Tree) returns (order: seq<nat>)
    requires Ready(b) && ClosedStmt(g, known, s)
    ensures OrderOf(b, GenStmt(g, b, b.at, s).0, order)
    decreases s, 1
  {
    StmtRegion(g, known, b, s);
    match s.head
    case UnscopedCompound | Compound => order := StmtsOrder(g, known, b, s.kids);
    case If => order := IfOrder(g, known, b, s);
    case _ =>
      order := [];
      StraightLine(b, GenStmt(g, b, b.at, s).0, GenStmt(g, b, b.at, s).1);
  }

  /** A region that created no block. */
  lemma StraightLine(b: Builder, r: Builder, end: Option<nat>)
    requires Region(b, r, end) && |r.blocks| == |b.blocks|
    ensures OrderOf(b, r, [])
  {
    assert IsPart(b, r, b.at);
    assert JumpsWithin(r.blocks[b.at], |b.blocks|, |b.blocks|);
    assert Succs(r.blocks[b.at]) == {} by {
      forall t | t in Succs(r.blocks[b.at])
        ensures false
      {
      }
    }
    OrderStarts(b, r);
  }

  lemma {:induction false} IfOrder(g: Globals, known: set<Name>, b: Builder, s: Tree) returns (order: seq<nat>)
    requires Ready(b) && ClosedStmt(g, known, s) && s.head.If?
    ensures OrderOf(b, GenStmt(g, b, b.at, s).0, order)
    decreases s, 0
  {
    var yes := |b.blocks|;
    assert PendingOrder(b, b, None, []);
    var c, cont, first := BranchOrder(g, known, b, b, None, [], s.kids[1]);
    if |s.kids| > 2 {
      var no := |c.blocks|;
      var c2, cont2, both := BranchOrder(g, known + Declares(s.kids[1]), b, c, cont, first, s.kids[2]);
      OrderBranch(g, b, c2, s.kids[0], yes, no, cont2, both);
      order := both + Opt(cont2);
    } else {
      var j := LazyContinue(c, cont);
      PendingContinue(b, c, cont);
      PendingOrderContinue(b, c, cont, first);
      OrderBranch(g, b, j.b, s.kids[0], yes, j.cont.value, j.cont, first);
      order := first + Opt(j.cont);
    }
  }

  /** Adds the branch `s` to an `if` under construction. */
  lemma {:induction false} BranchOrder(g: Globals, known: set<Name>, b: Builder, c: Builder, cont: Option<nat>,
                                       order: seq<nat>, s: Tree)
    returns (next: Builder, nextCont: Option<nat>, nextOrder: seq<nat>)
    requires Pending(b, c, cont) && PendingOrder(b, c, cont, order) && ClosedStmt(g, known, s)
    ensures var r := GenStmt(g, StartBranch(c), |c.blocks|, s);
            var j := Join(r.0, r.1, cont);
            next == j.b && nextCont == j.cont && |c.blocks| < |next.blocks|
    ensures Pending(b, next, nextCont) && PendingOrder(b, next, nextCont, nextOrder)
    decreases s, 2
  {
    var r := GenStmt(g, StartBranch(c), |c.blocks|, s);
    var j := Join(r.0, r.1, cont);
    StmtRegion(g, known, StartBranch(c), s);
    PendingBranch(b, c, cont, r.0, r.1);
    var inner := StmtOrder(g, known, StartBranch(c), s);
    PendingOrderBranch(b, c, cont, order, r.0, r.1, inner);
    next, nextCont, nextOrder := j.b, j.cont, order + ([|c.blocks|] + inner);
  }

  lemma {:induction false} StmtsOrder(g: Globals, known: set<Name>, b: Builder, ss: seq<Tree>) returns (order: seq<nat>)
    requires Ready(b) && ClosedStmts(g, known, ss)
    ensures OrderOf(b, GenStmts(g, b, b.at, ss).0, order)
    decreases ss
  {
    if ss == [] {
      order := [];
      OpenHasNoSuccs(b.blocks[b.at]);
      OrderStarts(b, b);
    } else {
      var r := GenStmt(g, b, b.at, ss[0]);
      StmtRegion(g, known, b, ss[0]);
      order := StmtOrder(g, known, b, ss[0]);
      if r.1.Some? {
        var rest := known + Declares(ss[0]);
        StmtsRegion(g, rest, r.0, ss[1..]);
        var second := StmtsOrder(g, rest, r.0, ss[1..]);
        OrderTwice(b, r.0, GenStmts(g, r.0, r.0.at, ss[1..]).0, GenStmts(g, r.0, r.0.at, ss[1..]).1, order, second);
        order := order + second;
      }
    }
  }

  /** An `if` with two branches: its continue block, number 2, is older than the
      block of its false branch, number 3, which jumps back to it. */
  lemma CreationOrderExample(g: Globals)
    ensures var empty := Tree(Compound, []);
            var s := Tree(If, [Tree(BooleanLiteral(true), []), empty, empty]);
            var r := GenStmt(g, Builder([[]], 0, 0, map[]), 0, s);
            ClosedStmt(g, {}, s) && r.1 == Some(2) && |r.0.blocks| == 4 &&
            Succs(r.0.blocks[0]) == {1, 3} && Succs(r.0.blocks[3]) == {2}
  {
    hide GenStmt, Join, StartBranch, Branch, ClosedStmt, Declares;
    var empty, cond := Tree(Compound, []), Tree(BooleanLiteral(true), []);
    var s := Tree(If, [cond, empty, empty]);
    var b := Builder([[]], 0, 0, map[]);
    var first := StartBranch(b);
    var j := Join(first, Some(1), None);
    var second := StartBranch(j.b);
    var k := Join(second, Some(3), Some(2));
    BranchBlocks(b);
    EmptyBranch(g, first, empty);
    EmptyBranch(g, second, empty);
    TwoBranches(g, b, s, first, j, second, k);
    FinishedBranches(g, k.b);
    EmptyIfIsClosed(g, s);
  }

  lemma EmptyIfIsClosed(g: Globals, s: Tree)
    requires s.head.If? && s.kids == [Tree(BooleanLiteral(true), []), Tree(Compound, []), Tree(Compound, [])]
    ensures ClosedStmt(g, {}, s)
  {
  }

  lemma BranchBlocks(b: Builder)
    requires b.blocks == [[]] && b.at == 0
    ensures var first := StartBranch(b);
            var j := Join(first, Some(1), None);
            var second := StartBranch(j.b);
            var k := Join(second, Some(3), Some(2));
            first.at == 1 && j.cont == Some(2) && |j.b.blocks| == 3 && second.at == 3 && k.cont == Some(2) &&
            k.b.blocks == [[], [Br(2)], [], [Br(2)]]
  {
    var first := StartBranch(b);
    assert first.blocks == [[], []];
    var j := Join(first, Some(1), None);
    assert LazyContinue(first, None).b.blocks == [[], [], []];
    assert j.b.blocks == [[], [] + [Br(2)], []] && [] + [Br(2)] == [Br(2)];
    var second := StartBranch(j.b);
    assert second.blocks == [[], [Br(2)], [], []];
    var k := Join(second, Some(3), Some(2));
    assert k.b.blocks == [[], [Br(2)], [], [] + [Br(2)]];
  }

  lemma TwoBranches(g: Globals, b: Builder, s: Tree, first: Builder, j: Joined, second: Builder, k: Joined)
    requires s.head.If? && |s.kids| == 3 && first == StartBranch(b) && second == StartBranch(j.b)
    requires GenStmt(g, first, |b.blocks|, s.kids[1]) == (first, Some(|b.blocks|))
    requires j == Join(first, Some(|b.blocks|), None)
    requires GenStmt(g, second, |j.b.blocks|, s.kids[2]) == (second, Some(|j.b.blocks|))
    requires k == Join(second, Some(|j.b.blocks|), j.cont)
    ensures GenStmt(g, b, b.at, s) == Branch(g, k.b, b.at, s.kids[0], |b.blocks|, |j.b.blocks|, k.cont)
  {
  }

  lemma FinishedBranches(g: Globals, b: Builder)
    requires b.blocks == [[], [Br(2)], [], [Br(2)]]
    ensures var r := Branch(g, b, 0, Tree(BooleanLiteral(true), []), 1, 3, Some(2));
            r.1 == Some(2) && |r.0.blocks| == 4 && Succs(r.0.blocks[0]) == {1, 3} && Succs(r.0.blocks[3]) == {2}
  {
    var test := [IsNotNull(b.reg, Const(1))] + [CondBr(Temp(b.reg), 1, 3)];
    var r := Branch(g, b, 0, Tree(BooleanLiteral(true), []), 1, 3, Some(2)).0;
    assert r.blocks[0] == test;
    SuccsAppend([IsNotNull(b.reg, Const(1))], [CondBr(Temp(b.reg), 1, 3)]);
    assert [IsNotNull(b.reg, Const(1))][..0] == [] && [CondBr(Temp(b.reg), 1, 3)][..0] == [] && [Br(2)][..0] == [];
  }

  lemma EmptyBranch(g: Globals, b: Builder, s: Tree)
    requires s == Tree(Compound, [])
    ensures GenStmt(g, b, b.at, s) == (b, Some(b.at)) && ClosedStmt(g, {}, s) && Declares(s) == {}
  {
  }
}
