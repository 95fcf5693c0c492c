/** Runs of acyclic graphs end, within as many blocks as the graph has. */
module Runs {
  import opened Machine
  import opened Graph

  /** Runs to the end of the current block: a jump, a return, or a dead end. */
  function Leave(f: Cfg, call: Oracle, c: Conf): Conf
    decreases if c.At? && c.block < |f| && c.pos < |f[c.block]| then |f[c.block]| - c.pos else 0
  {
    if !c.At? then c
    else if c.block >= |f| || c.pos >= |f[c.block]| then Stuck
    else
      var next := Step(f, call, c);
      if IsTerminator(f[c.block][c.pos]) || !next.At? then next else Leave(f, call, next)
  }

  /** Runs through at most `n` blocks. */
  function BlockSteps(f: Cfg, call: Oracle, c: Conf, n: nat): Conf
    decreases n
  {
    if n == 0 then c else BlockSteps(f, call, Leave(f, call, c), n - 1)
  }

  lemma {:induction false} LeaveIsSteps(f: Cfg, call: Oracle, c: Conf) returns (n: nat)
    ensures StepN(f, call, c, n) == Leave(f, call, c)
    decreases if c.At? && c.block < |f| && c.pos < |f[c.block]| then |f[c.block]| - c.pos else 0
  {
    if !c.At? {
      n := 0;
    } else if c.block >= |f| || c.pos >= |f[c.block]| {
      n := 1;
      assert StepN(f, call, c, 1) == StepN(f, call, Step(f, call, c), 0);
    } else {
      var next := Step(f, call, c);
      if IsTerminator(f[c.block][c.pos]) || !next.At? {
        n := 1;
        assert StepN(f, call, c, 1) == StepN(f, call, next, 0);
      } else {
        var m := LeaveIsSteps(f, call, next);
        n := m + 1;
      }
    }
  }

  lemma {:induction false} BlockStepsAreSteps(f: Cfg, call: Oracle, c: Conf, n: nat) returns (m: nat)
    ensures StepN(f, call, c, m) == BlockSteps(f, call, c, n)
    decreases n
  {
    if n == 0 {
      m := 0;
    } else {
      var first := LeaveIsSteps(f, call, c);
      var rest := BlockStepsAreSteps(f, call, Leave(f, call, c), n - 1);
      StepAdd(f, call, c, first, rest);
      m := first + rest;
    }
  }

  /** Control leaves a block only for one of its successors. */
  lemma {:induction false} LeaveJumps(f: Cfg, call: Oracle, c: Conf)
    requires c.At? && Leave(f, call, c).At?
    ensures c.block < |f| && Leave(f, call, c).block in Succs(f[c.block])
    decreases if c.At? && c.block < |f| && c.pos < |f[c.block]| then |f[c.block]| - c.pos else 0
  {
    var next := Step(f, call, c);
    if IsTerminator(f[c.block][c.pos]) {
      TargetsAreSuccs(f[c.block], c.pos);
    } else {
      LeaveJumps(f, call, next);
    }
  }

  lemma {:induction false} EndedBlocks(f: Cfg, call: Oracle, c: Conf, n: nat)
    requires !c.At?
    ensures BlockSteps(f, call, c, n) == c
    decreases n
  {
    if n != 0 {
      EndedBlocks(f, call, c, n - 1);
    }
  }

  lemma {:induction false} BlockStepsAdd(f: Cfg, call: Oracle, c: Conf, m: nat, n: nat)
    ensures BlockSteps(f, call, c, m + n) == BlockSteps(f, call, BlockSteps(f, call, c, m), n)
    decreases m
  {
    if m != 0 {
      BlockStepsAdd(f, call, Leave(f, call, c), m - 1, n);
    }
  }

  /** In a graph whose jumps all go forward in `order`, a run ends before it has
      left more blocks than `order` lists. */
  lemma {:induction false} OrderedEnds(f: Cfg, call: Oracle, order: seq<nat>, c: Conf)
    requires Ordered(f, order, {}) && c.At? && c.block in order
    ensures !BlockSteps(f, call, c, |order|).At?
    decreases order
  {
    if c.block == order[0] {
      var next := Leave(f, call, c);
      if next.At? {
        LeaveJumps(f, call, c);
        assert next.block in Elems(order[1..]);
        OrderedEnds(f, call, order[1..], next);
      } else {
        EndedBlocks(f, call, next, |order| - 1);
      }
    } else {
      OrderedEnds(f, call, order[1..], c);
      BlockStepsAdd(f, call, c, |order| - 1, 1);
      EndedBlocks(f, call, BlockSteps(f, call, c, |order| - 1), 1);
    }
  }

  function NumbersBelow(n: nat): (s: set<nat>)
    ensures |s| == n
    ensures forall i: nat :: i in s <==> i < n
  {
    if n == 0 then {} else NumbersBelow(n - 1) + {n - 1}
  }

  lemma {:induction false} OrderedDistinct(f: Cfg, order: seq<nat>, exits: set<nat>)
    requires Ordered(f, order, exits)
    ensures |Elems(order)| == |order|
    decreases order
  {
    if order != [] {
      OrderedDistinct(f, order[1..], exits);
      assert Elems(order) == Elems(order[1..]) + {order[0]};
    }
  }

  /** A run of an acyclic graph from its entry passes at most as many blocks as
      there are, whatever the state it starts in. */
  lemma AcyclicEnds(f: Cfg, call: Oracle, st: State)
    requires Acyclic(f) && f != []
    ensures !BlockSteps(f, call, At(0, 0, st), |f|).At?
  {
    var order: seq<nat> :| Lists(order, 0, |f|) && Ordered(f, order, {});
    OrderedDistinct(f, order, {});
    assert Elems(order) == NumbersBelow(|f|);
    OrderedEnds(f, call, order, At(0, 0, st));
  }

  function Start(args: seq<int>): Conf {
    At(0, 0, State(map[], map[], args, []))
  }

  /** What a call of the function does. */
  function Run(f: Cfg, call: Oracle, args: seq<int>): Conf {
    BlockSteps(f, call, Start(args), |f|)
  }

  /** However the end of a run was found, it is what the call does. */
  lemma RunIsTheEnd(f: Cfg, call: Oracle, args: seq<int>, n: nat)
    requires Acyclic(f) && f != []
    requires !StepN(f, call, Start(args), n).At?
    ensures Run(f, call, args) == StepN(f, call, Start(args), n)
  {
    AcyclicEnds(f, call, State(map[], map[], args, []));
    var m := BlockStepsAreSteps(f, call, Start(args), |f|);
    EndsOnce(f, call, Start(args), m, n);
  }
}
