/** Control flow graphs under construction: which blocks a block jumps to,
    topological orders, and what it means to grow a graph. */
module Graph {
  import opened Machine

  function Targets(i: Instr): set<nat> {
    match i
    case Br(t) => {t}
    case CondBr(_, yes, no) => {yes, no}
    case _ => {}
  }

  function Succs(code: Code): set<nat> {
    if code == [] then {} else Succs(code[..|code| - 1]) + Targets(code[|code| - 1])
  }

  lemma {:induction false} SuccsAppend(a: Code, b: Code)
    ensures Succs(a + b) == Succs(a) + Succs(b)
    decreases b
  {
    if b == [] {
      assert a + b == a;
    } else {
      assert (a + b)[..|a + b| - 1] == a + b[..|b| - 1];
      SuccsAppend(a, b[..|b| - 1]);
    }
  }

  lemma {:induction false} OpenHasNoSuccs(code: Code)
    requires Open(code)
    ensures Succs(code) == {}
    decreases code
  {
    if code != [] {
      OpenHasNoSuccs(code[..|code| - 1]);
      assert !IsTerminator(code[|code| - 1]);
    }
  }

  lemma {:induction false} TargetsAreSuccs(code: Code, i: nat)
    requires i < |code|
    ensures Targets(code[i]) <= Succs(code)
    decreases code
  {
    if i < |code| - 1 {
      TargetsAreSuccs(code[..|code| - 1], i);
    }
  }

  function Elems(order: seq<nat>): set<nat> {
    set x | x in order
  }

  lemma ElemsAppend(a: seq<nat>, b: seq<nat>)
    ensures Elems(a + b) == Elems(a) + Elems(b)
  {
  }

  /** Every block of `order` jumps only to later ones of `order` and to `exits`. */
  ghost predicate Ordered(f: Cfg, order: seq<nat>, exits: set<nat>)
    decreases order
  {
    order == [] ||
    (order[0] < |f| && order[0] !in order[1..] &&
     Succs(f[order[0]]) <= Elems(order[1..]) + exits && Ordered(f, order[1..], exits))
  }

  lemma {:induction false} OrderedAppend(f: Cfg, a: seq<nat>, b: seq<nat>, exits: set<nat>)
    requires Ordered(f, a, Elems(b) + exits) && Ordered(f, b, exits) && Elems(a) !! Elems(b)
    ensures Ordered(f, a + b, exits)
    decreases a
  {
    if a == [] {
      assert a + b == b;
    } else {
      assert (a + b)[1..] == a[1..] + b;
      assert a[0] in Elems(a);
      ElemsAppend(a[1..], b);
      assert forall x | x in Elems(a[1..]) :: x in Elems(a);
      OrderedAppend(f, a[1..], b, exits);
    }
  }

  /** Blocks may gain jumps to `more` without disturbing the order. */
  lemma {:induction false} OrderedGrows(f: Cfg, h: Cfg, order: seq<nat>, exits: set<nat>, more: set<nat>)
    requires Ordered(f, order, exits)
    requires forall i | i in order && i < |f| :: i < |h| && Succs(h[i]) <= Succs(f[i]) + more
    ensures Ordered(h, order, exits + more)
    decreases order
  {
    if order != [] {
      assert order[0] in order;
      assert forall i | i in order[1..] :: i in order;
      OrderedGrows(f, h, order[1..], exits, more);
    }
  }

  /** `order` lists exactly the blocks from `low` up to `high`. */
  ghost predicate Lists(order: seq<nat>, low: nat, high: nat) {
    forall i: nat :: i in order <==> low <= i < high
  }

  /** Every jump of the code leads to a block from `low` up to `high`. */
  ghost predicate JumpsWithin(code: Code, low: nat, high: nat) {
    forall t | t in Succs(code) :: low <= t < high
  }

  /** Every block of `f` starts with the code it has in `h`. */
  ghost predicate Grows(f: Cfg, h: Cfg) {
    |f| <= |h| && forall i | 0 <= i < |f| :: f[i] <= h[i]
  }

  lemma GrowsTwice(f: Cfg, h: Cfg, k: Cfg)
    requires Grows(f, h) && Grows(h, k)
    ensures Grows(f, k)
  {
    forall i | 0 <= i < |f|
      ensures f[i] <= k[i]
    {
      assert f[i] <= h[i] <= k[i];
    }
  }

  /** A graph whose blocks all end in their only terminator and jump only to
      blocks of the graph. */
  ghost predicate WellFormed(f: Cfg) {
    f != [] &&
    forall i | 0 <= i < |f| :: Terminated(f[i]) && JumpsWithin(f[i], 0, |f|)
  }

  /** A graph without cycles: its blocks can be listed so that every jump goes forward. */
  ghost predicate Acyclic(f: Cfg) {
    exists order: seq<nat> :: Lists(order, 0, |f|) && Ordered(f, order, {})
  }
}
