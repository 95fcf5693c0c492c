/** Finding the instantiations code depends on before it is generated
    (src/Sema/DependencyAnalysis.cpp), and which of those the generators look
    up. */
module DependencyAnalysis {
  import opened Ast
  import opened Sequences

  /** Where a node stands below a root: the child to take at every level. */
  type Path = seq<nat>

  /** An instantiation expression and its place; two equal expressions at
      different places are different nodes. */
  datatype Occurrence = Occurrence(path: Path, inst: Tree)

  type Consumer = Occurrence -> bool

  /** All instantiations below a node, itself included, in pre-order. */
  function Instantiations(t: Tree, at: Path): seq<Occurrence>
    decreases t, 0
  {
    (if t.head.MetaInstantiation? then [Occurrence(at, t)] else []) + InstantiationsOf(t.kids, at, 0)
  }

  function InstantiationsOf(ts: seq<Tree>, at: Path, i: nat): seq<Occurrence>
    decreases ts
  {
    if ts == [] then [] else Instantiations(ts[0], at + [i]) + InstantiationsOf(ts[1..], at, i + 1)
  }

  /** Visits a node and its children until the consumer refuses one; the second
      component lists what was handed over. */
  function ConsumeAll(t: Tree, at: Path, consumer: Consumer): (bool, seq<Occurrence>)
    decreases t, 0
  {
    var here := Occurrence(at, t);
    if t.head.MetaInstantiation? && !consumer(here) then (false, [here])
    else
      var (ok, handed) := ConsumeChildren(t.kids, at, 0, consumer);
      (ok, (if t.head.MetaInstantiation? then [here] else []) + handed)
  }

  function ConsumeChildren(ts: seq<Tree>, at: Path, i: nat, consumer: Consumer): (bool, seq<Occurrence>)
    decreases ts
  {
    if ts == [] then (true, [])
    else
      var (ok, handed) := ConsumeAll(ts[0], at + [i], consumer);
      if !ok then (false, handed)
      else
        var (all, more) := ConsumeChildren(ts[1..], at, i + 1, consumer);
        (all, handed + more)
  }

  /** What a meta declaration has consumed below a child of it: of a meta-if
      the condition, of a calculation everything, of any other node what its
      children have. */
  function MetaInstantiations(t: Tree, at: Path): seq<Occurrence>
    decreases t, 0
  {
    match t.head
    case MetaIf => if t.kids == [] then [] else Instantiations(t.kids[0], at + [0])
    case MetaCalculation => Instantiations(t, at)
    case _ => MetaInstantiationsOf(t.kids, at, 0)
  }

  function MetaInstantiationsOf(ts: seq<Tree>, at: Path, i: nat): seq<Occurrence>
    decreases ts
  {
    if ts == [] then [] else MetaInstantiations(ts[0], at + [i]) + MetaInstantiationsOf(ts[1..], at, i + 1)
  }

  function ConsumeMeta(t: Tree, at: Path, consumer: Consumer): (bool, seq<Occurrence>)
    decreases t, 0
  {
    match t.head
    case MetaIf => if t.kids == [] then (true, []) else ConsumeAll(t.kids[0], at + [0], consumer)
    case MetaCalculation => ConsumeAll(t, at, consumer)
    case _ => ConsumeAllMeta(t.kids, at, 0, consumer)
  }

  function ConsumeAllMeta(ts: seq<Tree>, at: Path, i: nat, consumer: Consumer): (bool, seq<Occurrence>)
    decreases ts
  {
    if ts == [] then (true, [])
    else
      var (ok, handed) := ConsumeMeta(ts[0], at + [i], consumer);
      if !ok then (false, handed)
      else
        var (all, more) := ConsumeAllMeta(ts[1..], at, i + 1, consumer);
        (all, handed + more)
  }

  /** Handing over a list in order until the consumer refuses. */
  function UpToRefusal(os: seq<Occurrence>, consumer: Consumer): (r: (bool, seq<Occurrence>))
    ensures r.1 <= os
    ensures r.0 <==> forall o | o in os :: consumer(o)
    ensures r.0 ==> r.1 == os
    ensures !r.0 ==> r.1 != [] && !consumer(r.1[|r.1| - 1]) &&
                     forall k | 0 <= k < |r.1| - 1 :: consumer(r.1[k])
  {
    if os == [] then (true, [])
    else if !consumer(os[0]) then (false, [os[0]])
    else
      var (ok, handed) := UpToRefusal(os[1..], consumer);
      assert forall o :: o in os <==> o == os[0] || o in os[1..];
      (ok, [os[0]] + handed)
  }

  lemma {:induction false} UpToAppend(a: seq<Occurrence>, b: seq<Occurrence>, consumer: Consumer)
    ensures UpToRefusal(a + b, consumer) ==
            var (ok, handed) := UpToRefusal(a, consumer);
            if !ok then (false, handed)
            else
              var (all, more) := UpToRefusal(b, consumer);
              (all, handed + more)
    decreases a
  {
    if a == [] {
      EmptyLeft(b);
      EmptyLeft(UpToRefusal(b, consumer).1);
    } else {
      FirstOfAppend(a, b);
      UpToAppend(a[1..], b, consumer);
      if consumer(a[0]) && UpToRefusal(a[1..], consumer).0 {
        Assoc([a[0]], UpToRefusal(a[1..], consumer).1, UpToRefusal(b, consumer).1);
      }
    }
  }

  /** Every instantiation is handed over in pre-order, until one is refused. */
  lemma {:induction false} ConsumesInOrder(t: Tree, at: Path, consumer: Consumer)
    ensures ConsumeAll(t, at, consumer) == UpToRefusal(Instantiations(t, at), consumer)
    decreases t, 0
  {
    var below := InstantiationsOf(t.kids, at, 0);
    ConsumesChildrenInOrder(t.kids, at, 0, consumer);
    if t.head.MetaInstantiation? {
      RestOfCons(Occurrence(at, t), below);
    } else {
      EmptyLeft(below);
      EmptyLeft(UpToRefusal(below, consumer).1);
    }
  }

  lemma {:induction false} ConsumesChildrenInOrder(ts: seq<Tree>, at: Path, i: nat, consumer: Consumer)
    ensures ConsumeChildren(ts, at, i, consumer) == UpToRefusal(InstantiationsOf(ts, at, i), consumer)
    decreases ts
  {
    if ts != [] {
      ConsumesInOrder(ts[0], at + [i], consumer);
      ConsumesChildrenInOrder(ts[1..], at, i + 1, consumer);
      UpToAppend(Instantiations(ts[0], at + [i]), InstantiationsOf(ts[1..], at, i + 1), consumer);
    }
  }

  lemma {:induction false} MetaConsumesInOrder(t: Tree, at: Path, consumer: Consumer)
    ensures ConsumeMeta(t, at, consumer) == UpToRefusal(MetaInstantiations(t, at), consumer)
    decreases t, 0
  {
    match t.head
    case MetaIf =>
      if t.kids != [] {
        ConsumesInOrder(t.kids[0], at + [0], consumer);
      }
    case MetaCalculation => ConsumesInOrder(t, at, consumer);
    case _ => MetaConsumesChildrenInOrder(t.kids, at, 0, consumer);
  }

  lemma {:induction false} MetaConsumesChildrenInOrder(ts: seq<Tree>, at: Path, i: nat, consumer: Consumer)
    ensures ConsumeAllMeta(ts, at, i, consumer) == UpToRefusal(MetaInstantiationsOf(ts, at, i), consumer)
    decreases ts
  {
    if ts != [] {
      MetaConsumesInOrder(ts[0], at + [i], consumer);
      MetaConsumesChildrenInOrder(ts[1..], at, i + 1, consumer);
      UpToAppend(MetaInstantiations(ts[0], at + [i]), MetaInstantiationsOf(ts[1..], at, i + 1), consumer);
    }
  }

  /** The instantiations the function generator looks up, which must be
      complete by then; it does not enter the arguments of one. */
  function LooksUp(t: Tree, at: Path): set<Occurrence>
    decreases t, 0
  {
    if t.head.MetaInstantiation? then {Occurrence(at, t)} else LooksUpAll(t.kids, at, 0)
  }

  function LooksUpAll(ts: seq<Tree>, at: Path, i: nat): set<Occurrence>
    decreases ts
  {
    if ts == [] then {} else LooksUp(ts[0], at + [i]) + LooksUpAll(ts[1..], at, i + 1)
  }

  /** The instantiations the staging compiler looks up: those in conditions and
      calculations, wherever these stand; contributed code is not generated yet. */
  function MetaLooksUp(t: Tree, at: Path): set<Occurrence>
    decreases t, 0
  {
    match t.head
    case MetaIf =>
      if t.kids == [] then {} else LooksUp(t.kids[0], at + [0]) + MetaLooksUpAll(t.kids[1..], at, 1)
    case MetaCalculation => LooksUp(t, at)
    case _ => MetaLooksUpAll(t.kids, at, 0)
  }

  function MetaLooksUpAll(ts: seq<Tree>, at: Path, i: nat): set<Occurrence>
    decreases ts
  {
    if ts == [] then {} else MetaLooksUp(ts[0], at + [i]) + MetaLooksUpAll(ts[1..], at, i + 1)
  }

  /** Everything the function generator looks up has been handed over. */
  lemma {:induction false} LookupsAreConsumed(t: Tree, at: Path)
    ensures forall o | o in LooksUp(t, at) :: o in Instantiations(t, at)
    decreases t, 0
  {
    LookupsBelowAreConsumed(t.kids, at, 0);
  }

  lemma {:induction false} LookupsBelowAreConsumed(ts: seq<Tree>, at: Path, i: nat)
    ensures forall o | o in LooksUpAll(ts, at, i) :: o in InstantiationsOf(ts, at, i)
    decreases ts
  {
    if ts != [] {
      LookupsAreConsumed(ts[0], at + [i]);
      LookupsBelowAreConsumed(ts[1..], at, i + 1);
    }
  }

  /** Some meta-if has a meta statement in its branches that looks an
      instantiation up. */
  predicate LooksUpInBranches(t: Tree, at: Path)
    decreases t, 0
  {
    match t.head
    case MetaIf => t.kids != [] && MetaLooksUpAll(t.kids[1..], at, 1) != {}
    case MetaCalculation => false
    case _ => AnyLooksUpInBranches(t.kids, at, 0)
  }

  predicate AnyLooksUpInBranches(ts: seq<Tree>, at: Path, i: nat)
    decreases ts
  {
    ts != [] && (LooksUpInBranches(ts[0], at + [i]) || AnyLooksUpInBranches(ts[1..], at, i + 1))
  }

  /** The path leads through a child of `at` numbered from `low` up to `high`. */
  predicate Through(at: Path, low: nat, high: nat, o: Occurrence) {
    |o.path| > |at| && o.path[..|at|] == at && low <= o.path[|at|] < high
  }

  predicate StandsBelow(at: Path, o: Occurrence) {
    |o.path| >= |at| && o.path[..|at|] == at
  }

  lemma BelowChild(at: Path, i: nat, high: nat, o: Occurrence)
    requires StandsBelow(at + [i], o) && i < high
    ensures Through(at, i, high, o) && o.path[|at|] == i
  {
    assert o.path[|at|] == (at + [i])[|at|];
    assert o.path[..|at|] == (at + [i])[..|at|];
  }

  lemma {:induction false} InstantiationsAreBelow(t: Tree, at: Path)
    ensures forall o | o in Instantiations(t, at) :: StandsBelow(at, o)
    decreases t, 0
  {
    InstantiationsAreThrough(t.kids, at, 0);
  }

  lemma {:induction false} InstantiationsAreThrough(ts: seq<Tree>, at: Path, i: nat)
    ensures forall o | o in InstantiationsOf(ts, at, i) :: Through(at, i, i + |ts|, o)
    decreases ts
  {
    if ts != [] {
      InstantiationsAreBelow(ts[0], at + [i]);
      InstantiationsAreThrough(ts[1..], at, i + 1);
      forall o | o in Instantiations(ts[0], at + [i])
        ensures Through(at, i, i + |ts|, o)
      {
        BelowChild(at, i, i + |ts|, o);
      }
    }
  }

  lemma {:induction false} LookupsAreBelow(t: Tree, at: Path)
    ensures forall o | o in MetaLooksUp(t, at) :: StandsBelow(at, o)
    ensures forall o | o in MetaInstantiations(t, at) :: StandsBelow(at, o)
    decreases t, 0
  {
    InstantiationsAreBelow(t, at);
    LookupsAreConsumed(t, at);
    if t.head.MetaIf? && t.kids != [] {
      InstantiationsAreBelow(t.kids[0], at + [0]);
      LookupsAreConsumed(t.kids[0], at + [0]);
      LookupsAreThrough(t.kids[1..], at, 1);
      forall o | o in Instantiations(t.kids[0], at + [0])
        ensures StandsBelow(at, o)
      {
        BelowChild(at, 0, 1, o);
      }
    } else {
      LookupsAreThrough(t.kids, at, 0);
    }
  }

  lemma {:induction false} LookupsAreThrough(ts: seq<Tree>, at: Path, i: nat)
    ensures forall o | o in MetaLooksUpAll(ts, at, i) :: Through(at, i, i + |ts|, o)
    ensures forall o | o in MetaInstantiationsOf(ts, at, i) :: Through(at, i, i + |ts|, o)
    decreases ts
  {
    if ts != [] {
      LookupsAreBelow(ts[0], at + [i]);
      LookupsAreThrough(ts[1..], at, i + 1);
      forall o | StandsBelow(at + [i], o)
        ensures Through(at, i, i + |ts|, o)
      {
        BelowChild(at, i, i + |ts|, o);
      }
    }
  }

  /** What is looked up below a node was consumed: the assertion of the lookup holds. */
  ghost predicate Covered(lookups: set<Occurrence>, consumed: seq<Occurrence>) {
    forall o | o in lookups :: o in consumed
  }

  /** For a meta declaration the analysis covers the lookups exactly when no
      meta statement in a branch of a meta-if looks anything up. */
  lemma {:induction false} MetaLookupsAreConsumed(t: Tree, at: Path)
    ensures Covered(MetaLooksUp(t, at), MetaInstantiations(t, at)) <==> !LooksUpInBranches(t, at)
    decreases t, 0
  {
    match t.head
    case MetaIf =>
      if t.kids != [] {
        LookupsAreConsumed(t.kids[0], at + [0]);
        LookupsAreThrough(t.kids[1..], at, 1);
        InstantiationsAreBelow(t.kids[0], at + [0]);
        if o :| o in MetaLooksUpAll(t.kids[1..], at, 1) {
          assert o in MetaLooksUp(t, at);
          if o in Instantiations(t.kids[0], at + [0]) {
            BelowChild(at, 0, 1, o);
            assert false;
          }
        }
      }
    case MetaCalculation => LookupsAreConsumed(t, at);
    case _ => MetaLookupsBelowAreConsumed(t.kids, at, 0);
  }

  lemma {:induction false} MetaLookupsBelowAreConsumed(ts: seq<Tree>, at: Path, i: nat)
    ensures Covered(MetaLooksUpAll(ts, at, i), MetaInstantiationsOf(ts, at, i)) <==> !AnyLooksUpInBranches(ts, at, i)
    decreases ts
  {
    if ts != [] {
      MetaLookupsAreConsumed(ts[0], at + [i]);
      MetaLookupsBelowAreConsumed(ts[1..], at, i + 1);
      LookupsAreBelow(ts[0], at + [i]);
      LookupsAreThrough(ts[1..], at, i + 1);
      CoveredApart(at, i, MetaLooksUp(ts[0], at + [i]), MetaInstantiations(ts[0], at + [i]),
                   MetaLooksUpAll(ts[1..], at, i + 1), MetaInstantiationsOf(ts[1..], at, i + 1));
    }
  }

  /** Nodes below different children never cover each other. */
  lemma CoveredApart(at: Path, i: nat, a: set<Occurrence>, x: seq<Occurrence>, b: set<Occurrence>, y: seq<Occurrence>)
    requires forall o | o in a || o in x :: StandsBelow(at + [i], o)
    requires forall o | o in b || o in y :: |o.path| > |at| && o.path[|at|] > i
    ensures Covered(a + b, x + y) <==> Covered(a, x) && Covered(b, y)
  {
    forall o | StandsBelow(at + [i], o)
      ensures |o.path| > |at| && o.path[|at|] == i
    {
      BelowChild(at, i, i + 1, o);
    }
    if Covered(a + b, x + y) {
      forall o | o in a
        ensures o in x
      {
        assert o in x + y;
      }
      forall o | o in b
        ensures o in y
      {
        assert o in x + y;
      }
    }
  }

  /** The lookups of an only child, as far as the child has any. */
  lemma OnlyChildLooksUp(t: Tree, at: Path)
    requires |t.kids| == 1 && !t.head.MetaInstantiation?
    ensures LooksUp(t, at) == LooksUp(t.kids[0], at + [0])
    ensures !t.head.MetaIf? && !t.head.MetaCalculation? ==> MetaLooksUp(t, at) == MetaLooksUp(t.kids[0], at + [0])
  {
    assert LooksUpAll(t.kids[1..], at, 1) == {} && MetaLooksUpAll(t.kids[1..], at, 1) == {};
    assert LooksUpAll(t.kids, at, 0) == LooksUp(t.kids[0], at + [0]);
    assert MetaLooksUpAll(t.kids, at, 0) == MetaLooksUp(t.kids[0], at + [0]);
  }

  /** A branch with a calculation that calls an instantiation. */
  function UsingBranch(): Tree {
    var used := Tree(MetaInstantiation, [Tree(DeclRef("m"), [])]);
    var block := Tree(UnscopedCompound, [Tree(ExpressionStmt, [Tree(Call, [used])])]);
    Tree(MetaContribution, [Tree(MetaCalculation, [block])])
  }

  lemma UsingBranchFits()
    ensures WellKinded(UsingBranch()) && UsingBranch().head.MetaContribution?
  {
    var name := Tree(DeclRef("m"), []);
    var used := Tree(MetaInstantiation, [name]);
    var stmt := Tree(ExpressionStmt, [Tree(Call, [used])]);
    var block := Tree(UnscopedCompound, [stmt]);
    assert WellKinded(name);
    OneChildFits(MetaInstantiation, name);
    OneChildFits(Call, used);
    OneChildFits(ExpressionStmt, stmt.kids[0]);
    OneChildFits(UnscopedCompound, stmt);
    OneChildFits(MetaCalculation, block);
    OneChildFits(MetaContribution, Tree(MetaCalculation, [block]));
  }

  /** A meta-if with such a branch has nothing consumed, yet the call is looked
      up when the branch is compiled. */
  lemma UncoveredExample(at: Path)
    ensures var t := Tree(MetaIf, [Tree(IntegerLiteral(1), []), UsingBranch()]);
            WellKinded(t) && MetaInstantiations(t, at) == [] && MetaLooksUp(t, at) != {}
  {
    var one := Tree(IntegerLiteral(1), []);
    var branch := UsingBranch();
    var t := Tree(MetaIf, [one, branch]);
    UsingBranchFits();
    assert WellKinded(one);
    TwoChildrenFit(MetaIf, one, branch);
    assert Instantiations(one, at + [0]) == [];
    var compute := branch.kids[0];
    var stmt := compute.kids[0].kids[0];
    var inside := at + [1] + [0];
    OnlyChildLooksUp(branch, at + [1]);
    OnlyChildLooksUp(compute, inside);
    OnlyChildLooksUp(compute.kids[0], inside + [0]);
    OnlyChildLooksUp(stmt, inside + [0] + [0]);
    OnlyChildLooksUp(stmt.kids[0], inside + [0] + [0] + [0]);
    var used := stmt.kids[0].kids[0];
    assert Occurrence(inside + [0] + [0] + [0] + [0], used) in MetaLooksUp(branch, at + [1]);
    assert t.kids[1..] == [branch];
    assert MetaLooksUpAll(t.kids[1..], at, 1) == MetaLooksUp(branch, at + [1]) + MetaLooksUpAll([], at, 2);
  }
}
