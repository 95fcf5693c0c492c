/** Reading with scopes: the consume methods of src/Parse/ASTLayout.cpp as far as
    they enter scopes and modes, introduce names and bind references. */
module ScopedReading {
  import opened Wrappers
  import opened Ast
  import opened Sequences
  import opened Crawl
  import opened DependencyAnalysis
  import opened Binding
  import opened UnitBinding
  import opened ASTBuilding

  /** The assertions on modes hold throughout the tree, references are leaves
      and calculations have one statement. */
  predicate MayReadAll(t: Tree, mode: Mode)
    decreases t, 1
  {
    MayRead(t.head, mode) && (t.head.DeclRef? ==> t.kids == []) && (t.head.MetaCalculation? ==> |t.kids| == 1) &&
    MayReadKids(t.head, t.kids, 0, mode)
  }

  predicate MayReadKids(h: Head, ts: seq<Tree>, i: nat, mode: Mode)
    decreases ts
  {
    ts == [] || (MayReadAll(ts[0], KidMode(h, i, mode)) && MayReadKids(h, ts[1..], i + 1, mode))
  }

  /** Reading a node except for what the node itself introduces or refers to. */
  function ReadBelow(w: Where, t: Tree, at: Path, chain: Chain, mode: Mode): Reading {
    var below := KidsRead(w, t, at, chain, mode);
    if Opens(t.head) then below.(chain := chain) else below
  }

  lemma ReadSplits(w: Where, t: Tree, at: Path, chain: Chain, mode: Mode)
    ensures var after := ReadBelow(w, t, at, chain, mode);
            Read(w, t, at, chain, mode) ==
            if !MayRead(t.head, mode) then after.(ok := false)
            else if mode.InsideMetaDecl? then after
            else if Introduces(t.head) then IntroduceDecl(after, t.head.name, DeclAt(w, at, t.head))
            else if t.head.DeclRef? then
              match Lookup(chain, t.head.name)
              case None => after.(ok := false)
              case Some(d) => after.(bindings := after.bindings[at := d])
            else after
  {
  }

  lemma {:induction false} TopsLength(u: nat, kids: seq<Tree>, chain: Chain)
    ensures |ReadTops(u, kids, chain)| == |kids|
    decreases kids
  {
    if kids != [] {
      TopsLength(u, kids[1..], Read(Where(u, kids[0].head), kids[0], [], chain, Outside).chain);
    }
  }

  lemma TopsNext(u: nat, kids: seq<Tree>, i: nat, chain: Chain, readings: seq<Reading>)
    requires i < |kids| == |readings| && readings[i..] == ReadTops(u, kids[i..], chain)
    ensures readings[i] == Read(Where(u, kids[i].head), kids[i], [], chain, Outside)
    ensures readings[i + 1..] == ReadTops(u, kids[i + 1..], readings[i].chain)
  {
    hide Read;
    assert kids[i..][1..] == kids[i + 1..] && kids[i..][0] == kids[i];
    assert readings[i..][0] == readings[i] && readings[i..][1..] == readings[i + 1..];
  }

  lemma LeafBelow(w: Where, t: Tree, at: Path, chain: Chain, mode: Mode)
    requires MayReadAll(t, mode)
    ensures MayRead(t.head, mode)
    ensures t.head.DeclRef? ==> ReadBelow(w, t, at, chain, mode).chain == chain
  {
  }

  /** The first `i` children have been read: what they bound and left, and what
      reading the others from here adds up to. */
  ghost predicate KidsDone(w: Where, t: Tree, at: Path, mode: Mode, start: Chain, i: nat, now: Chain,
                           done: map<Path, Decl>, ok: bool, heard: seq<Decl>)
  {
    i <= |t.kids| &&
    var rest := ReadKids(w, t.head, t.kids[i..], at, i, now, mode);
    ReadKids(w, t.head, t.kids, at, 0, start, mode) == Reading(rest.chain, done + rest.bindings, ok && rest.ok) &&
    LeavesOf(w, t.head, t.kids, at, 0, mode) == heard + LeavesOf(w, t.head, t.kids[i..], at, i, mode)
  }

  lemma KidsStart(w: Where, t: Tree, at: Path, mode: Mode, start: Chain)
    ensures KidsDone(w, t, at, mode, start, 0, start, map[], true, [])
    ensures t.kids[0..] == t.kids
  {
    hide ReadKids, LeavesOf;
    assert t.kids[0..] == t.kids;
    var all := ReadKids(w, t.head, t.kids, at, 0, start, mode);
    assert map[] + all.bindings == all.bindings;
  }

  lemma KidsNext(w: Where, t: Tree, at: Path, mode: Mode, start: Chain, i: nat, now: Chain,
                 done: map<Path, Decl>, ok: bool, heard: seq<Decl>)
    requires i < |t.kids| && KidsDone(w, t, at, mode, start, i, now, done, ok, heard)
    ensures var r := Read(w, t.kids[i], at + [i], now, KidMode(t.head, i, mode));
            var left := Leaves(w, t.kids[i], at + [i], KidMode(t.head, i, mode));
            KidsDone(w, t, at, mode, start, i + 1, r.chain, done + r.bindings, ok && r.ok, heard + left)
  {
    hide Read, Leaves;
    var ts := t.kids[i..];
    assert ts[1..] == t.kids[i + 1..];
    var r := Read(w, t.kids[i], at + [i], now, KidMode(t.head, i, mode));
    ReadFirstKid(w, t.head, ts, at, i, now, mode);
    MergeAssoc(done, r.bindings, ReadKids(w, t.head, ts[1..], at, i + 1, r.chain, mode).bindings);
    var left := Leaves(w, t.kids[i], at + [i], KidMode(t.head, i, mode));
    var more := LeavesOf(w, t.head, ts[1..], at, i + 1, mode);
    assert heard + (left + more) == heard + left + more;
  }

  lemma MayReadNext(t: Tree, i: nat, mode: Mode)
    requires i < |t.kids| && MayReadKids(t.head, t.kids[i..], i, mode)
    ensures MayReadAll(t.kids[i], KidMode(t.head, i, mode)) && MayReadKids(t.head, t.kids[i + 1..], i + 1, mode)
  {
    assert t.kids[i..][1..] == t.kids[i + 1..];
  }

  lemma KidsEnd(w: Where, t: Tree, at: Path, mode: Mode, start: Chain, now: Chain,
                done: map<Path, Decl>, ok: bool, heard: seq<Decl>)
    requires KidsDone(w, t, at, mode, start, |t.kids|, now, done, ok, heard)
    ensures ReadKids(w, t.head, t.kids, at, 0, start, mode) == Reading(now, done, ok)
    ensures LeavesOf(w, t.head, t.kids, at, 0, mode) == heard
  {
    assert t.kids[|t.kids|..] == [];
    assert done + map[] == done;
  }

  // What the calculations export

  /** The calculations below a node with what they export, in the order of reading. */
  function Calculations(w: Where, t: Tree, at: Path, mode: Mode): map<Path, seq<Decl>>
    decreases t, 1
  {
    CalculationsOf(w, t.head, t.kids, at, 0, mode)
  }

  function CalculationsOf(w: Where, h: Head, ts: seq<Tree>, at: Path, i: nat, mode: Mode): map<Path, seq<Decl>>
    decreases ts
  {
    if ts == [] then map[]
    else
      Calculations(w, ts[0], at + [i], KidMode(h, i, mode)) + Own(w, h, ts[0], at, i) +
      CalculationsOf(w, h, ts[1..], at, i + 1, mode)
  }

  function KidCalculations(w: Where, h: Head, kid: Tree, at: Path, i: nat, mode: Mode): map<Path, seq<Decl>> {
    Calculations(w, kid, at + [i], KidMode(h, i, mode)) + Own(w, h, kid, at, i)
  }

  lemma PlusAssoc(a: map<Path, seq<Decl>>, b: map<Path, seq<Decl>>, c: map<Path, seq<Decl>>)
    ensures a + (b + c) == a + b + c
  {
  }

  /** A calculation puts what its statement leaves on top of what is below it. */
  lemma OwnIs(w: Where, h: Head, kid: Tree, at: Path, i: nat, mode: Mode, before: map<Path, seq<Decl>>)
    ensures var below := Calculations(w, kid, at + [i], KidMode(h, i, mode));
            before + KidCalculations(w, h, kid, at, i, mode) ==
            if h.MetaCalculation? then (before + below)[at := Leaves(w, kid, at + [i], InsideComputation)]
            else before + below
  {
    hide Leaves, Calculations;
  }

  lemma CalculationsStart(w: Where, t: Tree, at: Path, mode: Mode)
    ensures Calculations(w, t, at, mode) == map[] + CalculationsOf(w, t.head, t.kids[0..], at, 0, mode)
  {
    hide CalculationsOf;
    assert t.kids[0..] == t.kids;
    var all := CalculationsOf(w, t.head, t.kids, at, 0, mode);
    assert map[] + all == all;
  }

  lemma CalculationsNext(w: Where, t: Tree, at: Path, mode: Mode, i: nat, done: map<Path, seq<Decl>>)
    requires i < |t.kids|
    ensures done + CalculationsOf(w, t.head, t.kids[i..], at, i, mode) ==
            done + KidCalculations(w, t.head, t.kids[i], at, i, mode) +
            CalculationsOf(w, t.head, t.kids[i + 1..], at, i + 1, mode)
  {
    hide Leaves, Calculations;
    assert t.kids[i..][1..] == t.kids[i + 1..];
    PlusAssoc(done, KidCalculations(w, t.head, t.kids[i], at, i, mode),
              CalculationsOf(w, t.head, t.kids[i + 1..], at, i + 1, mode));
  }

  lemma CalculationsEnd(w: Where, t: Tree, at: Path, mode: Mode, done: map<Path, seq<Decl>>)
    ensures done + CalculationsOf(w, t.head, t.kids[|t.kids|..], at, |t.kids|, mode) == done
  {
    assert t.kids[|t.kids|..] == [];
  }

  /** A calculation itself exports what its statement leaves. */
  function Own(w: Where, h: Head, kid: Tree, at: Path, i: nat): map<Path, seq<Decl>> {
    if h.MetaCalculation? then map[at := Leaves(w, kid, at + [i], InsideComputation)] else map[]
  }

  /** What a calculation at the place `q` below `t` exports, where `p` is its
      whole path: everything its statement leaves in scope. */
  function ExportedAt(w: Where, t: Tree, q: Path, p: Path): Option<seq<Decl>> {
    match NodeAt(t, q)
    case None => None
    case Some(node) =>
      if node.head.MetaCalculation? && |node.kids| == 1
      then Some(Leaves(w, node.kids[0], p + [0], InsideComputation))
      else None
  }

  function Entry(m: map<Path, seq<Decl>>, p: Path): Option<seq<Decl>> {
    if p in m then Some(m[p]) else None
  }

  predicate IsBelow(p: Path, at: Path) {
    |p| >= |at| && p[..|at|] == at
  }

  /** Every calculation at or below `t` has an entry with what its statement
      leaves in scope; no other entry has changed. */
  ghost predicate Collected(w: Where, t: Tree, at: Path, before: map<Path, seq<Decl>>, after: map<Path, seq<Decl>>) {
    forall p ::
      Entry(after, p) ==
      if IsBelow(p, at) && ExportedAt(w, t, p[|at|..], p).Some? then ExportedAt(w, t, p[|at|..], p)
      else Entry(before, p)
  }

  /** Entries stand under places below the node, or for the node itself. */
  lemma {:induction false} CalculationKeys(w: Where, h: Head, ts: seq<Tree>, at: Path, i: nat, mode: Mode, p: Path)
    requires p in CalculationsOf(w, h, ts, at, i, mode)
    ensures IsBelow(p, at) && (p == at ==> h.MetaCalculation?) && (p != at ==> |p| > |at| && i <= p[|at|] < i + |ts|)
    decreases ts
  {
    hide Leaves;
    var first := Calculations(w, ts[0], at + [i], KidMode(h, i, mode));
    if p in first {
      CalculationKeys(w, ts[0].head, ts[0].kids, at + [i], 0, KidMode(h, i, mode), p);
      BelowKid(at, i, p);
    } else if p in CalculationsOf(w, h, ts[1..], at, i + 1, mode) {
      CalculationKeys(w, h, ts[1..], at, i + 1, mode, p);
    }
  }

  lemma BelowKid(at: Path, i: nat, p: Path)
    requires IsBelow(p, at + [i])
    ensures |p| > |at| && p[..|at|] == at && p[|at|] == i
  {
    var head := p[..|at + [i]|];
    assert p[..|at|] == head[..|at|] && p[|at|] == head[|at|];
  }

  lemma {:induction false} CalculationEntry(w: Where, t: Tree, at: Path, mode: Mode, q: Path)
    requires MayReadAll(t, mode)
    ensures Entry(Calculations(w, t, at, mode), at + q) == ExportedAt(w, t, q, at + q)
    decreases t, 1
  {
    hide Leaves, MayReadAll;
    assert q != [] ==> (at + q)[|at|] == q[0];
    if q == [] {
      assert at + q == at;
      OwnEntry(w, t, at, mode);
    } else if q[0] < |t.kids| {
      assert MayReadKids(t.head, t.kids, 0, mode) by {
        KidsMayBeRead(t, mode);
      }
      assert at + [0 + q[0]] + q[1..] == at + q;
      KidEntry(w, t.head, t.kids, at, 0, mode, q[0], q[1..]);
    } else if at + q in Calculations(w, t, at, mode) {
      CalculationKeys(w, t.head, t.kids, at, 0, mode, at + q);
    }
  }

  lemma KidsMayBeRead(t: Tree, mode: Mode)
    requires MayReadAll(t, mode)
    ensures MayReadKids(t.head, t.kids, 0, mode)
  {
  }

  lemma OwnEntry(w: Where, t: Tree, at: Path, mode: Mode)
    requires MayReadAll(t, mode)
    ensures Entry(Calculations(w, t, at, mode), at) == ExportedAt(w, t, [], at)
  {
    hide Leaves, MayReadKids;
    if t.head.MetaCalculation? {
      assert t.kids[1..] == [];
      assert CalculationsOf(w, t.head, t.kids[1..], at, 1, mode) == map[];
      assert at in Own(w, t.head, t.kids[0], at, 0);
    } else if at in Calculations(w, t, at, mode) {
      CalculationKeys(w, t.head, t.kids, at, 0, mode, at);
    }
  }

  lemma {:induction false} KidEntry(w: Where, h: Head, ts: seq<Tree>, at: Path, i: nat, mode: Mode, k: nat, q: Path)
    requires k < |ts| && MayReadKids(h, ts, i, mode)
    ensures Entry(CalculationsOf(w, h, ts, at, i, mode), at + [i + k] + q) == ExportedAt(w, ts[k], q, at + [i + k] + q)
    decreases ts, 0
  {
    hide Leaves, MayReadAll, ExportedAt;
    KidsEntries(w, h, ts, at, i, mode, at + [i + k] + q);
    assert (at + [i + k] + q)[|at|] == i + k;
    if k == 0 {
      CalculationEntry(w, ts[0], at + [i], KidMode(h, i, mode), q);
    } else {
      KidEntry(w, h, ts[1..], at, i + 1, mode, k - 1, q);
    }
  }

  /** An entry below a child is the child's. */
  lemma KidsEntries(w: Where, h: Head, ts: seq<Tree>, at: Path, i: nat, mode: Mode, p: Path)
    requires ts != [] && IsBelow(p, at) && p != at
    ensures |p| > |at|
    ensures Entry(CalculationsOf(w, h, ts, at, i, mode), p) ==
            if p[|at|] == i then Entry(Calculations(w, ts[0], at + [i], KidMode(h, i, mode)), p)
            else Entry(CalculationsOf(w, h, ts[1..], at, i + 1, mode), p)
  {
    hide Leaves;
    assert p[..|p|] == p;
    var first := Calculations(w, ts[0], at + [i], KidMode(h, i, mode));
    if p in first {
      CalculationKeys(w, ts[0].head, ts[0].kids, at + [i], 0, KidMode(h, i, mode), p);
      BelowKid(at, i, p);
    }
    if p in CalculationsOf(w, h, ts[1..], at, i + 1, mode) {
      CalculationKeys(w, h, ts[1..], at, i + 1, mode, p);
    }
  }

  /** Reading adds one entry for every calculation and changes no other. */
  lemma CalculationsAre(w: Where, t: Tree, at: Path, mode: Mode, before: map<Path, seq<Decl>>)
    requires MayReadAll(t, mode)
    ensures Collected(w, t, at, before, before + Calculations(w, t, at, mode))
  {
    hide Leaves, MayReadAll, ExportedAt, CalculationsOf;
    var m := Calculations(w, t, at, mode);
    forall p
      ensures Entry(before + m, p) ==
              if IsBelow(p, at) && ExportedAt(w, t, p[|at|..], p).Some? then ExportedAt(w, t, p[|at|..], p)
              else Entry(before, p)
    {
      if IsBelow(p, at) {
        assert at + p[|at|..] == p;
        CalculationEntry(w, t, at, mode, p[|at|..]);
      } else if p in m {
        CalculationKeys(w, t.head, t.kids, at, 0, mode, p);
      }
    }
  }

  class ScopedReader {
    const builder: BasicASTBuilder
    /** What references are bound to, by their places. */
    var bindings: map<Path, Decl>
    /** What the calculations export, by their places. */
    var exports: map<Path, seq<Decl>>

    constructor (builder: BasicASTBuilder)
      ensures this.builder == builder && bindings == map[] && exports == map[]
    {
      this.builder := builder;
      bindings, exports := map[], map[];
    }

    /** What the calculation being read was told so far. */
    ghost function Heard(): seq<Decl>
      reads builder, builder.inplace
    {
      if builder.inplace == null then [] else builder.inplace.exportedDecls
    }

    ghost predicate IsReady()
      reads builder, if builder.currentScope != null then builder.currentScope.ancestors else []
    {
      builder.Valid() && builder.currentScope != null
    }

    /** Inside a calculation, an error-free read tells it what is left in its scope. */
    ghost predicate Listening(ds: seq<Decl>, mode: Mode, before: seq<Decl>, after: seq<Decl>)
      reads builder
    {
      mode.InsideComputation? && builder.inplace != null && !builder.hadError ==> after == before + ds
    }

    /** Consumes a node: what is bound, what is in scope afterwards and whether
        an error was reported is what reading says. */
    method Consume(w: Where, t: Tree, at: Path)
      requires IsReady() && w.unit == builder.unit && MayReadAll(t, builder.CurrentMode())
      requires Introduces(t.head) ==> at != []
      modifies this, builder, builder.currentScope, builder.inplace
      ensures IsReady() && builder.currentScope == old(builder.currentScope) && builder.inplace == old(builder.inplace)
      ensures builder.modes == old(builder.modes) && builder.exported == old(builder.exported)
      ensures var r := Read(w, t, at, old(builder.currentScope.Layers()), old(builder.CurrentMode()));
              builder.currentScope.Layers() == r.chain && bindings == old(bindings) + r.bindings &&
              builder.hadError == (old(builder.hadError) || !r.ok)
      ensures Listening(Leaves(w, t, at, old(builder.CurrentMode())), old(builder.CurrentMode()), old(Heard()), Heard())
      ensures !builder.hadError ==>
                exports == old(exports) + Calculations(w, t, at, old(builder.CurrentMode())) &&
                Collected(w, t, at, old(exports), exports)
      decreases t, 2
    {
      hide NoTwice, Owned, Read, ReadKids, MayReadAll, MayReadKids, ReadBelow, Lookup, AllocatedScope.Layers,
           AllocatedScope.ScopesLinked, LeavesOf, Calculations, CalculationsOf, Collected, KidMode;
      ghost var chain, mode := builder.currentScope.Layers(), builder.CurrentMode();
      ReadSplits(w, t, at, chain, mode);
      ghost var after := ReadBelow(w, t, at, chain, mode);
      ConsumeBelow(w, t, at);
      CalculationsAre(w, t, at, mode, old(exports));
      assert builder.currentScope.Layers() == after.chain;
      LeafBelow(w, t, at, chain, mode);
      if Introduces(t.head) {
        Assoc(old(Heard()), LeavesOf(w, t.head, t.kids, at, 0, mode), [DeclAt(w, at, t.head)]);
        IntroduceRead(DeclAt(w, at, t.head));
      } else if t.head.DeclRef? {
        ResolveReference(t.head.name, at);
      }
    }

    /** Introduces a declaration that is no top-level one: it may shadow nothing. */
    method IntroduceRead(d: Decl)
      requires IsReady() && IsNamedDecl(d.head) && d.unit == builder.unit && d.path != []
      modifies builder`hadError, builder.currentScope, builder.inplace
      ensures IsReady()
      ensures var before := Reading(old(builder.currentScope.Layers()), map[], true);
              var r := if builder.CurrentMode().InsideMetaDecl? then before else IntroduceDecl(before, d.head.name, d);
              builder.currentScope.Layers() == r.chain && builder.hadError == (old(builder.hadError) || !r.ok)
      ensures Listening(if builder.CurrentMode().InsideMetaDecl? then [] else [d], builder.CurrentMode(),
                        old(Heard()), Heard())
    {
      hide NoTwice, Owned;
      builder.Introduce(d);
    }

    /** Consumes the children, in a scope of their own when the node opens one. */
    method ConsumeBelow(w: Where, t: Tree, at: Path)
      requires IsReady() && w.unit == builder.unit && MayReadAll(t, builder.CurrentMode())
      modifies this, builder, builder.currentScope, builder.inplace
      ensures IsReady() && builder.currentScope == old(builder.currentScope) && builder.inplace == old(builder.inplace)
      ensures builder.modes == old(builder.modes) && builder.exported == old(builder.exported)
      ensures var r := ReadBelow(w, t, at, old(builder.currentScope.Layers()), old(builder.CurrentMode()));
              builder.currentScope.Layers() == r.chain && bindings == old(bindings) + r.bindings &&
              builder.hadError == (old(builder.hadError) || !r.ok)
      ensures var ds := if Opens(t.head) then [] else LeavesOf(w, t.head, t.kids, at, 0, old(builder.CurrentMode()));
              Listening(ds, old(builder.CurrentMode()), old(Heard()), Heard())
      ensures !builder.hadError ==> exports == old(exports) + Calculations(w, t, at, old(builder.CurrentMode()))
      decreases t, 1
    {
      hide NoTwice, Owned, Lookup, ReadKids, MayReadAll, MayReadKids, AllocatedScope.Layers,
           AllocatedScope.ScopesLinked, LeavesOf, CalculationsOf;
      if !Opens(t.head) {
        ConsumeKids(w, t, at);
        return;
      }
      var outer, listening := builder.currentScope, builder.inplace;
      builder.EnterTemporaryScope();
      ConsumeKids(w, t, at);
      builder.LeaveScope(outer, listening);
    }

    /** Binds a reference, unless code is only copied here. */
    method ResolveReference(x: Name, at: Path)
      requires IsReady()
      modifies this`bindings, builder`hadError
      ensures IsReady()
      ensures var d := Lookup(builder.currentScope.Layers(), x);
              if builder.CurrentMode().InsideMetaDecl?
              then bindings == old(bindings) && builder.hadError == old(builder.hadError)
              else if d.Some? then bindings == old(bindings)[at := d.value] && builder.hadError == old(builder.hadError)
              else bindings == old(bindings) && builder.hadError
    {
      hide NoTwice, Owned;
      if !builder.CurrentMode().InsideMetaDecl? {
        var d := builder.currentScope.LookupIdentifier(x);
        if d.Some? {
          bindings := bindings[at := d.value];
        } else {
          builder.hadError := true;
        }
      }
    }

    /** Consumes the children of a node, each in its mode. */
    method ConsumeKids(w: Where, t: Tree, at: Path)
      requires IsReady() && w.unit == builder.unit && MayReadAll(t, builder.CurrentMode())
      modifies this, builder, builder.currentScope, builder.inplace
      ensures IsReady() && builder.currentScope == old(builder.currentScope) && builder.inplace == old(builder.inplace)
      ensures builder.modes == old(builder.modes) && builder.exported == old(builder.exported)
      ensures var chain, mode := old(builder.currentScope.Layers()), old(builder.CurrentMode());
              var r := ReadKids(w, t.head, t.kids, at, 0, chain, mode);
              builder.currentScope.Layers() == r.chain && bindings == old(bindings) + r.bindings &&
              builder.hadError == (old(builder.hadError) || !r.ok)
      ensures Listening(LeavesOf(w, t.head, t.kids, at, 0, old(builder.CurrentMode())), old(builder.CurrentMode()),
                        old(Heard()), Heard())
      ensures !builder.hadError ==> exports == old(exports) + Calculations(w, t, at, old(builder.CurrentMode()))
      decreases t, 0
    {
      hide NoTwice, Owned, Lookup, Read, ReadKids, MayRead, MayReadKids, Leaves, LeavesOf, KidsDone,
           AllocatedScope.Layers, AllocatedScope.ScopesLinked, CalculationsOf, Own;
      ghost var start, mode := builder.currentScope.Layers(), builder.CurrentMode();
      ghost var done: map<Path, Decl>, ok, heard: seq<Decl> := map[], true, [];
      ghost var collected: map<Path, seq<Decl>> := map[];
      KidsStart(w, t, at, mode, start);
      CalculationsStart(w, t, at, mode);
      for i := 0 to |t.kids|
        invariant IsReady() && builder.currentScope == old(builder.currentScope) &&
                  builder.inplace == old(builder.inplace)
        invariant builder.modes == old(builder.modes) && builder.exported == old(builder.exported)
        invariant MayReadKids(t.head, t.kids[i..], i, mode)
        invariant bindings == old(bindings) + done && builder.hadError == (old(builder.hadError) || !ok)
        invariant Listening(heard, mode, old(Heard()), Heard())
        invariant KidsDone(w, t, at, mode, start, i, builder.currentScope.Layers(), done, ok, heard)
        invariant !builder.hadError ==> exports == old(exports) + collected
        invariant Calculations(w, t, at, mode) == collected + CalculationsOf(w, t.head, t.kids[i..], at, i, mode)
      {
        ghost var r := Read(w, t.kids[i], at + [i], builder.currentScope.Layers(), KidMode(t.head, i, mode));
        ghost var left := Leaves(w, t.kids[i], at + [i], KidMode(t.head, i, mode));
        KidsNext(w, t, at, mode, start, i, builder.currentScope.Layers(), done, ok, heard);
        CalculationsNext(w, t, at, mode, i, collected);
        MayReadNext(t, i, mode);
        MergeAssoc(old(bindings), done, r.bindings);
        Assoc(old(Heard()), heard, left);
        ConsumeKid(w, t, at, i);
        done, ok, heard := done + r.bindings, ok && r.ok, heard + left;
        ghost var more := KidCalculations(w, t.head, t.kids[i], at, i, mode);
        PlusAssoc(old(exports), collected, more);
        collected := collected + more;
      }
      CalculationsEnd(w, t, at, mode, collected);
      KidsEnd(w, t, at, mode, start, builder.currentScope.Layers(), done, ok, heard);
    }

    /** Consumes one child; a calculation collects what it introduces. */
    method ConsumeKid(w: Where, t: Tree, at: Path, i: nat)
      requires IsReady() && w.unit == builder.unit && MayRead(t.head, builder.CurrentMode())
      requires i < |t.kids| && MayReadAll(t.kids[i], KidMode(t.head, i, builder.CurrentMode()))
      modifies this, builder, builder.currentScope, builder.inplace
      ensures IsReady() && builder.currentScope == old(builder.currentScope) && builder.inplace == old(builder.inplace)
      ensures builder.modes == old(builder.modes) && builder.exported == old(builder.exported)
      ensures var r := Read(w, t.kids[i], at + [i], old(builder.currentScope.Layers()),
                            KidMode(t.head, i, old(builder.CurrentMode())));
              builder.currentScope.Layers() == r.chain && bindings == old(bindings) + r.bindings &&
              builder.hadError == (old(builder.hadError) || !r.ok)
      ensures Listening(Leaves(w, t.kids[i], at + [i], KidMode(t.head, i, old(builder.CurrentMode()))),
                        old(builder.CurrentMode()), old(Heard()), Heard())
      ensures !builder.hadError ==>
                exports == old(exports) + KidCalculations(w, t.head, t.kids[i], at, i, old(builder.CurrentMode()))
      decreases t, 0, 0
    {
      hide NoTwice, Owned, Lookup, Read, ReadKids, MayReadKids, AllocatedScope.Layers,
           AllocatedScope.ScopesLinked, Leaves, LeavesOf, CalculationsOf, Collected, Calculations, KidCalculations;
      var listening := builder.inplace;
      OwnIs(w, t.head, t.kids[i], at, i, builder.CurrentMode(), exports);
      var entered := EnterKid(t.head, i);
      Consume(w, t.kids[i], at + [i]);
      if entered {
        if t.head.MetaCalculation? {
          ghost var left := Leaves(w, t.kids[i], at + [i], InsideComputation);
          assert !builder.hadError ==> builder.inplace.exportedDecls == left;
          exports := exports[at := builder.inplace.exportedDecls];
        }
        builder.LeaveMode();
        builder.inplace := listening;
      }
    }

    /** Enters the mode of a child, and lets a calculation listen. */
    method EnterKid(h: Head, i: nat) returns (entered: bool)
      requires IsReady() && MayRead(h, builder.CurrentMode())
      requires h.MetaDecl? && i != 0 ==> builder.CurrentMode().Outside?
      modifies builder`modes, builder`inplace
      ensures IsReady() && builder.CurrentMode() == KidMode(h, i, old(builder.CurrentMode()))
      ensures if h.MetaCalculation?
              then builder.inplace != null && fresh(builder.inplace) && builder.inplace.exportedDecls == []
              else builder.inplace == old(builder.inplace)
      ensures h.MetaCalculation? ==> entered
      ensures if entered then |builder.modes| > 0 && builder.modes[..|builder.modes| - 1] == old(builder.modes)
              else builder.modes == old(builder.modes)
    {
      hide NoTwice, Owned, Lookup, AllocatedScope.Layers, AllocatedScope.ScopesLinked;
      entered := true;
      if h.MetaDecl? && i != 0 {
        builder.EnterMetaDeclMode();
      } else if h.MetaCalculation? {
        builder.EnterInplaceScope();
        builder.EnterMetaComputationMode();
      } else if h.MetaIf? && i == 0 {
        builder.EnterMetaComputationMode();
      } else {
        entered := false;
      }
    }

    /** Introduces the top-level declarations among the crawled nodes. */
    method IntroduceScope(crawled: seq<Head>)
      requires IsReady() && builder.modes == [] && builder.inplace == null
      modifies builder`exported, builder`hadError, builder.currentScope
      ensures IsReady()
      ensures var r := IntroduceTops(builder.unit, builder.instantiates, NamedDecls(crawled),
                                     Top(old(builder.currentScope.Layers()), old(builder.exported),
                                         !old(builder.hadError)));
              builder.currentScope.Layers() == r.chain && builder.exported == r.exported && builder.hadError == !r.ok
      ensures !builder.hadError ==>
                forall h | h in crawled && IsDeclaration(h) ::
                  Lookup(builder.currentScope.Layers(), h.name) == Some(TopDecl(builder.unit, h))
    {
      hide NoTwice, Owned, Lookup, IntroduceTop, AllocatedScope.Layers, AllocatedScope.ScopesLinked;
      ghost var start := Top(builder.currentScope.Layers(), builder.exported, !builder.hadError);
      assert crawled[0..] == crawled;
      for i := 0 to |crawled|
        invariant IsReady()
        invariant IntroduceTops(builder.unit, builder.instantiates, NamedDecls(crawled), start) ==
                  IntroduceTops(builder.unit, builder.instantiates, NamedDecls(crawled[i..]),
                                Top(builder.currentScope.Layers(), builder.exported, !builder.hadError))
      {
        assert crawled[i..][1..] == crawled[i + 1..];
        ghost var later := NamedDecls(crawled[i + 1..]);
        if IsNamedDecl(crawled[i]) {
          assert NamedDecls(crawled[i..]) == [crawled[i]] + later && ([crawled[i]] + later)[1..] == later;
          IntroduceOne(crawled[i]);
        } else {
          assert NamedDecls(crawled[i..]) == [] + later == later;
        }
      }
      assert crawled[|crawled|..] == [];
      forall h | h in crawled && IsDeclaration(h) && !builder.hadError
        ensures Lookup(builder.currentScope.Layers(), h.name) == Some(TopDecl(builder.unit, h))
      {
        IntroducedInScope(builder.unit, builder.instantiates, crawled, start, h);
      }
    }

    /** The node named like the instantiated meta declaration is exported. */
    method IntroduceOne(h: Head)
      requires IsReady() && builder.modes == [] && builder.inplace == null && IsNamedDecl(h)
      modifies builder`exported, builder`hadError, builder.currentScope
      ensures IsReady()
      ensures var r := IntroduceTop(builder.unit, builder.instantiates, h,
                                    Top(old(builder.currentScope.Layers()), old(builder.exported),
                                        !old(builder.hadError)));
              builder.currentScope.Layers() == r.chain && builder.exported == r.exported && builder.hadError == !r.ok
    {
      hide NoTwice, Owned, Lookup, AllocatedScope.ScopesLinked;
      var d := TopDecl(builder.unit, h);
      if IsExported(builder.instantiates, h) {
        builder.SetExportedNode(d);
      }
      builder.Introduce(d);
    }

    /** Consumes a top-level declaration. */
    method ConsumeTop(t: Tree) returns (bound: map<Path, Decl>, calculated: map<Path, seq<Decl>>)
      requires IsReady() && builder.modes == [] && builder.inplace == null
      requires IsTopLevel(t.head) && MayReadAll(t, Outside)
      modifies this, builder, builder.currentScope
      ensures IsReady() && builder.currentScope == old(builder.currentScope) && builder.inplace == null
      ensures builder.modes == [] && builder.exported == old(builder.exported)
      ensures var r := Read(Where(builder.unit, t.head), t, [], old(builder.currentScope.Layers()), Outside);
              builder.currentScope.Layers() == r.chain && bound == r.bindings &&
              builder.hadError == (old(builder.hadError) || !r.ok)
      ensures !builder.hadError ==> Collected(Where(builder.unit, t.head), t, [], map[], calculated)
    {
      hide NoTwice, Owned, Lookup, Read, ReadKids, MayReadAll, AllocatedScope.Layers, AllocatedScope.ScopesLinked,
           Collected, Calculations, Leaves;
      ghost var r := Read(Where(builder.unit, t.head), t, [], builder.currentScope.Layers(), Outside);
      bindings, exports := map[], map[];
      Consume(Where(builder.unit, t.head), t, []);
      assert map[] + r.bindings == r.bindings;
      return bindings, exports;
    }

    /** Reads a unit in a scope on top of the one it refers to outside: its
        declarations are introduced first, then each is consumed. */
    method ConsumeUnit(kids: seq<Tree>, crawled: seq<Head>, outer: AllocatedScope?)
      returns (all: seq<map<Path, Decl>>, calculated: seq<map<Path, seq<Decl>>>)
      requires builder.Valid() && builder.currentScope == null && builder.inplace == null
      requires builder.modes == [] && builder.exported == None && !builder.hadError
      requires outer == null ==> builder.outerDepth == 0
      requires outer != null ==>
                 outer.ScopesLinked() && builder.outerDepth == |outer.ancestors| &&
                 NoTwice(builder.metaUnits, outer.Layers())
      requires crawled == Exposed(kids) && forall t | t in kids :: IsTopLevel(t.head) && MayReadAll(t, Outside)
      modifies this, builder
      ensures IsReady()
      ensures var r := ReadUnit(builder.unit, builder.instantiates,
                                if outer == null then [] else old(outer.Layers()), kids);
              |all| == |kids| == |r.readings| && (forall i | 0 <= i < |kids| :: all[i] == r.readings[i].bindings) &&
              builder.hadError == !r.ok && builder.exported == r.top.exported &&
              builder.currentScope.Layers() == LastChain(r, |kids|)
      ensures |calculated| == |kids|
      ensures !builder.hadError ==>
                forall i | 0 <= i < |kids| ::
                  Collected(Where(builder.unit, kids[i].head), kids[i], [], map[], calculated[i])
    {
      hide NoTwice, Owned, Lookup, Read, ReadTops, IntroduceTops, NamedDecls, Exposed, MayReadAll,
           AllocatedScope.Layers, AllocatedScope.ScopesLinked, Collected, Calculations, Leaves;
      builder.EnterConsistentScope(outer);
      IntroduceScope(crawled);
      all, calculated := ConsumeTops(kids);
    }

    /** Consumes the declarations of a unit one after the other. */
    method ConsumeTops(kids: seq<Tree>) returns (all: seq<map<Path, Decl>>, calculated: seq<map<Path, seq<Decl>>>)
      requires IsReady() && builder.modes == [] && builder.inplace == null
      requires forall t | t in kids :: IsTopLevel(t.head) && MayReadAll(t, Outside)
      modifies this, builder, builder.currentScope
      ensures IsReady() && builder.exported == old(builder.exported)
      ensures var readings := ReadTops(builder.unit, kids, old(builder.currentScope.Layers()));
              |all| == |kids| == |readings| && (forall i | 0 <= i < |kids| :: all[i] == readings[i].bindings) &&
              builder.hadError == (old(builder.hadError) || !AllOk(readings)) &&
              builder.currentScope.Layers() ==
                if kids == [] then old(builder.currentScope.Layers()) else readings[|kids| - 1].chain
      ensures |calculated| == |kids|
      ensures !builder.hadError ==>
                forall i | 0 <= i < |kids| ::
                  Collected(Where(builder.unit, kids[i].head), kids[i], [], map[], calculated[i])
    {
      hide NoTwice, Owned, Lookup, Read, ReadTops, MayReadAll, IsTopLevel, AllocatedScope.Layers,
           AllocatedScope.ScopesLinked, Collected;
      ghost var start, failed := builder.currentScope.Layers(), false;
      ghost var readings := ReadTops(builder.unit, kids, start);
      TopsLength(builder.unit, kids, start);
      assert kids[0..] == kids && readings[0..] == readings;
      all, calculated := [], [];
      for i := 0 to |kids|
        invariant IsReady() && builder.modes == [] && builder.inplace == null
        invariant builder.currentScope == old(builder.currentScope) && builder.exported == old(builder.exported)
        invariant |all| == |calculated| == i <= |readings| && |readings| == |kids|
        invariant !builder.hadError ==>
                    forall k | 0 <= k < i ::
                      Collected(Where(builder.unit, kids[k].head), kids[k], [], map[], calculated[k])
        invariant builder.currentScope.Layers() == if i == 0 then start else readings[i - 1].chain
        invariant readings[i..] == ReadTops(builder.unit, kids[i..], builder.currentScope.Layers())
        invariant forall k | 0 <= k < i :: all[k] == readings[k].bindings
        invariant builder.hadError == (old(builder.hadError) || failed)
        invariant failed <==> exists k :: 0 <= k < i && !readings[k].ok
      {
        assert kids[i] in kids;
        TopsNext(builder.unit, kids, i, builder.currentScope.Layers(), readings);
        var bound, exported := ConsumeTop(kids[i]);
        failed := failed || !readings[i].ok;
        all, calculated := all + [bound], calculated + [exported];
      }
    }
  }
}
