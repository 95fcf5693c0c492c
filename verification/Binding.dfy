/** What the reader binds references to: scopes are entered and left, names are
    introduced and looked up while a tree is read (consume* in
    src/Parse/ASTLayout.cpp, src/Parse/BasicASTBuilder.cpp). */
module Binding {
  import opened Wrappers
  import opened Ast
  import opened DependencyAnalysis

  /** A declaration: the unit it stands in, the top-level declaration it is or
      stands in, its place below that, and the declaring node. */
  datatype Decl = Decl(unit: nat, top: Head, path: Path, head: Head)

  type Layer = map<Name, Decl>
  /** A chain of scopes, the innermost first. */
  type Chain = seq<Layer>

  function Lookup(chain: Chain, x: Name): Option<Decl> {
    if chain == [] then None
    else if x in chain[0] then Some(chain[0][x])
    else Lookup(chain[1..], x)
  }

  /** Nodes that introduce their name once they are read. */
  predicate Introduces(h: Head) {
    h.NamedArgument? || h.DeclStmt?
  }

  function KidMode(h: Head, i: nat, mode: Mode): Mode {
    if h.MetaDecl? && i != 0 then InsideMetaDecl
    else if h.MetaCalculation? || (h.MetaIf? && i == 0) then InsideComputation
    else mode
  }

  /** The assertions on entering a mode; units are never read inside a unit. */
  predicate MayRead(h: Head, mode: Mode) {
    !h.CompilationUnit? && !h.MetaUnit? && (h.MetaDecl? ==> mode.Outside?) &&
    (h.MetaIf? || h.MetaCalculation? ==> mode.InsideMetaDecl?)
  }

  /** The outcome of reading: the scopes afterwards, what references are bound
      to, and whether no error was diagnosed. */
  datatype Reading = Reading(chain: Chain, bindings: map<Path, Decl>, ok: bool)

  datatype Where = Where(unit: nat, top: Head)

  function DeclAt(w: Where, at: Path, h: Head): Decl {
    Decl(w.unit, w.top, at, h)
  }

  /** Reads the node at a place. */
  function Read(w: Where, t: Tree, at: Path, chain: Chain, mode: Mode): Reading
    decreases t, 1
  {
    var below := ReadKids(w, t.head, t.kids, at, 0, if Opens(t.head) then [map[]] + chain else chain, mode);
    var after := if Opens(t.head) then below.(chain := chain) else below;
    if !MayRead(t.head, mode) then after.(ok := false)
    else if mode.InsideMetaDecl? then after
    else if Introduces(t.head) then IntroduceDecl(after, t.head.name, DeclAt(w, at, t.head))
    else if t.head.DeclRef? then
      match Lookup(chain, t.head.name)
      case None => after.(ok := false)
      case Some(d) => after.(bindings := after.bindings[at := d])
    else after
  }

  /** Reads the children from number `i` on. */
  function ReadKids(w: Where, h: Head, ts: seq<Tree>, at: Path, i: nat, chain: Chain, mode: Mode): Reading
    decreases ts
  {
    if ts == [] then Reading(chain, map[], true)
    else
      var first := Read(w, ts[0], at + [i], chain, KidMode(h, i, mode));
      var rest := ReadKids(w, h, ts[1..], at, i + 1, first.chain, mode);
      Reading(rest.chain, first.bindings + rest.bindings, first.ok && rest.ok)
  }

  /** Introduces a declaration unless a visible one has its name already. */
  function IntroduceDecl(r: Reading, x: Name, d: Decl): Reading {
    if r.chain == [] || Lookup(r.chain, x).Some? then r.(ok := false)
    else r.(chain := [r.chain[0][x := d]] + r.chain[1..])
  }

  // What a subtree leaves in the scope, and what its parts see

  /** The declarations a node adds to the scope it stands in, in order. */
  function Leaves(w: Where, t: Tree, at: Path, mode: Mode): seq<Decl>
    decreases t, 1
  {
    (if Opens(t.head) then [] else LeavesOf(w, t.head, t.kids, at, 0, mode)) +
    (if Introduces(t.head) && !mode.InsideMetaDecl? then [DeclAt(w, at, t.head)] else [])
  }

  function LeavesOf(w: Where, h: Head, ts: seq<Tree>, at: Path, i: nat, mode: Mode): seq<Decl>
    decreases ts
  {
    if ts == [] then []
    else Leaves(w, ts[0], at + [i], KidMode(h, i, mode)) + LeavesOf(w, h, ts[1..], at, i + 1, mode)
  }

  /** The declarations read before the node at `p` below `t`, in scopes that
      are still open there. */
  function SeesAt(w: Where, t: Tree, at: Path, p: Path, mode: Mode): seq<Decl>
    decreases p
  {
    if p == [] || p[0] >= |t.kids| then []
    else
      LeavesOf(w, t.head, t.kids[..p[0]], at, 0, mode) +
      SeesAt(w, t.kids[p[0]], at + [p[0]], p[1..], KidMode(t.head, p[0], mode))
  }

  /** The node at a place below another one. */
  function NodeAt(t: Tree, p: Path): Option<Tree>
    decreases p
  {
    if p == [] then Some(t)
    else if p[0] < |t.kids| then NodeAt(t.kids[p[0]], p[1..])
    else None
  }

  function ModeAt(t: Tree, p: Path, mode: Mode): Mode
    decreases p
  {
    if p == [] || p[0] >= |t.kids| then mode
    else ModeAt(t.kids[p[0]], p[1..], KidMode(t.head, p[0], mode))
  }

  /** The declaration is what its name means in the chain. */
  predicate In(chain: Chain, d: Decl) {
    IsNamedDecl(d.head) && Lookup(chain, d.head.name) == Some(d)
  }

  predicate Named(d: Decl, x: Name) {
    IsNamedDecl(d.head) && d.head.name == x
  }

  /** Entries stand under their own names. */
  ghost predicate Keyed(chain: Chain) {
    forall x | Lookup(chain, x).Some? :: Named(Lookup(chain, x).value, x)
  }

  lemma EnterKeepsLookup(chain: Chain, x: Name)
    ensures Lookup([map[]] + chain, x) == Lookup(chain, x)
  {
    assert ([map[]] + chain)[1..] == chain;
  }

  lemma IntroduceLookup(r: Reading, x: Name, d: Decl, y: Name)
    requires IntroduceDecl(r, x, d).ok
    ensures Lookup(IntroduceDecl(r, x, d).chain, y) == if y == x then Some(d) else Lookup(r.chain, y)
    ensures Lookup(r.chain, x).None?
  {
  }

  /** Reading never hides a name. */
  lemma {:induction false} ReadExtends(w: Where, t: Tree, at: Path, chain: Chain, mode: Mode, x: Name)
    requires Lookup(chain, x).Some?
    ensures Lookup(Read(w, t, at, chain, mode).chain, x) == Lookup(chain, x)
    decreases t, 1
  {
    EnterKeepsLookup(chain, x);
    ReadKidsExtends(w, t.head, t.kids, at, 0, if Opens(t.head) then [map[]] + chain else chain, mode, x);
  }

  lemma {:induction false} ReadKidsExtends(w: Where, h: Head, ts: seq<Tree>, at: Path, i: nat, chain: Chain, mode: Mode,
                                           x: Name)
    requires Lookup(chain, x).Some?
    ensures Lookup(ReadKids(w, h, ts, at, i, chain, mode).chain, x) == Lookup(chain, x)
    decreases ts
  {
    if ts != [] {
      var first := Read(w, ts[0], at + [i], chain, KidMode(h, i, mode));
      ReadExtends(w, ts[0], at + [i], chain, KidMode(h, i, mode), x);
      ReadKidsExtends(w, h, ts[1..], at, i + 1, first.chain, mode, x);
    }
  }

  /** An error-free read adds exactly the declarations it leaves, under names
      that were free. */
  ghost predicate Adds(chain: Chain, ds: seq<Decl>, after: Chain) {
    (forall d :: In(after, d) <==> In(chain, d) || d in ds) &&
    (forall d | d in ds :: IsNamedDecl(d.head) && Lookup(chain, d.head.name).None?) &&
    (Keyed(chain) ==> Keyed(after))
  }

  lemma AddsTwice(a: Chain, x: seq<Decl>, b: Chain, y: seq<Decl>, c: Chain)
    requires Adds(a, x, b) && Adds(b, y, c) && Keyed(a)
    ensures Adds(a, x + y, c)
  {
    forall d | d in y
      ensures Lookup(a, d.head.name).None?
    {
      if Lookup(a, d.head.name).Some? {
        var e := Lookup(a, d.head.name).value;
        assert Named(e, d.head.name) && In(a, e);
        assert In(b, e);
      }
    }
  }

  lemma IntroduceAdds(r: Reading, d: Decl)
    requires IsNamedDecl(d.head) && IntroduceDecl(r, d.head.name, d).ok
    ensures Adds(r.chain, [d], IntroduceDecl(r, d.head.name, d).chain)
  {
    var after := IntroduceDecl(r, d.head.name, d).chain;
    forall y
      ensures Lookup(after, y) == if y == d.head.name then Some(d) else Lookup(r.chain, y)
    {
      IntroduceLookup(r, d.head.name, d, y);
    }
    assert Lookup(r.chain, d.head.name).None?;
  }

  lemma {:induction false} ReadAdds(w: Where, t: Tree, at: Path, chain: Chain, mode: Mode)
    requires Read(w, t, at, chain, mode).ok && Keyed(chain)
    ensures Adds(chain, Leaves(w, t, at, mode), Read(w, t, at, chain, mode).chain)
    decreases t, 1
  {
    var inner := if Opens(t.head) then [map[]] + chain else chain;
    forall x
      ensures Lookup(inner, x) == Lookup(chain, x)
    {
      EnterKeepsLookup(chain, x);
    }
    var below := ReadKids(w, t.head, t.kids, at, 0, inner, mode);
    ReadKidsAdds(w, t.head, t.kids, at, 0, inner, mode);
    if Introduces(t.head) && !mode.InsideMetaDecl? {
      var d := DeclAt(w, at, t.head);
      IntroduceAdds(below, d);
      AddsTwice(chain, LeavesOf(w, t.head, t.kids, at, 0, mode), below.chain, [d], Read(w, t, at, chain, mode).chain);
    }
  }

  lemma {:induction false} ReadKidsAdds(w: Where, h: Head, ts: seq<Tree>, at: Path, i: nat, chain: Chain, mode: Mode)
    requires ReadKids(w, h, ts, at, i, chain, mode).ok && Keyed(chain)
    ensures Adds(chain, LeavesOf(w, h, ts, at, i, mode), ReadKids(w, h, ts, at, i, chain, mode).chain)
    decreases ts
  {
    if ts != [] {
      var first := Read(w, ts[0], at + [i], chain, KidMode(h, i, mode));
      ReadAdds(w, ts[0], at + [i], chain, KidMode(h, i, mode));
      ReadKidsAdds(w, h, ts[1..], at, i + 1, first.chain, mode);
      AddsTwice(chain, Leaves(w, ts[0], at + [i], KidMode(h, i, mode)), first.chain,
                LeavesOf(w, h, ts[1..], at, i + 1, mode), ReadKids(w, h, ts, at, i, chain, mode).chain);
    }
  }

  /** Reading some children and then the others. */
  lemma {:induction false} ReadKidsAppend(w: Where, h: Head, a: seq<Tree>, b: seq<Tree>, at: Path, i: nat, chain: Chain,
                                          mode: Mode)
    ensures var first := ReadKids(w, h, a, at, i, chain, mode);
            var rest := ReadKids(w, h, b, at, i + |a|, first.chain, mode);
            ReadKids(w, h, a + b, at, i, chain, mode) ==
            Reading(rest.chain, first.bindings + rest.bindings, first.ok && rest.ok)
    decreases a
  {
    hide Read;
    if a == [] {
      assert a + b == b;
      var rest := ReadKids(w, h, b, at, i, chain, mode);
      assert map[] + rest.bindings == rest.bindings;
    } else {
      assert (a + b)[1..] == a[1..] + b;
      var first := Read(w, a[0], at + [i], chain, KidMode(h, i, mode));
      ReadKidsAppend(w, h, a[1..], b, at, i + 1, first.chain, mode);
      var second := ReadKids(w, h, a[1..], at, i + 1, first.chain, mode);
      var rest := ReadKids(w, h, b, at, i + |a|, second.chain, mode);
      MergeAssoc(first.bindings, second.bindings, rest.bindings);
    }
  }

  /** Bindings are recorded under the places of the references. */
  lemma {:induction false} BindingsAreBelow(w: Where, t: Tree, at: Path, chain: Chain, mode: Mode)
    ensures forall p | p in Read(w, t, at, chain, mode).bindings :: |p| >= |at| && p[..|at|] == at
    decreases t, 1
  {
    var inner := if Opens(t.head) then [map[]] + chain else chain;
    KidBindingsAreBelow(w, t.head, t.kids, at, 0, inner, mode);
  }

  lemma {:induction false} KidBindingsAreBelow(w: Where, h: Head, ts: seq<Tree>, at: Path, i: nat, chain: Chain,
                                               mode: Mode)
    ensures forall p | p in ReadKids(w, h, ts, at, i, chain, mode).bindings ::
              |p| > |at| && p[..|at|] == at && i <= p[|at|] < i + |ts|
    decreases ts
  {
    if ts != [] {
      var first := Read(w, ts[0], at + [i], chain, KidMode(h, i, mode));
      BindingsAreBelow(w, ts[0], at + [i], chain, KidMode(h, i, mode));
      KidBindingsAreBelow(w, h, ts[1..], at, i + 1, first.chain, mode);
      forall p | p in first.bindings
        ensures |p| > |at| && p[..|at|] == at && p[|at|] == i
      {
        var head := p[..|at| + 1];
        assert head == at + [i];
        assert p[..|at|] == head[..|at|] && p[|at|] == head[|at|];
      }
    }
  }

  lemma MergeAssoc(a: map<Path, Decl>, b: map<Path, Decl>, c: map<Path, Decl>)
    ensures a + (b + c) == a + b + c
  {
  }

  function KidsRead(w: Where, t: Tree, at: Path, chain: Chain, mode: Mode): Reading {
    ReadKids(w, t.head, t.kids, at, 0, if Opens(t.head) then [map[]] + chain else chain, mode)
  }

  ghost predicate SameBindings(a: map<Path, Decl>, b: map<Path, Decl>, at: Path) {
    forall p: Path | |p| >= |at| && p[..|at|] == at :: (p in a <==> p in b) && (p in a ==> a[p] == b[p])
  }

  /** A node itself adds no binding but its own. */
  lemma ReadIsKids(w: Where, t: Tree, at: Path, k: nat, chain: Chain, mode: Mode)
    ensures var r := Read(w, t, at, chain, mode);
            var kids := KidsRead(w, t, at, chain, mode);
            (r.ok ==> kids.ok) && SameBindings(r.bindings, kids.bindings, at + [k])
  {
    hide ReadKids;
  }

  /** The read of a node, seen from child number `k`. */
  lemma ReadChild(w: Where, t: Tree, at: Path, k: nat, chain: Chain, mode: Mode)
    requires k < |t.kids|
    ensures var r := KidsRead(w, t, at, chain, mode);
            var inner := if Opens(t.head) then [map[]] + chain else chain;
            var first := ReadKids(w, t.head, t.kids[..k], at, 0, inner, mode);
            var kid := Read(w, t.kids[k], at + [k], first.chain, KidMode(t.head, k, mode));
            (r.ok ==> kid.ok && first.ok) && SameBindings(r.bindings, kid.bindings, at + [k])
  {
    hide Read, ReadKids, SameBindings;
    var inner := if Opens(t.head) then [map[]] + chain else chain;
    var before, after := t.kids[..k], t.kids[k..];
    var first := ReadKids(w, t.head, before, at, 0, inner, mode);
    var kid := Read(w, t.kids[k], at + [k], first.chain, KidMode(t.head, k, mode));
    var rest := ReadKids(w, t.head, after[1..], at, k + 1, kid.chain, mode);
    assert t.kids == before + after && after[0] == t.kids[k];
    ReadKidsAppend(w, t.head, before, after, at, 0, inner, mode);
    ReadFirstKid(w, t.head, after, at, k, first.chain, mode);
    KidBindingsAreBelow(w, t.head, before, at, 0, inner, mode);
    KidBindingsAreBelow(w, t.head, after[1..], at, k + 1, kid.chain, mode);
    forall p: Path | |p| >= |at + [k]| && p[..|at + [k]|] == at + [k]
      ensures p !in first.bindings && p !in rest.bindings
    {
      assert p[|at|] == p[..|at + [k]|][|at|] == k;
    }
    MergeMiddle(first.bindings, kid.bindings, rest.bindings, at + [k]);
  }

  lemma ReadFirstKid(w: Where, h: Head, ts: seq<Tree>, at: Path, i: nat, chain: Chain, mode: Mode)
    requires ts != []
    ensures var first := Read(w, ts[0], at + [i], chain, KidMode(h, i, mode));
            var rest := ReadKids(w, h, ts[1..], at, i + 1, first.chain, mode);
            ReadKids(w, h, ts, at, i, chain, mode) ==
            Reading(rest.chain, first.bindings + rest.bindings, first.ok && rest.ok)
  {
  }

  lemma MergeMiddle(a: map<Path, Decl>, b: map<Path, Decl>, c: map<Path, Decl>, at: Path)
    requires forall p: Path | |p| >= |at| && p[..|at|] == at :: p !in a && p !in c
    ensures SameBindings(a + (b + c), b, at)
  {
  }

  /** What a reference below `t` is bound to in an error-free read: what its name
      means among the declarations it sees and those of the chain. */
  lemma {:induction false} ReferenceBinds(w: Where, t: Tree, at: Path, chain: Chain, mode: Mode, p: Path)
    requires Read(w, t, at, chain, mode).ok && Keyed(chain)
    requires NodeAt(t, p).Some? && NodeAt(t, p).value.head.DeclRef?
    ensures var bindings := Read(w, t, at, chain, mode).bindings;
            if ModeAt(t, p, mode).InsideMetaDecl? then at + p !in bindings
            else
              at + p in bindings && Named(bindings[at + p], NodeAt(t, p).value.head.name) &&
              forall d | Named(d, NodeAt(t, p).value.head.name) ::
                bindings[at + p] == d <==> In(chain, d) || d in SeesAt(w, t, at, p, mode)
    decreases p
  {
    var bindings := Read(w, t, at, chain, mode).bindings;
    if p == [] {
      assert at + p == at;
      KidBindingsAreBelow(w, t.head, t.kids, at, 0, chain, mode);
    } else {
      var k, rest := p[0], p[1..];
      var inner := if Opens(t.head) then [map[]] + chain else chain;
      forall x
        ensures Lookup(inner, x) == Lookup(chain, x)
      {
        EnterKeepsLookup(chain, x);
      }
      var there := ReadKids(w, t.head, t.kids[..k], at, 0, inner, mode).chain;
      ReadIsKids(w, t, at, k, chain, mode);
      ReadChild(w, t, at, k, chain, mode);
      ReadKidsAdds(w, t.head, t.kids[..k], at, 0, inner, mode);
      ReferenceBinds(w, t.kids[k], at + [k], there, KidMode(t.head, k, mode), rest);
      assert at + [k] + rest == at + p;
      assert (at + p)[..|at + [k]|] == at + [k];
    }
  }
}
