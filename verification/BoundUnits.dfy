/** Reading an instantiation back binds its references, too: an instantiation is
    complete only when that reports no error (instantiate in
    src/Codegen/CodeExecutor.cpp, consumeMetaUnit in src/Parse/ASTLayout.cpp). */
module BoundUnits {
  import opened Wrappers
  import opened Ast
  import opened Machine
  import opened Semantics
  import opened FunctionCodegen
  import opened MetaCodegen
  import opened Instantiation
  import opened Crawl
  import opened SpecialisedUnits
  import opened DependencyAnalysis
  import opened Binding
  import opened LexicalScope
  import opened UnitBinding

  /** What the executor does: it runs the compiled function, reads the layout, and
      goes on only if its names could be bound. */
  function InstantiateAndBind(g: Globals, call: Oracle, u: nat, instantiates: Decl, outer: Chain, ps: Params,
                              contribution: Tree, args: seq<int>): Option<Tree>
    requires IsNamedDecl(instantiates.head)
  {
    var unit :- InstantiateByRunning(g, call, instantiates.head.name, ps, contribution, args);
    if ReadUnit(u, Some(instantiates), outer, unit.kids).ok then Some(unit) else None
  }

  /** The declarations of a unit can be told apart and from those outside, and
      every one of them can be read among them. */
  ghost predicate Binds(u: nat, instantiates: Option<Decl>, outer: Chain, kids: seq<Tree>) {
    TopsFit(instantiates, outer, NamedDecls(Heads(kids))) &&
    forall t | t in kids :: ReadTop(u, t, ReadUnit(u, instantiates, outer, kids).top.chain).ok
  }

  lemma UnitBindsIff(u: nat, instantiates: Option<Decl>, outer: Chain, kids: seq<Tree>)
    requires AreTops(kids) && (instantiates.Some? ==> instantiates.value.unit != u)
    ensures ReadUnit(u, instantiates, outer, kids).ok <==> Binds(u, instantiates, outer, kids)
  {
    hide TopsFit, Read, ReadTops, NamedDecls;
    UnitIntroduced(u, instantiates, outer, kids);
    ReadsApart(u, kids, ReadUnit(u, instantiates, outer, kids).top.chain);
    TopsFitUnit([], kids);
    IntroducesTopLevelOnly(CompilationUnit, [], kids);
  }

  lemma {:induction false} MembersAreTops(ts: seq<Tree>)
    requires AllUnitMembers(ts) && OneBodyEach(ts)
    ensures AreTops(ts)
    decreases ts
  {
    if ts != [] {
      MembersAreTops(ts[1..]);
      if ts[0].head.FunctionDecl? {
        FunctionFits(ts[0].head, ts[0].kids);
        assert Tree(ts[0].head, ts[0].kids) == ts[0];
      }
    }
  }

  /** An instantiation is complete exactly when it can be read back and the
      declarations of the specialised unit bind. */
  lemma InstantiationBindsIff(g: Globals, call: Oracle, u: nat, instantiates: Decl, outer: Chain, ps: Params,
                              contribution: Tree, args: seq<int>)
    requires IsNamedDecl(instantiates.head) && instantiates.unit != u
    requires ClosedMetaFunction(g, ps, contribution) && |args| == |ps|
    requires contribution.head.MetaContribution? && WellKinded(contribution) && Derivable(false, contribution)
    ensures var read := ReadBack(instantiates.head.name, Instantiated(g, call, ps, contribution, args));
            InstantiateAndBind(g, call, u, instantiates, outer, ps, contribution, args) ==
            if read.Some? && Binds(u, Some(instantiates), outer, read.value.kids) then read else None
  {
    hide InstantiateByRunning, Instantiated, Derivable, ClosedMetaFunction, WellKinded, ReadUnit, Binds, OneBodyEach;
    var meant := Instantiated(g, call, ps, contribution, args);
    var read := ReadBack(instantiates.head.name, meant);
    StagingIsSpecialisation(g, call, instantiates.head.name, ps, contribution, args);
    if read.Some? {
      InstantiatedMembers(g, call, ps, contribution, args);
      MembersAreTops(meant.trees);
      UnitBindsIff(u, Some(instantiates), outer, meant.trees);
    }
  }

  lemma InstantiatedMembers(g: Globals, call: Oracle, ps: Params, contribution: Tree, args: seq<int>)
    requires |args| == |ps| && contribution.head.MetaContribution?
    requires WellKinded(contribution) && Derivable(false, contribution)
    ensures var meant := Instantiated(g, call, ps, contribution, args);
            !meant.Undefined? ==> AllUnitMembers(meant.trees)
  {
    hide Specialise, Derivable, WellKinded;
    var env := Bind(map[], ps, args);
    var params := ExportTrees(ParamNamesInOrder(ps), env, false);
    var meant := Specialise(g, call, false, contribution, env);
    SpecialisedMembers(g, call, contribution, env);
    ExportsAreMembers(ParamNamesInOrder(ps), env);
    if !meant.Undefined? {
      MembersAppend(params, meant.trees);
    }
  }

  // Names that are taken

  /** A declaration that is read without an error has a name that was free. */
  lemma {:induction false} DeclaredIsFree(w: Where, t: Tree, at: Path, chain: Chain, mode: Mode, q: Path)
    requires Read(w, t, at, chain, mode).ok && Keyed(chain) && DeclaresAt(t, q, mode)
    ensures Lookup(chain, NodeAt(t, q).value.head.name).None?
    decreases q
  {
    var x := NodeAt(t, q).value.head.name;
    var inner := if Opens(t.head) then [map[]] + chain else chain;
    EnterKeepsLookup(chain, x);
    if q == [] {
      if Lookup(chain, x).Some? {
        ReadKidsExtends(w, t.head, t.kids, at, 0, inner, mode, x);
      }
    } else {
      var k, rest := q[0], q[1..];
      forall y
        ensures Lookup(inner, y) == Lookup(chain, y)
      {
        EnterKeepsLookup(chain, y);
      }
      var before := ReadKids(w, t.head, t.kids[..k], at, 0, inner, mode).chain;
      ReadIsKids(w, t, at, k, chain, mode);
      ReadChild(w, t, at, k, chain, mode);
      ReadKidsAdds(w, t.head, t.kids[..k], at, 0, inner, mode);
      DeclaredIsFree(w, t.kids[k], at + [k], before, KidMode(t.head, k, mode), rest);
      if Lookup(chain, x).Some? {
        ReadKidsExtends(w, t.head, t.kids[..k], at, 0, inner, mode, x);
      }
    }
  }

  /** A unit with a constant, such as the one of a parameter, and with a local of
      the same name in one of its functions does not bind, although nothing was
      wrong with the declaration it comes from. */
  lemma LocalOverConstantFails(u: nat, instantiates: Option<Decl>, outer: Chain, kids: seq<Tree>, t: Tree, q: Path,
                               c: Tree)
    requires AreTops(kids) && (instantiates.Some? ==> instantiates.value.unit != u) && Keyed(outer)
    requires t in kids && c in kids && c.head.GlobalConstant? && DeclaresAt(t, q, Outside)
    requires NodeAt(t, q).value.head.name == c.head.name
    ensures !ReadUnit(u, instantiates, outer, kids).ok
  {
    var x := c.head.name;
    var r := ReadUnit(u, instantiates, outer, kids);
    if r.ok {
      UnitBindsIff(u, instantiates, outer, kids);
      UnitIntroduced(u, instantiates, outer, kids);
      TopsFitUnit([], kids);
      IntroducesTopLevelOnly(CompilationUnit, [], kids);
      NamedDeclsCount(Heads(kids), x);
      InHeads(kids, c.head);
      LayerIsKeyed(u, NamedDecls(Exposed(kids)), r.top.chain, outer);
      assert Lookup(r.top.chain, x).Some?;
      DeclaredIsFree(Where(u, t.head), t, [], r.top.chain, Outside, q);
      assert false;
    }
  }

  lemma LayerIsKeyed(u: nat, hs: seq<Head>, chain: Chain, outer: Chain)
    requires chain != [] && chain[1..] == outer && IsLayer(u, hs, chain[0]) && Keyed(outer)
    ensures Keyed(chain)
  {
    forall x | Lookup(chain, x).Some?
      ensures Named(Lookup(chain, x).value, x)
    {
      if x in chain[0] {
        CountSome(hs, x);
      } else {
        assert Lookup(chain, x) == Lookup(outer, x);
      }
    }
  }
}
