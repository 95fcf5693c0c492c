/** Scopes as the original keeps them: maps linked to their parents, entered and
    left by a builder (src/AST/ASTScope.cpp, src/Parse/BasicASTBuilder.cpp). */
module ASTBuilding {
  import opened Wrappers
  import opened Ast
  import opened Binding
  import opened UnitBinding

  class AllocatedScope {
    const parent: AllocatedScope?
    var lookupMap: Layer
    /** This scope, its parent, the parent's parent, and so on. */
    ghost const ancestors: seq<AllocatedScope>

    ghost predicate ScopesLinked()
      decreases |ancestors|
    {
      ancestors != [] && ancestors[0] == this &&
      if parent == null then ancestors == [this]
      else ancestors == [this] + parent.ancestors && parent.ScopesLinked()
    }

    constructor (parent: AllocatedScope?)
      requires parent != null ==> parent.ScopesLinked()
      ensures this.parent == parent && ScopesLinked() && lookupMap == map[]
      ensures ancestors == [this] + (if parent == null then [] else parent.ancestors)
    {
      this.parent := parent;
      lookupMap := map[];
      ancestors := [this] + (if parent == null then [] else parent.ancestors);
    }

    ghost function Layers(): (chain: Chain)
      requires ScopesLinked()
      reads ancestors
      ensures chain != [] && |chain| == |ancestors| && chain[0] == lookupMap
      decreases |ancestors|
    {
      assert parent != null ==> forall i | 0 <= i < |parent.ancestors| :: parent.ancestors[i] == ancestors[i + 1];
      [lookupMap] + (if parent == null then [] else parent.Layers())
    }

    /** No scope is its own ancestor. */
    lemma ParentsDiffer()
      requires ScopesLinked()
      ensures forall i | 0 <= i < |ancestors| :: |ancestors[i].ancestors| == |ancestors| - i
      ensures forall i | 0 < i < |ancestors| :: ancestors[i] != this
      decreases |ancestors|
    {
      if parent != null {
        parent.ParentsDiffer();
        assert forall i | 0 < i < |ancestors| :: ancestors[i] == parent.ancestors[i - 1];
      }
    }

    /** The name must be new in this very scope. */
    method Insert(x: Name, d: Decl)
      requires ScopesLinked() && x !in lookupMap
      modifies this
      ensures Layers() == [old(lookupMap)[x := d]] + old(Layers())[1..]
      ensures lookupMap == old(lookupMap)[x := d]
    {
      ParentsDiffer();
      assert parent != null ==> forall i | 0 <= i < |parent.ancestors| :: parent.ancestors[i] == ancestors[i + 1];
      lookupMap := lookupMap[x := d];
    }

    function LookupIdentifier(x: Name): (r: Option<Decl>)
      requires ScopesLinked()
      reads ancestors
      ensures r == Lookup(Layers(), x)
      decreases |ancestors|
    {
      assert parent != null ==> forall i | 0 <= i < |parent.ancestors| :: parent.ancestors[i] == ancestors[i + 1];
      if x in lookupMap then Some(lookupMap[x])
      else if parent != null then parent.LookupIdentifier(x)
      else None
    }
  }

  /** A scope that adds no layer but tells a calculation what is introduced. */
  class InplaceScope {
    const parent: AllocatedScope
    /** What the listener was told. */
    var exportedDecls: seq<Decl>

    constructor (parent: AllocatedScope)
      ensures this.parent == parent && exportedDecls == []
    {
      this.parent := parent;
      exportedDecls := [];
    }

    method Insert(x: Name, d: Decl)
      requires parent.ScopesLinked() && x !in parent.lookupMap
      modifies this, parent
      ensures parent.Layers() == [old(parent.lookupMap)[x := d]] + old(parent.Layers())[1..]
      ensures exportedDecls == old(exportedDecls) + [d]
    {
      parent.Insert(x, d);
      exportedDecls := exportedDecls + [d];
    }
  }

  /** The one exception: the node a meta unit exports, the top-level one with
      the name of the meta declaration the unit instantiates, stands over that
      declaration.  A unit that is read without an error has one such node
      only, the one it exports (UnitBinding.ExportsTheOne). */
  predicate Shadows(metaUnits: map<nat, Decl>, inner: Decl, outer: Decl) {
    outer.head.MetaDecl? && inner.unit in metaUnits && metaUnits[inner.unit] == outer && IsExportedNode(outer, inner)
  }

  predicate IsExportedNode(instantiated: Decl, d: Decl) {
    d == TopDecl(d.unit, d.head) && IsExported(Some(instantiated), d.head)
  }

  /** Layer `j` is the next one after layer `i` that binds the name. */
  ghost predicate Next(chain: Chain, i: nat, j: nat, x: Name) {
    i < j < |chain| && x in chain[i] && x in chain[j] && forall k | i < k < j :: x !in chain[k]
  }

  /** No name is bound twice along the chain, but for the exception. */
  ghost predicate NoTwice(metaUnits: map<nat, Decl>, chain: Chain) {
    forall i: nat, j: nat, x | Next(chain, i, j, x) :: ShadowsAt(metaUnits, chain, i, j, x)
  }

  predicate ShadowsAt(metaUnits: map<nat, Decl>, chain: Chain, i: nat, j: nat, x: Name) {
    i < j < |chain| && x in chain[i] && x in chain[j] && Shadows(metaUnits, chain[i][x], chain[j][x])
  }

  /** The innermost layers hold declarations of the unit itself. */
  ghost predicate Owned(unit: nat, chain: Chain, outer: nat) {
    forall i, x | 0 <= i < |chain| - outer && x in chain[i] :: chain[i][x].unit == unit
  }

  lemma {:induction false} LookupFinds(chain: Chain, x: Name) returns (k: nat)
    ensures Lookup(chain, x).None? ==> forall i | 0 <= i < |chain| :: x !in chain[i]
    ensures Lookup(chain, x).Some? ==>
              k < |chain| && x in chain[k] && Lookup(chain, x) == Some(chain[k][x]) &&
                forall i | 0 <= i < k :: x !in chain[i]
    decreases chain
  {
    k := 0;
    if chain != [] && x !in chain[0] {
      var rest := LookupFinds(chain[1..], x);
      k := rest + 1;
      assert forall i | 0 < i < |chain| :: chain[i] == chain[1..][i - 1];
    }
  }

  function Inserted(chain: Chain, x: Name, d: Decl): Chain
    requires chain != []
  {
    [chain[0][x := d]] + chain[1..]
  }

  /** Inserting what the builder allows never meets the name in the same scope,
      and binds no name twice. */
  lemma InsertKeepsNoTwice(metaUnits: map<nat, Decl>, unit: nat, instantiates: Option<Decl>, exported: Option<Decl>,
                           chain: Chain, outer: nat, x: Name, d: Decl)
    requires chain != [] && outer < |chain| && NoTwice(metaUnits, chain) && Owned(unit, chain, outer) && d.unit == unit
    requires instantiates.Some? ==>
               instantiates.value.unit != unit && unit in metaUnits && metaUnits[unit] == instantiates.value
    requires exported.Some? ==> instantiates.Some? && IsExportedNode(instantiates.value, exported.value)
    requires Lookup(chain, x).Some? ==> MayShadow(instantiates, exported, d, Lookup(chain, x).value)
    ensures x !in chain[0]
    ensures NoTwice(metaUnits, Inserted(chain, x, d)) && Owned(unit, Inserted(chain, x, d), outer)
  {
    hide Next;
    var k := LookupFinds(chain, x);
    var after := Inserted(chain, x, d);
    assert x !in chain[0];
    forall i: nat, j: nat, y | Next(after, i, j, y)
      ensures ShadowsAt(metaUnits, after, i, j, y)
    {
      NextInserted(chain, x, d, i, j, y, k);
      NextIsInside(after, i, j, y);
      if i != 0 || y != x {
        assert ShadowsAt(metaUnits, chain, i, j, y);
      }
    }
  }

  lemma NextInserted(chain: Chain, x: Name, d: Decl, i: nat, j: nat, y: Name, k: nat)
    requires chain != [] && Next(Inserted(chain, x, d), i, j, y)
    requires Lookup(chain, x).Some? ==>
               k < |chain| && x in chain[k] && Lookup(chain, x) == Some(chain[k][x]) &&
                 forall i | 0 <= i < k :: x !in chain[i]
    requires Lookup(chain, x).None? ==> forall i | 0 <= i < |chain| :: x !in chain[i]
    ensures var after := Inserted(chain, x, d);
            j < |chain| && after[j] == chain[j] && i < j &&
            if i == 0 && y == x then after[i][y] == d && (x in chain[0] || (Lookup(chain, x) == Some(chain[j][x])))
            else Next(chain, i, j, y) && after[i][y] == chain[i][y]
  {
    var after := Inserted(chain, x, d);
    assert forall m | 0 < m < |chain| :: after[m] == chain[m];
  }

  lemma NextEntered(chain: Chain, i: nat, j: nat, y: Name)
    requires Next([map[]] + chain, i, j, y)
    ensures i > 0 && Next(chain, i - 1, j - 1, y)
  {
    var after := [map[]] + chain;
    assert forall k | 0 < k < |after| :: after[k] == chain[k - 1];
    forall k | i - 1 < k < j - 1
      ensures y !in chain[k]
    {
      assert after[k + 1] == chain[k];
    }
  }

  lemma EnterKeepsNoTwice(metaUnits: map<nat, Decl>, unit: nat, chain: Chain, outer: nat)
    requires NoTwice(metaUnits, chain) && Owned(unit, chain, outer) && outer <= |chain|
    ensures NoTwice(metaUnits, [map[]] + chain) && Owned(unit, [map[]] + chain, outer)
  {
    hide Next;
    var after := [map[]] + chain;
    forall i: nat, j: nat, y | Next(after, i, j, y)
      ensures ShadowsAt(metaUnits, after, i, j, y)
    {
      NextEntered(chain, i, j, y);
      NextIsInside(after, i, j, y);
      assert after[i] == chain[i - 1] && after[j] == chain[j - 1];
    }
  }

  lemma NextIsInside(chain: Chain, i: nat, j: nat, y: Name)
    requires Next(chain, i, j, y)
    ensures i < j < |chain| && y in chain[i] && y in chain[j]
  {
  }

  lemma NextLeft(chain: Chain, i: nat, j: nat, y: Name)
    requires chain != [] && Next(chain[1..], i, j, y)
    ensures Next(chain, i + 1, j + 1, y)
  {
    assert forall k | 0 <= k < |chain[1..]| :: chain[1..][k] == chain[k + 1];
    forall k | i + 1 < k < j + 1
      ensures y !in chain[k]
    {
      assert chain[1..][k - 1] == chain[k];
    }
  }

  lemma LeaveKeepsNoTwice(metaUnits: map<nat, Decl>, unit: nat, chain: Chain, outer: nat)
    requires chain != [] && NoTwice(metaUnits, chain) && Owned(unit, chain, outer)
    ensures NoTwice(metaUnits, chain[1..]) && Owned(unit, chain[1..], outer)
  {
    hide Next;
    var after := chain[1..];
    forall i: nat, j: nat, y | Next(after, i, j, y)
      ensures ShadowsAt(metaUnits, after, i, j, y)
    {
      NextLeft(chain, i, j, y);
      NextIsInside(after, i, j, y);
      assert after[i] == chain[i + 1] && after[j] == chain[j + 1];
    }
  }

  /** The nearest layers that bind the name too, from `i` outwards and from `j` inwards. */
  lemma {:induction false} FindNext(chain: Chain, i: nat, j: nat, x: Name) returns (k: nat)
    requires i < j < |chain| && x in chain[i] && x in chain[j]
    ensures k <= j && Next(chain, i, k, x)
    decreases j - i
  {
    if m: nat :| i < m < j && x in chain[m] {
      k := FindNext(chain, i, m, x);
    } else {
      k := j;
    }
  }

  lemma {:induction false} FindPrevious(chain: Chain, i: nat, j: nat, x: Name) returns (k: nat)
    requires i < j < |chain| && x in chain[i] && x in chain[j]
    ensures i <= k && Next(chain, k, j, x)
    decreases j - i
  {
    if m: nat :| i < m < j && x in chain[m] {
      k := FindPrevious(chain, m, j, x);
    } else {
      k := i;
    }
  }

  /** When a name is bound in two layers, the outer one is a meta declaration and
      the inner one a top-level node of a unit that instantiates a meta
      declaration of that name: locals never shadow and are never shadowed. */
  lemma OnlyMetaDeclsAreShadowed(metaUnits: map<nat, Decl>, chain: Chain, i: nat, j: nat, x: Name)
    requires NoTwice(metaUnits, chain) && i < j < |chain| && x in chain[i] && x in chain[j]
    ensures chain[j][x].head.MetaDecl?
    ensures var inner := chain[i][x];
            inner.path == [] && IsNamedDecl(inner.head) && inner.unit in metaUnits &&
            metaUnits[inner.unit].head == MetaDecl(inner.head.name)
  {
    var k := FindNext(chain, i, j, x);
    assert ShadowsAt(metaUnits, chain, i, k, x);
    var m := FindPrevious(chain, i, j, x);
    assert ShadowsAt(metaUnits, chain, m, j, x);
  }

  /** Builds a tree: the current scope, the mode and the errors so far. */
  class BasicASTBuilder {
    const unit: nat
    /** The meta declaration a meta unit instantiates. */
    const instantiates: Option<Decl>
    ghost const metaUnits: map<nat, Decl>
    /** How many layers belong to the units outside. */
    ghost const outerDepth: nat
    var currentScope: AllocatedScope?
    var inplace: InplaceScope?
    var modes: seq<Mode>
    var exported: Option<Decl>
    var hadError: bool

    constructor (unit: nat, instantiates: Option<Decl>, ghost metaUnits: map<nat, Decl>, ghost outerDepth: nat)
      requires instantiates.Some? ==>
                 instantiates.value.unit != unit && unit in metaUnits && metaUnits[unit] == instantiates.value
      ensures this.unit == unit && this.instantiates == instantiates && this.metaUnits == metaUnits
      ensures this.outerDepth == outerDepth && currentScope == null && modes == [] && exported == None && !hadError
      ensures Valid()
    {
      this.unit, this.instantiates, this.metaUnits, this.outerDepth := unit, instantiates, metaUnits, outerDepth;
      currentScope, inplace, modes, exported, hadError := null, null, [], None, false;
    }

    ghost predicate Valid()
      reads this, if currentScope != null then currentScope.ancestors else []
    {
      (instantiates.Some? ==>
         instantiates.value.unit != unit && unit in metaUnits && metaUnits[unit] == instantiates.value) &&
      (exported.Some? ==> instantiates.Some? && IsExportedNode(instantiates.value, exported.value)) &&
      (inplace != null ==> currentScope == inplace.parent) &&
      (currentScope != null ==>
         currentScope.ScopesLinked() && outerDepth < |currentScope.ancestors| &&
         NoTwice(metaUnits, currentScope.Layers()) && Owned(unit, currentScope.Layers(), outerDepth))
    }

    function CurrentMode(): Mode
      reads this
    {
      if modes == [] then Outside else modes[|modes| - 1]
    }

    /** Enters the scope of a unit on top of the scope of another one. */
    method EnterConsistentScope(outer: AllocatedScope?)
      requires Valid() && currentScope == null && inplace == null
      requires outer == null ==> outerDepth == 0
      requires outer != null ==>
                 outer.ScopesLinked() && outerDepth == |outer.ancestors| && NoTwice(metaUnits, outer.Layers())
      modifies this`currentScope
      ensures Valid() && currentScope != null && fresh(currentScope) && currentScope.parent == outer
      ensures currentScope.Layers() == [map[]] + (if outer == null then [] else outer.Layers())
    {
      if outer != null {
        EnterKeepsNoTwice(metaUnits, unit, outer.Layers(), outerDepth);
      }
      currentScope := new AllocatedScope(outer);
    }

    method EnterTemporaryScope()
      requires Valid() && currentScope != null
      modifies this`currentScope, this`inplace
      ensures Valid() && currentScope != null && fresh(currentScope) && currentScope.parent == old(currentScope)
      ensures inplace == null
      ensures currentScope.Layers() == [map[]] + old(currentScope.Layers())
      ensures currentScope.ancestors == [currentScope] + old(currentScope).ancestors
    {
      EnterKeepsNoTwice(metaUnits, unit, currentScope.Layers(), outerDepth);
      currentScope := new AllocatedScope(currentScope);
      inplace := null;
    }

    /** Leaves a scope for the one that was current before. */
    method LeaveScope(previous: AllocatedScope, listening: InplaceScope?)
      requires Valid() && currentScope != null && currentScope.parent == previous
      requires outerDepth < |previous.ancestors| && (listening != null ==> listening.parent == previous)
      modifies this`currentScope, this`inplace
      ensures Valid() && currentScope == previous && inplace == listening
      ensures currentScope.Layers() == old(currentScope.Layers())[1..]
    {
      LeaveKeepsNoTwice(metaUnits, unit, currentScope.Layers(), outerDepth);
      currentScope := previous;
      inplace := listening;
    }

    /** Lets a calculation listen to what is introduced into the current scope. */
    method EnterInplaceScope()
      requires Valid() && currentScope != null
      modifies this`inplace
      ensures Valid() && inplace != null && fresh(inplace) && inplace.exportedDecls == []
    {
      inplace := new InplaceScope(currentScope);
    }

    /** The unit exports the top-level node. */
    method SetExportedNode(d: Decl)
      requires Valid() && instantiates.Some? && IsExportedNode(instantiates.value, d)
      modifies this`exported
      ensures Valid() && exported == Some(d)
    {
      exported := Some(d);
    }

    method EnterMetaDeclMode()
      requires CurrentMode().Outside?
      modifies this`modes
      ensures modes == old(modes) + [InsideMetaDecl]
    {
      modes := modes + [InsideMetaDecl];
    }

    method EnterMetaComputationMode()
      requires CurrentMode().InsideMetaDecl?
      modifies this`modes
      ensures modes == old(modes) + [InsideComputation]
    {
      modes := modes + [InsideComputation];
    }

    method LeaveMode()
      requires modes != []
      modifies this`modes
      ensures modes == old(modes)[..|old(modes)| - 1]
    {
      modes := modes[..|modes| - 1];
    }

    /** Introduces a declaration, unless code is only copied here, or reports
        that its name is taken.  The insertion never meets the name in the
        scope it inserts into. */
    method Introduce(d: Decl)
      requires Valid() && currentScope != null && IsNamedDecl(d.head) && d.unit == unit
      modifies this`hadError, currentScope, inplace
      ensures Valid()
      ensures var previous := Lookup(old(currentScope.Layers()), d.head.name);
              if CurrentMode().InsideMetaDecl? ||
                 (previous.Some? && !MayShadow(instantiates, exported, d, previous.value))
              then
                currentScope.Layers() == old(currentScope.Layers()) &&
                hadError == (old(hadError) || !CurrentMode().InsideMetaDecl?) &&
                (inplace != null ==> inplace.exportedDecls == old(inplace.exportedDecls))
              else
                currentScope.Layers() == Inserted(old(currentScope.Layers()), d.head.name, d) &&
                hadError == old(hadError) &&
                (inplace != null ==> inplace.exportedDecls == old(inplace.exportedDecls) + [d])
    {
      if CurrentMode().InsideMetaDecl? {
        return;
      }
      var x := d.head.name;
      var previous := currentScope.LookupIdentifier(x);
      if previous.Some? && !MayShadow(instantiates, exported, d, previous.value) {
        hadError := true;
        return;
      }
      InsertKeepsNoTwice(metaUnits, unit, instantiates, exported, currentScope.Layers(), outerDepth, x, d);
      if inplace != null {
        inplace.Insert(x, d);
      } else {
        currentScope.Insert(x, d);
      }
    }
  }
}
