/** Which instantiations the reader accepts: what the grammar derives is
    specialised to nodes of the right kinds, except that a meta statement
    standing alone as the body of a function must come to one statement. */
module SpecialisedUnits {
  import opened Wrappers
  import opened Ast
  import opened Layout
  import opened Sequences
  import opened Crawl
  import opened Machine
  import opened Runs
  import opened Semantics
  import opened FunctionCodegen
  import opened MetaCodegen
  import opened Staging
  import opened Dumper
  import opened Instantiation

  /** Trees without meta statements. */
  predicate NoMeta(t: Tree)
    decreases t, 0
  {
    IsPlain(t.head) && AllNoMeta(t.kids)
  }

  predicate AllNoMeta(ts: seq<Tree>)
    decreases ts
  {
    ts == [] || (NoMeta(ts[0]) && AllNoMeta(ts[1..]))
  }

  /** Such trees are copied. */
  lemma {:induction false} NoMetaIsCopied(g: Globals, call: Oracle, inside: bool, t: Tree, env: Env)
    requires NoMeta(t)
    ensures Specialise(g, call, inside, t, env) == Done([t], env)
    decreases t, 0
  {
    AllNoMetaCopied(g, call, Deeper(inside, t.head), t.kids, env);
    SpecialiseCopy(g, call, inside, t, env);
    assert Kept(env, env) == env;
  }

  lemma {:induction false} AllNoMetaCopied(g: Globals, call: Oracle, inside: bool, ts: seq<Tree>, env: Env)
    requires AllNoMeta(ts)
    ensures SpecialiseAll(g, call, inside, ts, env) == Done(ts, env)
    decreases ts
  {
    if ts != [] {
      NoMetaIsCopied(g, call, inside, ts[0], env);
      AllNoMetaCopied(g, call, inside, ts[1..], env);
      assert [ts[0]] + ts[1..] == ts;
    }
  }

  predicate IsSimple(h: Head) {
    IsExpr(h) || IsArgument(h) || h.ArgumentDeclList?
  }

  /** Expressions and argument lists hold no meta statements. */
  lemma {:induction false} SimpleHasNoMeta(t: Tree)
    requires WellKinded(t) && IsSimple(t.head)
    ensures NoMeta(t)
    decreases t, 1
  {
    SimpleKids(t.head, [], t.kids);
  }

  lemma {:induction false} SimpleKids(h: Head, done: seq<Head>, kids: seq<Tree>)
    requires KidsFit(h, done, kids) && (IsSimple(h) || h.Return? || h.ExpressionStmt? || h.DeclStmt?)
    ensures AllNoMeta(kids)
    decreases kids, 0
  {
    if kids != [] {
      SimpleHasNoMeta(kids[0]);
      SimpleKids(h, done + [kids[0].head], kids[1..]);
    }
  }

  /** What may stand in a list of a contribution: functions and meta statements
      at the top level, statements inside a function. */
  predicate MayStand(inside: bool, h: Head) {
    if inside then IsStmt(h) else h.FunctionDecl? || h.MetaIf? || h.MetaCalculation?
  }

  /** What the grammar derives for a contribution, beyond the kinds of nodes. */
  predicate Derivable(inside: bool, t: Tree)
    decreases t, 0
  {
    match t.head
    case MetaContribution => AllDerivable(inside, t.kids)
    case MetaIf =>
      |t.kids| >= 2 && Derivable(inside, t.kids[1]) && (|t.kids| > 2 ==> Derivable(inside, t.kids[2]))
    case FunctionDecl(_) => t.kids != [] && Derivable(true, t.kids[|t.kids| - 1])
    case If =>
      |t.kids| >= 2 && t.kids[1].head.Compound? && Derivable(true, t.kids[1]) &&
      (|t.kids| > 2 ==> t.kids[2].head.Compound? && Derivable(true, t.kids[2]))
    case Compound | UnscopedCompound => AllDerivable(true, t.kids)
    case MetaCalculation | Return | ExpressionStmt | DeclStmt(_) => true
    case _ => false
  }

  predicate AllDerivable(inside: bool, ts: seq<Tree>)
    decreases ts
  {
    ts == [] || (MayStand(inside, ts[0].head) && Derivable(inside, ts[0]) && AllDerivable(inside, ts[1..]))
  }

  predicate AllWellKinded(ts: seq<Tree>)
    decreases ts
  {
    ts == [] || (WellKinded(ts[0]) && AllWellKinded(ts[1..]))
  }

  lemma {:induction false} KidsAreWellKinded(h: Head, done: seq<Head>, kids: seq<Tree>)
    requires KidsFit(h, done, kids)
    ensures AllWellKinded(kids)
    decreases kids
  {
    if kids != [] {
      KidsAreWellKinded(h, done + [kids[0].head], kids[1..]);
    }
  }

  predicate AllStmts(ts: seq<Tree>)
    decreases ts
  {
    ts == [] || (IsStmt(ts[0].head) && WellKinded(ts[0]) && AllStmts(ts[1..]))
  }

  lemma {:induction false} StmtsAppend(a: seq<Tree>, b: seq<Tree>)
    requires AllStmts(a) && AllStmts(b)
    ensures AllStmts(a + b)
    decreases a
  {
    if a == [] {
      assert a + b == b;
    } else {
      assert (a + b)[1..] == a[1..] + b;
      StmtsAppend(a[1..], b);
    }
  }

  lemma {:induction false} StmtsFitCompound(h: Head, done: seq<Head>, ts: seq<Tree>)
    requires AllStmts(ts) && (h.Compound? || h.UnscopedCompound?)
    ensures KidsFit(h, done, ts)
    decreases ts
  {
    if ts != [] {
      StmtsFitCompound(h, done + [ts[0].head], ts[1..]);
    }
  }

  lemma ExportedFits(x: Name, n: int, inside: bool)
    ensures WellKinded(Exported(x, n, inside))
  {
    var literal := Tree(IntegerLiteral(n), []);
    assert KidsFit(literal.head, [], []);
    assert WellKinded(literal);
    assert [literal][1..] == [];
    assert KidsFit(ExportHead(x, inside), [] + [literal.head], []);
    assert KidsFit(ExportHead(x, inside), [], [literal]);
  }

  lemma {:induction false} ExportsAreStmts(xs: seq<Name>, env: Env)
    ensures AllStmts(ExportTrees(xs, env, true))
    decreases xs
  {
    if xs != [] {
      ExportsAreStmts(xs[1..], env);
      if xs[0] in env {
        ExportedFits(xs[0], env[xs[0]], true);
        assert ExportTrees(xs, env, true)[1..] == ExportTrees(xs[1..], env, true);
      } else {
        assert ExportTrees(xs, env, true) == ExportTrees(xs[1..], env, true);
      }
    }
  }

  /** What a return leaves unfinished has no end in the layout. */
  ghost predicate StaysOpen(meant: Staged) {
    meant.Cut? ==> meant.beginning == [] || SkipScope(meant.beginning + [None]).None?
  }

  lemma UnderStaysOpen(h: Head, env: Env, inner: Staged)
    requires NeedsMarker(h) && StaysOpen(inner)
    ensures StaysOpen(Under(h, env, inner))
  {
    if inner.Cut? {
      var below := EncodeAll(inner.trees) + inner.beginning;
      Assoc([Some(h)], below, [None]);
      RestOfCons(Some(h), below + [None]);
      Assoc(EncodeAll(inner.trees), inner.beginning, [None]);
      SkipPrefix(inner.trees, inner.beginning + [None]);
      EmptyLeft<Option<Head>>([None]);
      assert SkipScope([None]) == Some([]);
    }
  }

  /** What a contribution inside a function comes to: statements. */
  ghost predicate ComesToStmts(meant: Staged) {
    StaysOpen(meant) && (!meant.Undefined? ==> AllStmts(meant.trees))
  }

  /** Inside a function a contribution comes to statements; a statement that is
      no meta statement comes to one of its own kind. */
  lemma {:induction false} SpecialisedStmts(g: Globals, call: Oracle, t: Tree, env: Env)
    requires WellKinded(t) && Derivable(true, t) && (IsStmt(t.head) || t.head.MetaContribution?)
    ensures var meant := Specialise(g, call, true, t, env);
            ComesToStmts(meant) &&
            (IsPlain(t.head) && meant.Done? ==> |meant.trees| == 1 && meant.trees[0].head == t.head)
    decreases t, 1
  {
    match t.head
    case MetaContribution =>
      KidsAreWellKinded(t.head, [], t.kids);
      SpecialisedList(g, call, t.kids, env);
    case MetaIf => SpecialisedMetaIf(g, call, t, env);
    case MetaCalculation =>
      var outcome := Exec(g, call, t.kids[0], env);
      if outcome.Normal? {
        ExportsAreStmts(Exports(t.kids[0]), outcome.env);
      }
    case If => SpecialisedIf(g, call, t, env);
    case Compound | UnscopedCompound =>
      KidsAreWellKinded(t.head, [], t.kids);
      SpecialisedList(g, call, t.kids, env);
      var inner := SpecialiseAll(g, call, true, t.kids, env);
      UnderStaysOpen(t.head, env, inner);
      if inner.Done? {
        StmtsFitCompound(t.head, [], inner.trees);
      }
    case Return | ExpressionStmt | DeclStmt(_) =>
      SimpleKids(t.head, [], t.kids);
      NoMetaIsCopied(g, call, true, t, env);
  }

  lemma {:induction false} SpecialisedMetaIf(g: Globals, call: Oracle, t: Tree, env: Env)
    requires WellKinded(t) && Derivable(true, t) && t.head.MetaIf?
    ensures ComesToStmts(Specialise(g, call, true, t, env))
    decreases t, 0
  {
    SpecialiseIf(g, call, true, t, env);
    var p := Eval(g, call, t.kids[0], env);
    if p.Some? && Truth(p.value.0).Some? {
      KidsFitAt(t.head, [], t.kids, 1);
      if Truth(p.value.0).value {
        SpecialisedStmts(g, call, t.kids[1], p.value.1);
      } else if |t.kids| > 2 {
        KidsFitAt(t.head, [], t.kids, 2);
        SpecialisedStmts(g, call, t.kids[2], p.value.1);
      }
    }
  }

  /** `KidsFit` for a whole node. */
  lemma WellKindedKids(t: Tree)
    requires WellKinded(t)
    ensures Complete(t.head, Heads(t.kids))
    ensures forall i | 0 <= i < |t.kids| ::
              WellKinded(t.kids[i]) && Allowed(t.head, Heads(t.kids[..i]), t.kids[i].head)
  {
    KidsFitComplete(t.head, [], t.kids);
    assert [] + Heads(t.kids) == Heads(t.kids);
    forall i | 0 <= i < |t.kids|
      ensures WellKinded(t.kids[i]) && Allowed(t.head, Heads(t.kids[..i]), t.kids[i].head)
    {
      KidsFitAt(t.head, [], t.kids, i);
      assert [] + Heads(t.kids[..i]) == Heads(t.kids[..i]);
    }
  }

  lemma IfHasFewKids(t: Tree)
    requires t.head.If? && WellKinded(t)
    ensures 2 <= |t.kids| <= 3
  {
    KidsFitComplete(t.head, [], t.kids);
    if |t.kids| > 3 {
      KidsFitAt(t.head, [], t.kids, 3);
    }
  }

  lemma IfSignature(t: Tree)
    requires t.head.If? && WellKinded(t) && Derivable(true, t)
    ensures 2 <= |t.kids| <= 3 && IsExpr(t.kids[0].head) && WellKinded(t.kids[0])
    ensures AllWellKinded(t.kids[1..]) && AllDerivable(true, t.kids[1..])
    ensures forall k | k in t.kids[1..] :: k.head.Compound?
  {
    hide WellKinded;
    WellKindedKids(t);
    IfHasFewKids(t);
    assert t.kids[1..][1..] == t.kids[2..];
    assert WellKinded(t.kids[0]) && WellKinded(t.kids[1]);
    if |t.kids| == 3 {
      assert WellKinded(t.kids[2]);
      assert t.kids[2..] == [t.kids[2]] && t.kids[2..][1..] == [];
    }
    assert AllWellKinded(t.kids[2..]);
    assert AllDerivable(true, t.kids[2..]) by {
      if |t.kids| == 3 {
        assert MayStand(true, t.kids[2].head) && Derivable(true, t.kids[2]) && AllDerivable(true, []);
      }
    }
  }

  lemma {:induction false} SpecialisedIf(g: Globals, call: Oracle, t: Tree, env: Env)
    requires WellKinded(t) && Derivable(true, t) && t.head.If?
    ensures var meant := Specialise(g, call, true, t, env);
            ComesToStmts(meant) && (meant.Done? ==> |meant.trees| == 1 && meant.trees[0].head == t.head)
    decreases t, 0
  {
    hide AllWellKinded, AllDerivable, SpecialiseAll, Specialise, WellKinded, Derivable, StaysOpen;
    var kids := t.kids;
    IfSignature(t);
    SimpleHasNoMeta(kids[0]);
    NoMetaIsCopied(g, call, true, kids[0], env);
    SpecialiseCopy(g, call, true, t, env);
    SpecialiseFirst(g, call, true, kids, env);
    SpecialisedList(g, call, kids[1..], env);
    var branches := SpecialiseAll(g, call, true, kids[1..], env);
    var copied := After([kids[0]], branches);
    AfterStaysOpen([kids[0]], branches);
    UnderStaysOpen(t.head, env, copied);
    if copied.Done? {
      assert copied.trees[1..] == branches.trees;
      IfFits(copied.trees);
      assert t.head == If && [Tree(If, copied.trees)][1..] == [];
      assert AllStmts([Tree(If, copied.trees)]);
    }
  }

  lemma AfterStaysOpen(first: seq<Tree>, rest: Staged)
    requires StaysOpen(rest)
    ensures StaysOpen(After(first, rest))
  {
  }

  lemma IfFits(kids: seq<Tree>)
    requires 2 <= |kids| <= 3 && IsExpr(kids[0].head) && WellKinded(kids[0]) && AllStmts(kids[1..])
    ensures WellKinded(Tree(If, kids))
  {
    var done := [kids[0].head, kids[1].head];
    assert kids[1..][1..] == kids[2..];
    if |kids| == 3 {
      assert kids[2..][1..] == [];
      assert KidsFit(If, done + [kids[2].head], []);
    }
    assert KidsFit(If, done, kids[2..]);
    assert [kids[0].head] + [kids[1].head] == done;
    assert KidsFit(If, [kids[0].head], kids[1..]);
    assert [] + [kids[0].head] == [kids[0].head];
  }

  lemma {:induction false} SpecialisedList(g: Globals, call: Oracle, ts: seq<Tree>, env: Env)
    requires AllWellKinded(ts) && AllDerivable(true, ts)
    ensures var meant := SpecialiseAll(g, call, true, ts, env);
            ComesToStmts(meant) && ((forall t | t in ts :: IsPlain(t.head)) && meant.Done? ==> |meant.trees| == |ts|)
    decreases ts
  {
    if ts != [] {
      SpecialiseFirst(g, call, true, ts, env);
      var first := Specialise(g, call, true, ts[0], env);
      SpecialisedStmts(g, call, ts[0], env);
      if first.Done? {
        SpecialisedList(g, call, ts[1..], first.env);
        var rest := SpecialiseAll(g, call, true, ts[1..], first.env);
        if !rest.Undefined? {
          StmtsAppend(first.trees, rest.trees);
        }
      }
    }
  }

  // The top level of a unit

  /** How many children of a function come before its body. */
  function SignatureSize(kids: seq<Tree>): nat {
    if |kids| > 1 && IsArgument(kids[1].head) then 2 else 1
  }

  /** A function whose body may come to any number of statements. */
  predicate FunctionShaped(kids: seq<Tree>) {
    |kids| >= SignatureSize(kids) && kids[0].head.ArgumentDeclList? && WellKinded(kids[0]) &&
    (|kids| > 1 && IsArgument(kids[1].head) ==> WellKinded(kids[1])) && AllStmts(kids[SignatureSize(kids)..])
  }

  predicate IsUnitMember(t: Tree) {
    (t.head.GlobalConstant? && WellKinded(t)) || (t.head.FunctionDecl? && FunctionShaped(t.kids))
  }

  predicate AllUnitMembers(ts: seq<Tree>)
    decreases ts
  {
    ts == [] || (IsUnitMember(ts[0]) && AllUnitMembers(ts[1..]))
  }

  /** Every function has exactly one statement as its body. */
  predicate OneBodyEach(ts: seq<Tree>)
    decreases ts
  {
    ts == [] ||
    ((ts[0].head.FunctionDecl? ==> |ts[0].kids| == SignatureSize(ts[0].kids) + 1) && OneBodyEach(ts[1..]))
  }

  lemma FunctionFits(h: Head, kids: seq<Tree>)
    requires h.FunctionDecl? && FunctionShaped(kids)
    ensures WellKinded(Tree(h, kids)) <==> |kids| == SignatureSize(kids) + 1
  {
    var n := SignatureSize(kids);
    if WellKinded(Tree(h, kids)) {
      KidsFitComplete(h, [], kids);
      assert [] + Heads(kids) == Heads(kids);
      if |kids| > n + 1 {
        KidsFitAt(h, [], kids, n + 1);
      }
    }
    if |kids| == n + 1 {
      var sig := Heads(kids[..n]);
      assert kids[n..] == [kids[n]];
      assert kids[n..][1..] == [];
      assert sig[..1] == [kids[0].head];
      assert KidsFit(h, sig + [kids[n].head], []);
      assert KidsFit(h, sig, kids[n..]);
      if n == 2 {
        assert sig == [kids[0].head] + [kids[1].head];
        assert kids[1..][1..] == kids[2..];
        assert KidsFit(h, [kids[0].head], kids[1..]);
      } else {
        assert sig == [kids[0].head];
      }
      assert [] + [kids[0].head] == [kids[0].head];
    }
  }

  lemma {:induction false} MembersAppend(a: seq<Tree>, b: seq<Tree>)
    requires AllUnitMembers(a) && AllUnitMembers(b)
    ensures AllUnitMembers(a + b)
    decreases a
  {
    if a == [] {
      assert a + b == b;
    } else {
      assert (a + b)[1..] == a[1..] + b;
      MembersAppend(a[1..], b);
    }
  }

  lemma {:induction false} ExportsAreMembers(xs: seq<Name>, env: Env)
    ensures AllUnitMembers(ExportTrees(xs, env, false))
    decreases xs
  {
    if xs != [] {
      ExportsAreMembers(xs[1..], env);
      if xs[0] in env {
        ExportedFits(xs[0], env[xs[0]], false);
        assert ExportTrees(xs, env, false)[1..] == ExportTrees(xs[1..], env, false);
      } else {
        assert ExportTrees(xs, env, false) == ExportTrees(xs[1..], env, false);
      }
    }
  }

  /** What a contribution at the top level comes to: members of a unit. */
  ghost predicate ComesToMembers(meant: Staged) {
    StaysOpen(meant) && (!meant.Undefined? ==> AllUnitMembers(meant.trees))
  }

  ghost predicate HasBodies(meant: Staged) {
    !meant.Undefined? ==> OneBodyEach(meant.trees)
  }

  /** At the top level a contribution comes to functions and constants. */
  lemma {:induction false} SpecialisedMembers(g: Globals, call: Oracle, t: Tree, env: Env)
    requires WellKinded(t) && Derivable(false, t) && (MayStand(false, t.head) || t.head.MetaContribution?)
    ensures var meant := Specialise(g, call, false, t, env);
            ComesToMembers(meant) && (PlainBodies(t) ==> HasBodies(meant))
    decreases t, 1
  {
    match t.head
    case MetaContribution =>
      KidsAreWellKinded(t.head, [], t.kids);
      SpecialisedMemberList(g, call, t.kids, env);
    case MetaIf => SpecialisedMemberIf(g, call, t, env);
    case MetaCalculation =>
      var outcome := Exec(g, call, t.kids[0], env);
      if outcome.Normal? {
        ExportsAreMembers(Exports(t.kids[0]), outcome.env);
        ExportsHaveNoBody(Exports(t.kids[0]), outcome.env);
      }
    case FunctionDecl(_) => SpecialisedFunction(g, call, t, env);
  }

  lemma {:induction false} SpecialisedMemberIf(g: Globals, call: Oracle, t: Tree, env: Env)
    requires WellKinded(t) && Derivable(false, t) && t.head.MetaIf?
    ensures var meant := Specialise(g, call, false, t, env);
            ComesToMembers(meant) && (PlainBodies(t) ==> HasBodies(meant))
    decreases t, 0
  {
    SpecialiseIf(g, call, false, t, env);
    var p := Eval(g, call, t.kids[0], env);
    if p.Some? && Truth(p.value.0).Some? {
      KidsFitAt(t.head, [], t.kids, 1);
      if Truth(p.value.0).value {
        SpecialisedMembers(g, call, t.kids[1], p.value.1);
      } else if |t.kids| > 2 {
        KidsFitAt(t.head, [], t.kids, 2);
        SpecialisedMembers(g, call, t.kids[2], p.value.1);
      }
    }
  }

  lemma {:induction false} ExportsHaveNoBody(xs: seq<Name>, env: Env)
    ensures OneBodyEach(ExportTrees(xs, env, false))
    decreases xs
  {
    if xs != [] {
      ExportsHaveNoBody(xs[1..], env);
      if xs[0] in env {
        assert ExportTrees(xs, env, false)[1..] == ExportTrees(xs[1..], env, false);
      } else {
        assert ExportTrees(xs, env, false) == ExportTrees(xs[1..], env, false);
      }
    }
  }

  /** No function of the contribution has a meta statement as its whole body. */
  predicate PlainBodies(t: Tree)
    decreases t, 0
  {
    match t.head
    case FunctionDecl(_) => t.kids != [] && IsPlain(t.kids[|t.kids| - 1].head)
    case MetaContribution => AllPlainBodies(t.kids)
    case MetaIf => |t.kids| >= 2 && PlainBodies(t.kids[1]) && (|t.kids| > 2 ==> PlainBodies(t.kids[2]))
    case _ => true
  }

  predicate AllPlainBodies(ts: seq<Tree>)
    decreases ts
  {
    ts == [] || (PlainBodies(ts[0]) && AllPlainBodies(ts[1..]))
  }

  lemma SpecialisedFunction(g: Globals, call: Oracle, t: Tree, env: Env)
    requires WellKinded(t) && Derivable(false, t) && t.head.FunctionDecl?
    ensures var meant := Specialise(g, call, false, t, env);
            ComesToMembers(meant) && (PlainBodies(t) ==> HasBodies(meant))
  {
    hide Specialise, SpecialiseAll, WellKinded, Derivable, IsStmt, IsArgument, StaysOpen;
    var kids := t.kids;
    var inner := SpecialiseAll(g, call, true, kids, env);
    SpecialiseCopy(g, call, false, t, env);
    FunctionSignature(t);
    var body := SignatureCopied(g, call, kids, env);
    UnderStaysOpen(t.head, env, inner);
    if inner.Done? {
      NewBody(kids, body);
      var whole := Tree(t.head, inner.trees);
      assert [whole][1..] == [];
      assert AllUnitMembers([whole]);
      assert IsPlain(kids[|kids| - 1].head) ==> OneBodyEach([whole]);
    }
  }

  lemma NewBody(kids: seq<Tree>, body: seq<Tree>)
    requires 2 <= |kids| <= 3 && (forall i | 0 <= i < |kids| :: WellKinded(kids[i]))
    requires kids[0].head.ArgumentDeclList? && (|kids| == 3 ==> IsArgument(kids[1].head)) && AllStmts(body)
    ensures var ts := kids[..|kids| - 1] + body;
            FunctionShaped(ts) && SignatureSize(ts) == |kids| - 1 && |ts| == SignatureSize(ts) + |body|
  {
    hide WellKinded;
    var n := |kids| - 1;
    var ts := kids[..n] + body;
    assert ts[..n] == kids[..n] && ts[n..] == body;
    assert ts[0] == kids[0];
    if n == 2 {
      assert ts[1] == kids[1];
    } else if |ts| > 1 {
      assert ts[1] == body[0];
    }
  }

  /** The children of a well-kinded function. */
  lemma FunctionSignature(t: Tree)
    requires t.head.FunctionDecl? && WellKinded(t) && Derivable(false, t)
    ensures 2 <= |t.kids| <= 3 && t.kids[0].head.ArgumentDeclList?
    ensures |t.kids| == 3 ==> IsArgument(t.kids[1].head)
    ensures var last := t.kids[|t.kids| - 1]; IsStmt(last.head) && Derivable(true, last)
    ensures forall i | 0 <= i < |t.kids| :: WellKinded(t.kids[i])
  {
    hide WellKinded;
    WellKindedKids(t);
    if |t.kids| >= 3 {
      assert Heads(t.kids[..2])[1] == t.kids[1].head;
    }
  }

  /** The signature of a function is copied, its body comes to statements. */
  lemma SignatureCopied(g: Globals, call: Oracle, kids: seq<Tree>, env: Env) returns (body: seq<Tree>)
    requires 2 <= |kids| <= 3 && (forall i | 0 <= i < |kids| :: WellKinded(kids[i]))
    requires kids[0].head.ArgumentDeclList? && (|kids| == 3 ==> IsArgument(kids[1].head))
    requires IsStmt(kids[|kids| - 1].head) && Derivable(true, kids[|kids| - 1])
    ensures var meant := SpecialiseAll(g, call, true, kids, env);
            StaysOpen(meant) &&
            (meant.Done? ==> meant.trees == kids[..|kids| - 1] + body && AllStmts(body) &&
                             (IsPlain(kids[|kids| - 1].head) ==> |body| == 1))
  {
    hide Specialise, Derivable, WellKinded, StaysOpen;
    var last := kids[|kids| - 1];
    SimpleHasNoMeta(kids[0]);
    NoMetaIsCopied(g, call, true, kids[0], env);
    SpecialiseFirst(g, call, true, kids, env);
    SpecialiseFirst(g, call, true, kids[1..], env);
    if |kids| == 3 {
      SimpleHasNoMeta(kids[1]);
      NoMetaIsCopied(g, call, true, kids[1], env);
      SpecialiseFirst(g, call, true, kids[2..], env);
      assert kids[1..][1..] == kids[2..] && kids[2..] == [last] && kids[2..][1..] == [];
    } else {
      assert kids[1..] == [last] && kids[1..][1..] == [];
    }
    SpecialisedStmts(g, call, last, env);
    var bodied := Specialise(g, call, true, last, env);
    var lasts := SpecialiseAll(g, call, true, [last], env);
    assert lasts == if bodied.Done? then After(bodied.trees, Done([], bodied.env)) else bodied;
    AfterStaysOpen([kids[0]], lasts);
    AfterStaysOpen([kids[0]], After([kids[1]], lasts));
    AfterStaysOpen([kids[1]], lasts);
    if bodied.Done? {
      DoneStaysOpen(lasts);
      body := bodied.trees;
      assert body + [] == body;
    } else {
      body := [];
    }
  }

  lemma DoneStaysOpen(meant: Staged)
    requires !meant.Cut?
    ensures StaysOpen(meant)
  {
  }

  lemma {:induction false} SpecialisedMemberList(g: Globals, call: Oracle, ts: seq<Tree>, env: Env)
    requires AllWellKinded(ts) && AllDerivable(false, ts)
    ensures var meant := SpecialiseAll(g, call, false, ts, env);
            ComesToMembers(meant) && (AllPlainBodies(ts) ==> HasBodies(meant))
    decreases ts
  {
    if ts != [] {
      SpecialiseFirst(g, call, false, ts, env);
      var first := Specialise(g, call, false, ts[0], env);
      SpecialisedMembers(g, call, ts[0], env);
      if first.Done? {
        SpecialisedMemberList(g, call, ts[1..], first.env);
        var rest := SpecialiseAll(g, call, false, ts[1..], first.env);
        if !rest.Undefined? {
          MembersAppend(first.trees, rest.trees);
          BodiesAppend(first.trees, rest.trees);
        }
      }
    }
  }

  lemma {:induction false} BodiesAppend(a: seq<Tree>, b: seq<Tree>)
    ensures OneBodyEach(a + b) <==> OneBodyEach(a) && OneBodyEach(b)
    decreases a
  {
    if a == [] {
      assert a + b == b;
    } else {
      assert (a + b)[1..] == a[1..] + b;
      BodiesAppend(a[1..], b);
    }
  }

  lemma {:induction false} StmtsSizesFit(ts: seq<Tree>)
    requires AllStmts(ts)
    ensures AllSizesFit(ts)
    decreases ts
  {
    if ts != [] {
      WellKindedSizesFit(ts[0]);
      StmtsSizesFit(ts[1..]);
    }
  }

  lemma {:induction false} MembersFit(h: Head, done: seq<Head>, ts: seq<Tree>)
    requires AllUnitMembers(ts) && h.MetaUnit?
    ensures KidsFit(h, done, ts) <==> OneBodyEach(ts)
    ensures AllSizesFit(ts)
    decreases ts
  {
    if ts != [] {
      MembersFit(h, done + [ts[0].head], ts[1..]);
      if ts[0].head.FunctionDecl? {
        FunctionFits(ts[0].head, ts[0].kids);
        FunctionSizesFit(ts[0].kids);
      } else {
        WellKindedSizesFit(ts[0]);
      }
    }
  }

  lemma FunctionSizesFit(kids: seq<Tree>)
    requires FunctionShaped(kids)
    ensures AllSizesFit(kids)
  {
    StmtsSizesFit(kids[SignatureSize(kids)..]);
    WellKindedSizesFit(kids[0]);
    if SignatureSize(kids) == 2 {
      WellKindedSizesFit(kids[1]);
      assert kids[1..][1..] == kids[2..];
    }
  }

  /** The unit that is read back: nothing when the specialisation is undefined
      or a return left a node open, or when some function would not have
      exactly one statement as its body. */
  function ReadBack(name: Name, meant: Staged): Option<Tree> {
    if meant.Undefined? || (meant.Cut? && meant.beginning != []) || !OneBodyEach(meant.trees) then None
    else Some(Tree(MetaUnit(name), meant.trees))
  }

  /** Compiling a meta declaration, running it and reading the layout back is
      direct specialisation, for every closed declaration of the shapes the
      grammar derives, every argument list and every meaning of the functions
      called.  `ReadIsClosed.DerivedStaging` says it of derived declarations
      that are read without an error. */
  lemma StagingIsSpecialisation(g: Globals, call: Oracle, name: Name, ps: Params, contribution: Tree, args: seq<int>)
    requires ClosedMetaFunction(g, ps, contribution) && |args| == |ps|
    requires contribution.head.MetaContribution? && WellKinded(contribution) && Derivable(false, contribution)
    ensures InstantiateByRunning(g, call, name, ps, contribution, args) ==
            ReadBack(name, Instantiated(g, call, ps, contribution, args))
    ensures PlainBodies(contribution) && NeverReturns(contribution) ==>
              InstantiateByRunning(g, call, name, ps, contribution, args) ==
              Instantiate(g, call, name, ps, contribution, args)
  {
    hide Specialise, InstantiateByRunning, Derivable, PlainBodies, ClosedMetaFunction, NeverReturns, StaysOpen,
         OneBodyEach;
    var env := Bind(map[], ps, args);
    var params := ExportTrees(ParamNamesInOrder(ps), env, false);
    var meant := Specialise(g, call, false, contribution, env);
    var all := Instantiated(g, call, ps, contribution, args);
    SpecialisedMembers(g, call, contribution, env);
    AfterStaysOpen(params, meant);
    if NeverReturns(contribution) {
      NeverCut(g, call, false, contribution, env);
    }
    if !meant.Undefined? {
      ExportsAreMembers(ParamNamesInOrder(ps), env);
      ExportsHaveNoBody(ParamNamesInOrder(ps), env);
      MembersAppend(params, meant.trees);
      BodiesAppend(params, meant.trees);
      MembersFit(MetaUnit(name), [], all.trees);
      ReadsExactlyWellKinded(Tree(MetaUnit(name), all.trees));
    }
    InstantiationWrites(g, call, name, ps, contribution, args);
    if all.Cut? {
      CutReads(name, all);
    }
    RanIsRead(g, call, name, ps, contribution, args);
  }

  lemma RanIsRead(g: Globals, call: Oracle, name: Name, ps: Params, contribution: Tree, args: seq<int>)
    ensures var run := Run(GenMetaFunction(g, ps, contribution), call, args);
            InstantiateByRunning(g, call, name, ps, contribution, args) ==
            if !run.Finished? then None
            else
              var r := ParseNode([Some(MetaUnit(name))] + run.out + [None]);
              if r.None? then None else Some(r.value.0)
  {
  }

  /** A layout that a return left unfinished: nothing can be read when a node
      stays open, and otherwise what was finished is all there is. */
  lemma CutReads(name: Name, meant: Staged)
    requires meant.Cut? && StaysOpen(meant)
    ensures var layout := [Some(MetaUnit(name))] + (EncodeAll(meant.trees) + meant.beginning) + [None];
            if meant.beginning == [] then layout == Encode(Tree(MetaUnit(name), meant.trees))
            else ParseNode(layout).None?
  {
    var unit, below := [Some(MetaUnit(name))], EncodeAll(meant.trees) + meant.beginning;
    var layout := unit + below + [None];
    EmptyRight(EncodeAll(meant.trees));
    if meant.beginning != [] {
      Assoc(unit, below, [None]);
      RestOfCons(Some(MetaUnit(name)), below + [None]);
      Assoc(EncodeAll(meant.trees), meant.beginning, [None]);
      SkipPrefix(meant.trees, meant.beginning + [None]);
      EncodeParse(layout);
      if ParseNode(layout).Some? {
        var (t, rest) := ParseNode(layout).value;
        Assoc4([Some(t.head)], EncodeAll(t.kids), [None], rest);
        Assoc(EncodeAll(t.kids), [None], rest);
        RestOfCons(Some(t.head), EncodeAll(t.kids) + [None] + rest);
        SkipsSubtrees(t.kids, rest);
        assert false;
      }
    }
  }

  /** No calculation has a return in it. */
  predicate NeverReturns(t: Tree)
    decreases t, 0
  {
    if t.head.MetaCalculation? then t.kids != [] ==> NoReturn(t.kids[0]) else NoneReturns(t.kids)
  }

  predicate NoneReturns(ts: seq<Tree>)
    decreases ts
  {
    ts == [] || (NeverReturns(ts[0]) && NoneReturns(ts[1..]))
  }

  lemma {:induction false} NoneReturnsAt(ts: seq<Tree>, i: nat)
    requires NoneReturns(ts) && i < |ts|
    ensures NeverReturns(ts[i])
    decreases ts
  {
    if i != 0 {
      NoneReturnsAt(ts[1..], i - 1);
    }
  }

  lemma {:induction false} NeverCut(g: Globals, call: Oracle, inside: bool, t: Tree, env: Env)
    requires NeverReturns(t)
    ensures !Specialise(g, call, inside, t, env).Cut?
    decreases t, 0
  {
    if t.head.MetaContribution? {
      NoneCut(g, call, inside, t.kids, env);
    } else if t.head.MetaIf? {
      if |t.kids| >= 2 {
        SpecialiseIf(g, call, inside, t, env);
        var p := Eval(g, call, t.kids[0], env);
        if p.Some? && Truth(p.value.0).Some? {
          NoneReturnsAt(t.kids, 1);
          NeverCut(g, call, inside, t.kids[1], p.value.1);
          if |t.kids| > 2 {
            NoneReturnsAt(t.kids, 2);
            NeverCut(g, call, inside, t.kids[2], p.value.1);
          }
        }
      }
    } else if t.head.MetaCalculation? {
      if t.kids != [] {
        NoReturnNeverReturns(g, call, t.kids[0], env);
      }
    } else {
      NoneCut(g, call, Deeper(inside, t.head), t.kids, env);
      SpecialiseCopy(g, call, inside, t, env);
    }
  }

  lemma {:induction false} NoneCut(g: Globals, call: Oracle, inside: bool, ts: seq<Tree>, env: Env)
    requires NoneReturns(ts)
    ensures !SpecialiseAll(g, call, inside, ts, env).Cut?
    decreases ts
  {
    if ts != [] {
      NeverCut(g, call, inside, ts[0], env);
      var first := Specialise(g, call, inside, ts[0], env);
      if first.Done? {
        NoneCut(g, call, inside, ts[1..], first.env);
      }
    }
  }

  /** When the first calculation of a declaration returns, everything after it
      is lost without an error: the unit holds the parameters and no more. */
  lemma ReturnLosesTheRest(g: Globals, call: Oracle, name: Name, ps: Params, contribution: Tree, args: seq<int>)
    requires ClosedMetaFunction(g, ps, contribution) && |args| == |ps|
    requires contribution.head.MetaContribution? && WellKinded(contribution) && Derivable(false, contribution)
    requires contribution.kids != [] && contribution.kids[0].head.MetaCalculation? && contribution.kids[0].kids != []
    requires Exec(g, call, contribution.kids[0].kids[0], Bind(map[], ps, args)).Returned?
    ensures InstantiateByRunning(g, call, name, ps, contribution, args) ==
            Some(Tree(MetaUnit(name), ExportTrees(ParamNamesInOrder(ps), Bind(map[], ps, args), false)))
  {
    hide ClosedMetaFunction, Derivable, WellKinded, InstantiateByRunning;
    var env := Bind(map[], ps, args);
    var params := ExportTrees(ParamNamesInOrder(ps), env, false);
    StagingIsSpecialisation(g, call, name, ps, contribution, args);
    SpecialiseFirst(g, call, false, contribution.kids, env);
    assert params + [] == params;
    ExportsHaveNoBody(ParamNamesInOrder(ps), env);
  }

  function Mention(x: Name): Tree {
    Tree(ExpressionStmt, [Tree(DeclRef(x), [])])
  }

  /** A contribution of one function whose body is a meta-if on a literal. */
  function MetaBody(branch: seq<Tree>): Tree {
    var body := Tree(MetaIf, [Tree(IntegerLiteral(1), []), Tree(MetaContribution, branch)]);
    Tree(MetaContribution, [Tree(FunctionDecl("f"), [Tree(ArgumentDeclList, []), body])])
  }

  lemma MetaBodyFits(branch: seq<Tree>)
    requires AllStmts(branch) && AllDerivable(true, branch)
    ensures var c := MetaBody(branch); c.head.MetaContribution? && WellKinded(c) && Derivable(false, c)
  {
    var one, taken, none := Tree(IntegerLiteral(1), []), Tree(MetaContribution, branch), Tree(ArgumentDeclList, []);
    var body := Tree(MetaIf, [one, taken]);
    var f := Tree(FunctionDecl("f"), [none, body]);
    assert [taken][1..] == [] && [body][1..] == [] && [f][1..] == [];
    assert [one, taken][1..] == [taken] && [none, body][1..] == [body];
    AnyFits([], branch);
    assert WellKinded(taken) && WellKinded(one) && WellKinded(none);
    assert KidsFit(MetaIf, [one.head] + [taken.head], []);
    assert KidsFit(MetaIf, [one.head], [taken]);
    assert [] + [one.head] == [one.head];
    assert WellKinded(body);
    assert KidsFit(f.head, [none.head] + [body.head], []);
    assert KidsFit(f.head, [none.head], [body]);
    assert [] + [none.head] == [none.head];
    assert WellKinded(f);
    assert KidsFit(MetaContribution, [] + [f.head], []);
    assert KidsFit(MetaContribution, [], [f]);
    assert Derivable(true, taken);
    assert Derivable(true, body);
    assert Derivable(false, f);
    assert AllDerivable(false, [f]);
  }

  lemma MetaBodyClosed(g: Globals, branch: seq<Tree>)
    requires ClosedMetas(g, {}, true, branch)
    ensures ClosedMetaFunction(g, [], MetaBody(branch))
  {
    var one, taken, none := Tree(IntegerLiteral(1), []), Tree(MetaContribution, branch), Tree(ArgumentDeclList, []);
    var body := Tree(MetaIf, [one, taken]);
    var f := Tree(FunctionDecl("f"), [none, body]);
    assert [body][1..] == [] && [f][1..] == [] && [none, body][1..] == [body];
    assert ClosedMeta(g, {}, true, body);
    assert ClosedMetas(g, {}, true, []);
    assert ClosedMetas(g, {} + DeclaresMeta(body), true, []);
    assert ClosedMetas(g, {}, true, [body]);
    assert ClosedMeta(g, {}, true, none);
    assert {} + DeclaresMeta(none) == {};
    assert ClosedMetas(g, {}, true, [none, body]);
    assert ClosedMeta(g, {}, false, f);
    assert ClosedMetas(g, {} + DeclaresMeta(f), false, []);
  }

  lemma {:induction false} AnyFits(done: seq<Head>, ts: seq<Tree>)
    requires AllStmts(ts)
    ensures KidsFit(MetaContribution, done, ts)
    decreases ts
  {
    if ts != [] {
      AnyFits(done + [ts[0].head], ts[1..]);
    }
  }

  lemma MetaBodySpecialises(g: Globals, call: Oracle, branch: seq<Tree>)
    requires AllNoMeta(branch)
    ensures Instantiate(g, call, "m", [], MetaBody(branch), []) ==
            Some(Tree(MetaUnit("m"), [Tree(FunctionDecl("f"), [Tree(ArgumentDeclList, [])] + branch)]))
  {
    var one, taken, none := Tree(IntegerLiteral(1), []), Tree(MetaContribution, branch), Tree(ArgumentDeclList, []);
    var body := Tree(MetaIf, [one, taken]);
    var f := Tree(FunctionDecl("f"), [none, body]);
    var env: Env := map[];
    AllNoMetaCopied(g, call, true, branch, env);
    SpecialiseIf(g, call, true, body, env);
    assert Specialise(g, call, true, body, env) == Done(branch, env);
    NoMetaIsCopied(g, call, true, none, env);
    SpecialiseFirst(g, call, true, [none, body], env);
    SpecialiseFirst(g, call, true, [body], env);
    assert [none, body][1..] == [body] && [body][1..] == [] && [f][1..] == [];
    assert branch + [] == branch;
    SpecialiseCopy(g, call, false, f, env);
    SpecialiseFirst(g, call, false, [f], env);
    var copied := Tree(f.head, [none] + branch);
    assert [copied] + [] == [copied] && [] + [copied] == [copied];
  }

  /** `f() -> meta if 1 { a; b; }`: the taken branch contributes two statements,
      and no function can be read back that has both as its body. */
  lemma MetaBodyExample(call: Oracle)
    ensures var g := Globals(map[], map["a" := 1, "b" := 2], map[]);
            var c := MetaBody([Mention("a"), Mention("b")]);
            ClosedMetaFunction(g, [], c) && WellKinded(c) && Derivable(false, c) &&
            Instantiate(g, call, "m", [], c, []).Some? && InstantiateByRunning(g, call, "m", [], c, []).None?
  {
    hide InstantiateByRunning, Instantiated, MetaBody, NeverReturns, PlainBodies;
    var g := Globals(map[], map["a" := 1, "b" := 2], map[]);
    var a, b := Mention("a"), Mention("b");
    MentionFits(g, "a");
    MentionFits(g, "b");
    assert [a, b][1..] == [b] && [b][1..] == [];
    assert {} + DeclaresMeta(a) == {};
    MetaBodyFits([a, b]);
    MetaBodyClosed(g, [a, b]);
    MetaBodySpecialises(g, call, [a, b]);
    var unit := Instantiate(g, call, "m", [], MetaBody([a, b]), []).value;
    assert unit.kids[0].kids == [Tree(ArgumentDeclList, []), a, b];
    assert !OneBodyEach(unit.kids);
    StagingIsSpecialisation(g, call, "m", [], MetaBody([a, b]), []);
  }

  lemma MentionFits(g: Globals, x: Name)
    requires x in g.constants
    ensures var s := Mention(x);
            IsStmt(s.head) && WellKinded(s) && NoMeta(s) && Derivable(true, s) && ClosedMeta(g, {}, true, s)
  {
    var e := Tree(DeclRef(x), []);
    assert [e][1..] == [];
    assert WellKinded(e);
    assert KidsFit(ExpressionStmt, [] + [e.head], []);
    assert KidsFit(ExpressionStmt, [], [e]);
    assert NoMeta(e) && ClosedMeta(g, {}, true, e);
    assert ClosedMetas(g, {} + DeclaresMeta(e), true, []);
  }
}
