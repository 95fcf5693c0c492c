/** The staging compiler: a meta declaration becomes a function that writes the
    layout of its instantiation (src/Codegen/MetaCodegen.cpp). */
module MetaCodegen {
  import opened Wrappers
  import opened Ast
  import opened Layout
  import opened Machine
  import opened Semantics
  import opened ExprCodegen
  import opened StmtCodegen

  /** The declarations lying directly in a calculation's block, in source
      order: what the reader's listener collects as its exports. */
  function Exports(s: Tree): seq<Name>
    decreases s, 0
  {
    match s.head
    case DeclStmt(x) => [x]
    case UnscopedCompound => ExportsAll(s.kids)
    case If =>
      (if |s.kids| > 1 then Exports(s.kids[1]) else []) + (if |s.kids| > 2 then Exports(s.kids[2]) else [])
    case _ => []
  }

  function ExportsAll(ss: seq<Tree>): seq<Name>
    decreases ss
  {
    if ss == [] then [] else Exports(ss[0]) + ExportsAll(ss[1..])
  }

  /** The calls that export calculated values. */
  function IntroduceCode(xs: seq<Name>, values: ValueMap, insideFunction: bool): Code {
    if xs == [] then []
    else [Introduce(xs[0], LocalValue(values, xs[0]), insideFunction)] + IntroduceCode(xs[1..], values, insideFunction)
  }

  /** Jumps to a new block and goes on there. */
  function CreateRegion(b: Builder): Builder {
    Emit(CreateBlock(b), [Br(|b.blocks|)]).(at := |b.blocks|)
  }

  function GenMeta(g: Globals, b: Builder, block: nat, insideFunction: bool, t: Tree): (Builder, Option<nat>)
    decreases t, 0
  {
    match t.head
    case MetaContribution => GenMetas(g, b, block, insideFunction, t.kids)
    case MetaIf =>
      if |t.kids| < 2 then (b, Some(block))
      else
        var yes := |b.blocks|;
        var (b1, end1) := GenMeta(g, StartBranch(b), yes, insideFunction, t.kids[1]);
        var j1 := Join(b1, end1, None);
        if |t.kids| > 2 then
          var no := |j1.b.blocks|;
          var (b2, end2) := GenMeta(g, StartBranch(j1.b), no, insideFunction, t.kids[2]);
          var j2 := Join(b2, end2, j1.cont);
          Branch(g, j2.b, block, t.kids[0], yes, no, j2.cont)
        else
          var j2 := LazyContinue(j1.b, j1.cont);
          Branch(g, j2.b, block, t.kids[0], yes, j2.cont.value, j2.cont)
    case MetaCalculation =>
      if t.kids == [] then (b, Some(block))
      else
        var region := CreateRegion(b);
        var (r, end) := GenStmt(g, region, region.at, t.kids[0]);
        (Emit(r, IntroduceCode(Exports(t.kids[0]), r.values, insideFunction)), end)
    case _ =>
      var (r, end) := GenMetas(g, Emit(b, [Contribute(t.head)]), block, insideFunction || t.head.FunctionDecl?, t.kids);
      (if NeedsMarker(t.head) then Emit(r, [Reduce]) else r, end)
  }

  function GenMetas(g: Globals, b: Builder, block: nat, insideFunction: bool, ts: seq<Tree>): (Builder, Option<nat>)
    decreases ts
  {
    if ts == [] then (b, Some(block))
    else
      var r := GenMeta(g, b, block, insideFunction, ts[0]);
      if r.1.None? then r else GenMetas(g, r.0, r.1.value, insideFunction, ts[1..])
  }

  /** The declarations a calculation exports, holding their values. */
  function ExportTrees(xs: seq<Name>, env: Env, insideFunction: bool): seq<Tree> {
    if xs == [] then []
    else
      (if xs[0] in env then [Exported(xs[0], env[xs[0]], insideFunction)] else []) +
      ExportTrees(xs[1..], env, insideFunction)
  }

  /** One declaration for every name, in order: a statement inside a function, a
      constant outside. */
  lemma {:induction false} ExportsInOrder(xs: seq<Name>, env: Env, insideFunction: bool)
    requires forall x | x in xs :: x in env
    ensures var ts := ExportTrees(xs, env, insideFunction);
            |ts| == |xs| &&
            forall i | 0 <= i < |xs| ::
              ts[i] == Tree(if insideFunction then DeclStmt(xs[i]) else GlobalConstant(xs[i]),
                            [Tree(IntegerLiteral(env[xs[i]]), [])])
    decreases xs
  {
    if xs != [] {
      assert xs[0] in xs && forall x | x in xs[1..] :: x in xs;
      ExportsInOrder(xs[1..], env, insideFunction);
    }
  }

  /** What specialising comes to: trees; a return from the meta function in the
      middle, after some trees and the beginning of one that stays open; or
      nothing defined. */
  datatype Staged =
    | Done(trees: seq<Tree>, env: Env)
    | Cut(trees: seq<Tree>, beginning: Layout, value: Option<int>)
    | Undefined

  /** More trees in front. */
  function After(first: seq<Tree>, rest: Staged): Staged {
    match rest
    case Done(ts, env) => Done(first + ts, env)
    case Cut(ts, beginning, v) => Cut(first + ts, beginning, v)
    case Undefined => Undefined
  }

  /** The trees as the children of a node; what was declared in its scope ends
      with it. */
  function Under(h: Head, outer: Env, inner: Staged): Staged {
    match inner
    case Done(ts, env) => Done([Tree(h, ts)], if Opens(h) then Kept(outer, env) else env)
    case Cut(ts, beginning, v) => Cut([], [Some(h)] + (EncodeAll(ts) + beginning), v)
    case Undefined => Undefined
  }

  function Calculated(xs: seq<Name>, insideFunction: bool, outcome: Outcome): Staged {
    match outcome
    case Normal(env) => Done(ExportTrees(xs, env, insideFunction), env)
    case Returned(v) => Cut([], [], v)
    case Wrong => Undefined
  }

  /** Direct specialisation: every meta-if is replaced by the branch it takes,
      every calculation by declarations of the values it ends with, and every
      other node is copied. */
  function Specialise(g: Globals, call: Oracle, insideFunction: bool, t: Tree, env: Env): Staged
    decreases t, 0
  {
    match t.head
    case MetaContribution => SpecialiseAll(g, call, insideFunction, t.kids, env)
    case MetaIf =>
      if |t.kids| < 2 then Undefined
      else
        var p := Eval(g, call, t.kids[0], env);
        if p.None? || Truth(p.value.0).None? then Undefined
        else SpecialiseTaken(g, call, insideFunction, t, Truth(p.value.0).value, p.value.1)
    case MetaCalculation =>
      if t.kids == [] then Undefined
      else Calculated(Exports(t.kids[0]), insideFunction, Exec(g, call, t.kids[0], env))
    case _ => Under(t.head, env, SpecialiseAll(g, call, insideFunction || t.head.FunctionDecl?, t.kids, env))
  }

  function SpecialiseTaken(g: Globals, call: Oracle, insideFunction: bool, t: Tree, taken: bool, env: Env): Staged
    requires |t.kids| >= 2
    decreases t, 0, 0
  {
    if taken then Specialise(g, call, insideFunction, t.kids[1], env)
    else if |t.kids| > 2 then Specialise(g, call, insideFunction, t.kids[2], env)
    else Done([], env)
  }

  function SpecialiseAll(g: Globals, call: Oracle, insideFunction: bool, ts: seq<Tree>, env: Env): Staged
    decreases ts
  {
    if ts == [] then Done([], env)
    else
      match Specialise(g, call, insideFunction, ts[0], env)
      case Done(first, env1) => After(first, SpecialiseAll(g, call, insideFunction, ts[1..], env1))
      case other => other
  }

  /** No path of the statement returns from the meta function. */
  predicate NoReturn(s: Tree)
    decreases s, 0
  {
    !s.head.Return? && NoReturns(s.kids)
  }

  predicate NoReturns(ss: seq<Tree>)
    decreases ss
  {
    ss == [] || (NoReturn(ss[0]) && NoReturns(ss[1..]))
  }

  /** As the grammar has it, the branches of an `if` are compounds. */
  predicate CompoundBranches(s: Tree)
    decreases s, 0
  {
    match s.head
    case If => |s.kids| >= 2 && s.kids[1].head.Compound? && (|s.kids| > 2 ==> s.kids[2].head.Compound?)
    case UnscopedCompound => AllCompoundBranches(s.kids)
    case _ => true
  }

  predicate AllCompoundBranches(ss: seq<Tree>)
    decreases ss
  {
    ss == [] || (CompoundBranches(ss[0]) && AllCompoundBranches(ss[1..]))
  }

  /** The names a meta tree may leave declared in the meta function: at least
      on some path, in a scope that is still open. */
  function DeclaresMeta(t: Tree): set<Name>
    decreases t, 0
  {
    match t.head
    case MetaCalculation => if t.kids == [] then {} else Declares(t.kids[0])
    case MetaIf =>
      (if |t.kids| > 1 then DeclaresMeta(t.kids[1]) else {}) + (if |t.kids| > 2 then DeclaresMeta(t.kids[2]) else {})
    case _ => if Opens(t.head) then {} else DeclaresMetas(t.kids)
  }

  function DeclaresMetas(ts: seq<Tree>): set<Name>
    decreases ts
  {
    if ts == [] then {} else DeclaresMeta(ts[0]) + DeclaresMetas(ts[1..])
  }

  /** What the cursor insists on before it descends into a node: functions do
      not nest, and meta declarations stand outside of each other. */
  predicate MayDescend(h: Head, insideFunction: bool, depth: Mode) {
    (h.FunctionDecl? ==> !insideFunction) && (h.MetaDecl? ==> depth.Outside?) &&
    (h.MetaCalculation? ==> depth.InsideMetaDecl?)
  }

  /** Meta trees the staging compiler accepts: what runs at compile time is
      closed under the names that may be declared before it in scopes still
      open, no calculation returns on all of its paths, functions do not nest,
      and no declaration of a meta unit is left inside. */
  predicate ClosedMeta(g: Globals, known: set<Name>, insideFunction: bool, t: Tree)
    decreases t, 0
  {
    match t.head
    case MetaContribution => ClosedMetas(g, known, insideFunction, t.kids)
    case MetaIf =>
      2 <= |t.kids| <= 3 && ClosedExpr(g, known, t.kids[0]) && ClosedMeta(g, known, insideFunction, t.kids[1]) &&
      (|t.kids| == 3 ==> ClosedMeta(g, known + DeclaresMeta(t.kids[1]), insideFunction, t.kids[2]))
    case MetaCalculation =>
      |t.kids| == 1 && ClosedStmt(g, known, t.kids[0]) && !Terminates(t.kids[0]) && CompoundBranches(t.kids[0])
    case MetaDecl(_) | MetaUnit(_) => false
    case FunctionDecl(_) => !insideFunction && ClosedMetas(g, known, true, t.kids)
    case _ => ClosedMetas(g, known, insideFunction, t.kids)
  }

  predicate ClosedMetas(g: Globals, known: set<Name>, insideFunction: bool, ts: seq<Tree>)
    decreases ts
  {
    ts == [] ||
    (ClosedMeta(g, known, insideFunction, ts[0]) &&
     ClosedMetas(g, known + DeclaresMeta(ts[0]), insideFunction, ts[1..]))
  }

  lemma {:induction false} NoReturnAt(ss: seq<Tree>, i: nat)
    requires NoReturns(ss) && i < |ss|
    ensures NoReturn(ss[i])
    decreases ss
  {
    if i != 0 {
      NoReturnAt(ss[1..], i - 1);
    }
  }

  /** A statement without a return never leaves the function. */
  lemma {:induction false} NoReturnNeverReturns(g: Globals, call: Oracle, s: Tree, env: Env)
    requires NoReturn(s)
    ensures !Exec(g, call, s, env).Returned?
    decreases s, 0
  {
    match s.head
    case UnscopedCompound | Compound => NoReturnsNeverReturn(g, call, s.kids, env);
    case If =>
      if |s.kids| >= 2 && Eval(g, call, s.kids[0], env).Some? {
        var env1 := Eval(g, call, s.kids[0], env).value.1;
        NoReturnAt(s.kids, 1);
        NoReturnNeverReturns(g, call, s.kids[1], env1);
        if |s.kids| > 2 {
          NoReturnAt(s.kids, 2);
          NoReturnNeverReturns(g, call, s.kids[2], env1);
        }
      }
    case _ =>
  }

  lemma {:induction false} NoReturnsNeverReturn(g: Globals, call: Oracle, ss: seq<Tree>, env: Env)
    requires NoReturns(ss)
    ensures !ExecAll(g, call, ss, env).Returned?
    decreases ss
  {
    if ss != [] {
      NoReturnNeverReturns(g, call, ss[0], env);
      if Exec(g, call, ss[0], env).Normal? {
        NoReturnsNeverReturn(g, call, ss[1..], Exec(g, call, ss[0], env).env);
      }
    }
  }

  /** A calculation exports exactly the names it may leave declared: those lying
      directly in its block, none of a nested compound. */
  lemma {:induction false} ExportsAreDeclared(s: Tree)
    requires CompoundBranches(s)
    ensures forall x :: x in Exports(s) <==> x in Declares(s)
    decreases s, 0
  {
    match s.head
    case UnscopedCompound => AllExportsAreDeclared(s.kids);
    case _ =>
  }

  lemma {:induction false} AllExportsAreDeclared(ss: seq<Tree>)
    requires AllCompoundBranches(ss)
    ensures forall x :: x in ExportsAll(ss) <==> x in DeclaresAll(ss)
    decreases ss
  {
    if ss != [] {
      ExportsAreDeclared(ss[0]);
      AllExportsAreDeclared(ss[1..]);
    }
  }

  /** Whatever a calculation exports has a value when it ends. */
  lemma {:induction false} ExportsHaveValues(g: Globals, call: Oracle, s: Tree, env: Env)
    requires CompoundBranches(s) && Exec(g, call, s, env).Normal?
    ensures forall x | x in Exports(s) :: x in Exec(g, call, s, env).env
    decreases s, 0
  {
    match s.head
    case UnscopedCompound => AllExportsHaveValues(g, call, s.kids, env);
    case _ =>
  }

  lemma {:induction false} AllExportsHaveValues(g: Globals, call: Oracle, ss: seq<Tree>, env: Env)
    requires AllCompoundBranches(ss) && ExecAll(g, call, ss, env).Normal?
    ensures forall x | x in ExportsAll(ss) :: x in ExecAll(g, call, ss, env).env
    decreases ss
  {
    if ss != [] {
      var first := Exec(g, call, ss[0], env).env;
      ExportsHaveValues(g, call, ss[0], env);
      AllExportsHaveValues(g, call, ss[1..], first);
      ExecAllDeclares(g, call, ss[1..], first);
    }
  }
}
