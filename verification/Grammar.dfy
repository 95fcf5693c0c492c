/** What the grammar derives, with the stack of meta depths its actions keep
    (src/Parse/GeneratedParser.g4, src/Parse/BasicParser.cpp), and why no later
    depth assertion fails on it. */
module Grammar {
  import opened Ast
  import opened Binding
  import opened Staging
  import opened MetaCodegen
  import opened SpecialisedUnits
  import opened ScopedReading

  datatype ParseDepth = GlobalScope | LocalScope | NoScope

  type DepthStack = seq<ParseDepth>

  predicate IsInMetaDecl(stack: DepthStack) {
    stack != []
  }

  /** Only asked inside a meta declaration. */
  predicate IsInMetaDepth(stack: DepthStack, depth: ParseDepth) {
    stack != [] && stack[|stack| - 1] == depth
  }

  predicate DerivesExpr(t: Tree)
    decreases t, 0
  {
    match t.head
    case DeclRef(_) | IntegerLiteral(_) | BooleanLiteral(_) => t.kids == []
    case Binary(_) => |t.kids| == 2 && DerivesExprs(t.kids)
    case Call => t.kids != [] && (t.kids[0].head.DeclRef? || t.kids[0].head.MetaInstantiation?) && DerivesExprs(t.kids)
    case MetaInstantiation => t.kids != [] && t.kids[0].head.DeclRef? && DerivesExprs(t.kids)
    case _ => false
  }

  predicate DerivesExprs(ts: seq<Tree>)
    decreases ts
  {
    ts == [] || (DerivesExpr(ts[0]) && DerivesExprs(ts[1..]))
  }

  predicate DerivesArgument(t: Tree) {
    IsArgument(t.head) && t.kids == []
  }

  predicate DerivesArguments(t: Tree) {
    t.head.ArgumentDeclList? && forall k | k in t.kids :: DerivesArgument(k)
  }

  /** A statement; meta statements only where meta nodes may stand. */
  predicate DerivesStatement(t: Tree, stack: DepthStack)
    decreases t, 1
  {
    match t.head
    case DeclStmt(_) | ExpressionStmt => |t.kids| == 1 && DerivesExpr(t.kids[0])
    case Return => t.kids == [] || (|t.kids| == 1 && DerivesExpr(t.kids[0]))
    case If =>
      2 <= |t.kids| <= 3 && DerivesExpr(t.kids[0]) && t.kids[1].head.Compound? && DerivesStatement(t.kids[1], stack) &&
      (|t.kids| == 3 ==> t.kids[2].head.Compound? && DerivesStatement(t.kids[2], stack))
    case Compound => DerivesStatements(t.kids, stack)
    case MetaIf | MetaCalculation => IsInMetaDecl(stack) && !IsInMetaDepth(stack, NoScope) && DerivesMetaStmt(t, stack)
    case _ => false
  }

  predicate DerivesStatements(ts: seq<Tree>, stack: DepthStack)
    decreases ts, 0
  {
    ts == [] || (DerivesStatement(ts[0], stack) && DerivesStatements(ts[1..], stack))
  }

  predicate DerivesMetaStmt(t: Tree, stack: DepthStack)
    decreases t, 0
  {
    match t.head
    case MetaCalculation =>
      |t.kids| == 1 && t.kids[0].head.UnscopedCompound? && DerivesStatements(t.kids[0].kids, stack + [NoScope])
    case MetaIf =>
      2 <= |t.kids| <= 3 && DerivesExpr(t.kids[0]) && DerivesContribution(t.kids[1], stack) &&
      (|t.kids| == 3 ==> DerivesContribution(t.kids[2], stack))
    case _ => false
  }

  predicate DerivesContribution(t: Tree, stack: DepthStack)
    decreases t, 0
  {
    t.head.MetaContribution? && DerivesScopeNodes(t.kids, stack)
  }

  predicate DerivesScopeNodes(ts: seq<Tree>, stack: DepthStack)
    decreases ts, 0
  {
    ts == [] || (DerivesScopeNode(ts[0], stack) && DerivesScopeNodes(ts[1..], stack))
  }

  predicate DerivesScopeNode(t: Tree, stack: DepthStack)
    decreases t, 2
  {
    (IsInMetaDepth(stack, GlobalScope) && DerivesRuntimeNode(t, stack)) ||
    (IsInMetaDepth(stack, LocalScope) && DerivesStatement(t, stack))
  }

  predicate DerivesRuntimeNode(t: Tree, stack: DepthStack)
    decreases t, 1
  {
    DerivesFunction(t, stack) || (IsInMetaDecl(stack) && DerivesMetaStmt(t, stack))
  }

  predicate DerivesFunction(t: Tree, stack: DepthStack)
    decreases t, 0
  {
    t.head.FunctionDecl? && 2 <= |t.kids| <= 3 && DerivesArguments(t.kids[0]) &&
    (|t.kids| == 3 ==> DerivesArgument(t.kids[1])) &&
    DerivesStatement(t.kids[|t.kids| - 1], if IsInMetaDecl(stack) then stack + [LocalScope] else stack)
  }

  predicate DerivesMetaDecl(t: Tree, stack: DepthStack) {
    t.head.MetaDecl? && |t.kids| == 2 && DerivesArguments(t.kids[0]) &&
      DerivesContribution(t.kids[1], stack + [GlobalScope])
  }

  predicate DerivesUnit(t: Tree) {
    t.head.CompilationUnit? && forall k | k in t.kids :: DerivesRuntimeNode(k, []) || DerivesMetaDecl(k, [])
  }

  /** The parser: every production leaves the stack as it found it, and the
      assertions of the actions hold. */
  class BasicParser {
    var metaDepthStack: DepthStack

    constructor ()
      ensures metaDepthStack == []
    {
      metaDepthStack := [];
    }

    method EnterDepth(depth: ParseDepth)
      modifies this
      ensures metaDepthStack == old(metaDepthStack) + [depth]
    {
      metaDepthStack := metaDepthStack + [depth];
    }

    method LeaveDepth()
      requires metaDepthStack != []
      modifies this
      ensures metaDepthStack == old(metaDepthStack)[..|old(metaDepthStack)| - 1]
    {
      metaDepthStack := metaDepthStack[..|metaDepthStack| - 1];
    }

    method Statement(t: Tree) returns (derived: bool)
      modifies this
      ensures metaDepthStack == old(metaDepthStack) && derived == DerivesStatement(t, metaDepthStack)
      decreases t, 1
    {
      match t.head {
        case DeclStmt(_) => derived := |t.kids| == 1 && DerivesExpr(t.kids[0]);
        case ExpressionStmt => derived := |t.kids| == 1 && DerivesExpr(t.kids[0]);
        case Return => derived := t.kids == [] || (|t.kids| == 1 && DerivesExpr(t.kids[0]));
        case If =>
          if !(2 <= |t.kids| <= 3) || !DerivesExpr(t.kids[0]) || !t.kids[1].head.Compound? {
            return false;
          }
          derived := Statement(t.kids[1]);
          if derived && |t.kids| == 3 {
            var other := Statement(t.kids[2]);
            derived := t.kids[2].head.Compound? && other;
          }
        case Compound => derived := Statements(t.kids);
        case MetaIf => derived := MetaStatement(t);
        case MetaCalculation => derived := MetaStatement(t);
        case _ => derived := false;
      }
    }

    method Statements(ts: seq<Tree>) returns (derived: bool)
      modifies this
      ensures metaDepthStack == old(metaDepthStack) && derived == DerivesStatements(ts, metaDepthStack)
      decreases ts, 0
    {
      derived := ts == [];
      if ts != [] {
        derived := Statement(ts[0]);
        if derived {
          derived := Statements(ts[1..]);
        }
      }
    }

    /** The predicate in front of a meta statement within a statement. */
    method MetaStatement(t: Tree) returns (derived: bool)
      modifies this
      ensures metaDepthStack == old(metaDepthStack)
      ensures derived ==
                (IsInMetaDecl(metaDepthStack) && !IsInMetaDepth(metaDepthStack, NoScope) &&
                 DerivesMetaStmt(t, metaDepthStack))
      decreases t, 0, 1
    {
      derived := IsInMetaDecl(metaDepthStack) && !IsInMetaDepth(metaDepthStack, NoScope);
      if derived {
        derived := MetaStmt(t);
      }
    }

    method MetaStmt(t: Tree) returns (derived: bool)
      modifies this
      ensures metaDepthStack == old(metaDepthStack) && derived == DerivesMetaStmt(t, metaDepthStack)
      decreases t, 0, 0
    {
      match t.head {
        case MetaCalculation =>
          if |t.kids| != 1 || !t.kids[0].head.UnscopedCompound? {
            return false;
          }
          EnterDepth(NoScope);
          derived := Statements(t.kids[0].kids);
          LeaveDepth();
        case MetaIf =>
          if !(2 <= |t.kids| <= 3) {
            return false;
          }
          EnterDepth(NoScope);
          derived := DerivesExpr(t.kids[0]);
          LeaveDepth();
          if derived {
            derived := Contribution(t.kids[1]);
          }
          if derived && |t.kids| == 3 {
            derived := Contribution(t.kids[2]);
          }
        case _ => derived := false;
      }
    }

    method Contribution(t: Tree) returns (derived: bool)
      modifies this
      ensures metaDepthStack == old(metaDepthStack) && derived == DerivesContribution(t, metaDepthStack)
      decreases t, 0
    {
      derived := t.head.MetaContribution?;
      if derived {
        derived := ScopeNodes(t.kids);
      }
    }

    method ScopeNodes(ts: seq<Tree>) returns (derived: bool)
      modifies this
      ensures metaDepthStack == old(metaDepthStack) && derived == DerivesScopeNodes(ts, metaDepthStack)
      decreases ts, 0
    {
      derived := ts == [];
      if ts != [] {
        derived := ScopeNode(ts[0]);
        if derived {
          derived := ScopeNodes(ts[1..]);
        }
      }
    }

    method ScopeNode(t: Tree) returns (derived: bool)
      modifies this
      ensures metaDepthStack == old(metaDepthStack) && derived == DerivesScopeNode(t, metaDepthStack)
      decreases t, 2
    {
      derived := false;
      if IsInMetaDepth(metaDepthStack, GlobalScope) {
        derived := RuntimeNode(t);
      } else if IsInMetaDepth(metaDepthStack, LocalScope) {
        derived := Statement(t);
      }
    }

    method RuntimeNode(t: Tree) returns (derived: bool)
      requires metaDepthStack == [] || IsInMetaDepth(metaDepthStack, GlobalScope)
      modifies this
      ensures metaDepthStack == old(metaDepthStack) && derived == DerivesRuntimeNode(t, metaDepthStack)
      decreases t, 1
    {
      derived := Function(t);
      if !derived && IsInMetaDecl(metaDepthStack) {
        derived := MetaStmt(t);
      }
    }

    /** The action asserts that functions of a meta declaration stand at its top. */
    method Function(t: Tree) returns (derived: bool)
      requires metaDepthStack == [] || IsInMetaDepth(metaDepthStack, GlobalScope)
      modifies this
      ensures metaDepthStack == old(metaDepthStack) && derived == DerivesFunction(t, metaDepthStack)
      decreases t, 0
    {
      derived := t.head.FunctionDecl? && 2 <= |t.kids| <= 3 && DerivesArguments(t.kids[0]) &&
      (|t.kids| == 3 ==> DerivesArgument(t.kids[1]));
      if derived {
        if IsInMetaDecl(metaDepthStack) {
          EnterDepth(LocalScope);
          derived := Statement(t.kids[|t.kids| - 1]);
          LeaveDepth();
          assert IsInMetaDepth(metaDepthStack, GlobalScope);
        } else {
          derived := Statement(t.kids[|t.kids| - 1]);
        }
      }
    }

    method MetaDecl(t: Tree) returns (derived: bool)
      requires !IsInMetaDecl(metaDepthStack)
      modifies this
      ensures metaDepthStack == old(metaDepthStack) && derived == DerivesMetaDecl(t, metaDepthStack)
    {
      derived := t.head.MetaDecl? && |t.kids| == 2 && DerivesArguments(t.kids[0]);
      if derived {
        EnterDepth(GlobalScope);
        derived := Contribution(t.kids[1]);
        LeaveDepth();
        assert !IsInMetaDecl(metaDepthStack);
      }
    }

    /** Parsing starts and ends with an empty stack. */
    method Unit(t: Tree) returns (derived: bool)
      requires metaDepthStack == []
      modifies this
      ensures metaDepthStack == [] && derived == DerivesUnit(t)
    {
      derived := t.head.CompilationUnit?;
      if !derived {
        return;
      }
      for i := 0 to |t.kids|
        invariant metaDepthStack == []
        invariant derived <==> forall k | k in t.kids[..i] :: DerivesRuntimeNode(k, []) || DerivesMetaDecl(k, [])
      {
        var one := RuntimeNode(t.kids[i]);
        if !one {
          one := MetaDecl(t.kids[i]);
        }
        assert t.kids[..i + 1] == t.kids[..i] + [t.kids[i]];
        derived := derived && one;
      }
      assert t.kids[..|t.kids|] == t.kids;
    }
  }

  // What is derived is what the other components expect

  /** What staging asks of a contributed tree, names apart: the cursor may
      descend into every node that is contributed, no unit stands inside, and
      calculations are one block each, hold no meta statements, and declare in
      no branch that is not a compound. */
  predicate Stageable(insideFunction: bool, t: Tree)
    decreases t, 0
  {
    match t.head
    case MetaCalculation => |t.kids| == 1 && NoMeta(t.kids[0]) && CompoundBranches(t.kids[0])
    case MetaIf => 2 <= |t.kids| <= 3 && AllStageable(insideFunction, t.kids)
    case MetaContribution => AllStageable(insideFunction, t.kids)
    case _ =>
      MayDescend(t.head, insideFunction, InsideMetaDecl) && !t.head.MetaUnit? &&
      AllStageable(Deeper(insideFunction, t.head), t.kids)
  }

  predicate AllStageable(insideFunction: bool, ts: seq<Tree>)
    decreases ts
  {
    ts == [] || (Stageable(insideFunction, ts[0]) && AllStageable(insideFunction, ts[1..]))
  }

  /** Expressions and argument lists are only copied. */
  lemma {:induction false} SimpleIsStageable(insideFunction: bool, t: Tree)
    requires WellKinded(t) && IsSimple(t.head)
    ensures Stageable(insideFunction, t)
    decreases t, 1
  {
    SimpleAreStageable(insideFunction, t.head, [], t.kids);
  }

  lemma {:induction false} SimpleAreStageable(insideFunction: bool, h: Head, done: seq<Head>, kids: seq<Tree>)
    requires KidsFit(h, done, kids) && (IsSimple(h) || h.Return? || h.ExpressionStmt? || h.DeclStmt?)
    ensures AllStageable(insideFunction, kids)
    decreases kids, 0
  {
    if kids != [] {
      SimpleIsStageable(insideFunction, kids[0]);
      SimpleAreStageable(insideFunction, h, done + [kids[0].head], kids[1..]);
    }
  }

  ghost predicate StageableIn(stack: DepthStack, t: Tree) {
    (IsInMetaDepth(stack, LocalScope) ==> Stageable(true, t)) &&
    (IsInMetaDepth(stack, GlobalScope) ==> Stageable(false, t))
  }

  ghost predicate AllStageableIn(stack: DepthStack, ts: seq<Tree>) {
    (IsInMetaDepth(stack, LocalScope) ==> AllStageable(true, ts)) &&
    (IsInMetaDepth(stack, GlobalScope) ==> AllStageable(false, ts))
  }

  lemma {:induction false} ExprFits(t: Tree)
    requires DerivesExpr(t)
    ensures WellKinded(t) && IsExpr(t.head) && NoMeta(t) && forall mode :: MayReadAll(t, mode)
    decreases t, 1
  {
    if t.kids == [] {
      assert KidsFit(t.head, [], []);
    } else {
      ExprsFit(t.head, [], t.kids);
    }
  }

  lemma {:induction false} ExprsFit(h: Head, done: seq<Head>, ts: seq<Tree>)
    requires DerivesExprs(ts)
    requires h.Call? || (h.MetaInstantiation? && (done == [] ==> ts != [] && ts[0].head.DeclRef?)) ||
             (h.Binary? && |done| + |ts| == 2)
    requires h.Call? && done == [] ==> ts != []
    ensures KidsFit(h, done, ts) && AllNoMeta(ts) && forall mode :: MayReadKids(h, ts, |done|, mode)
    decreases ts, 0
  {
    if ts != [] {
      ExprFits(ts[0]);
      ExprsFit(h, done + [ts[0].head], ts[1..]);
    }
  }

  /** The mode of the reader where the parser's stack is. */
  function ModeOf(stack: DepthStack): Mode {
    if stack == [] then Outside
    else if stack[|stack| - 1].NoScope? then InsideComputation
    else InsideMetaDecl
  }

  /** A derived statement has the right kinds of nodes, holds meta statements
      only in lists, and no assertion on the reader's mode fails on it. */
  lemma {:induction false} StatementFits(t: Tree, stack: DepthStack)
    requires DerivesStatement(t, stack) && !IsInMetaDepth(stack, GlobalScope)
    ensures WellKinded(t) && IsStmt(t.head) && Derivable(true, t) && MayReadAll(t, ModeOf(stack)) && CompoundBranches(t)
    ensures ModeOf(stack) != InsideMetaDecl ==> NoMeta(t)
    ensures StageableIn(stack, t)
    decreases t, 2
  {
    match t.head
    case DeclStmt(_) | ExpressionStmt =>
      ExprFits(t.kids[0]);
      OneChildFits(t.head, t.kids[0]);
      OnlyKid(t, ModeOf(stack));
      SimpleAreStageable(true, t.head, [], t.kids);
    case Return =>
      if t.kids == [] {
        assert KidsFit(Return, [], []);
      } else {
        ExprFits(t.kids[0]);
        OneChildFits(Return, t.kids[0]);
        OnlyKid(t, ModeOf(stack));
        SimpleAreStageable(true, Return, [], t.kids);
      }
    case If => DerivedIfFits(t, stack);
    case Compound => StatementsFit(t.head, [], t.kids, stack);
    case MetaIf | MetaCalculation => MetaStmtFits(t, stack);
  }

  lemma OnlyKid(t: Tree, mode: Mode)
    requires |t.kids| == 1 && MayRead(t.head, mode) && MayReadAll(t.kids[0], KidMode(t.head, 0, mode)) &&
             !t.head.DeclRef?
    ensures MayReadAll(t, mode) && t.kids == [t.kids[0]]
    ensures NoMeta(t.kids[0]) && IsPlain(t.head) ==> NoMeta(t)
  {
    assert t.kids[1..] == [];
  }

  lemma {:induction false} DerivedIfFits(t: Tree, stack: DepthStack)
    requires DerivesStatement(t, stack) && t.head.If? && !IsInMetaDepth(stack, GlobalScope)
    ensures WellKinded(t) && Derivable(true, t) && MayReadAll(t, ModeOf(stack))
    ensures ModeOf(stack) != InsideMetaDecl ==> NoMeta(t)
    ensures StageableIn(stack, t)
    decreases t, 0
  {
    var kids, mode := t.kids, ModeOf(stack);
    ExprFits(kids[0]);
    StatementFits(kids[1], stack);
    assert kids[1..][1..] == kids[2..];
    if |kids| == 3 {
      StatementFits(kids[2], stack);
      assert kids[2..] == [kids[2]] && kids[2..][1..] == [];
      assert AllStmts(kids[2..]) && MayReadKids(If, kids[2..], 2, mode);
      assert mode != InsideMetaDecl ==> AllNoMeta(kids[2..]);
      assert AllStageableIn(stack, kids[2..]);
    }
    assert AllStmts(kids[1..]) && MayReadKids(If, kids[1..], 1, mode);
    assert mode != InsideMetaDecl ==> AllNoMeta(kids[1..]);
    SimpleIsStageable(true, kids[0]);
    assert AllStageableIn(stack, kids[1..]);
    IfFits(kids);
  }

  lemma {:induction false} StatementsFit(h: Head, done: seq<Head>, ts: seq<Tree>, stack: DepthStack)
    requires DerivesStatements(ts, stack) && !IsInMetaDepth(stack, GlobalScope) && (h.Compound? || h.UnscopedCompound?)
    ensures KidsFit(h, done, ts) && AllDerivable(true, ts) && MayReadKids(h, ts, |done|, ModeOf(stack))
    ensures AllCompoundBranches(ts)
    ensures ModeOf(stack) != InsideMetaDecl ==> AllNoMeta(ts)
    ensures AllStageableIn(stack, ts)
    decreases ts, 0
  {
    if ts != [] {
      StatementFits(ts[0], stack);
      StatementsFit(h, done + [ts[0].head], ts[1..], stack);
    }
  }

  /** The same for a meta statement, at the top level or inside a function. */
  lemma {:induction false} MetaStmtFits(t: Tree, stack: DepthStack)
    requires DerivesMetaStmt(t, stack) && (IsInMetaDepth(stack, GlobalScope) || IsInMetaDepth(stack, LocalScope))
    ensures WellKinded(t) && Derivable(IsInMetaDepth(stack, LocalScope), t) && MayReadAll(t, InsideMetaDecl)
    ensures t.head.MetaIf? || t.head.MetaCalculation?
    ensures StageableIn(stack, t)
    ensures t.head.MetaCalculation? ==> NoMeta(t.kids[0]) && CompoundBranches(t.kids[0])
    decreases t, 1
  {
    if t.head.MetaCalculation? {
      var block := t.kids[0];
      StatementsFit(UnscopedCompound, [], block.kids, stack + [NoScope]);
      OneChildFits(MetaCalculation, block);
      OnlyKid(t, InsideMetaDecl);
    } else {
      MetaIfFits(t, stack);
    }
  }

  lemma {:induction false} MetaIfFits(t: Tree, stack: DepthStack)
    requires DerivesMetaStmt(t, stack) && (IsInMetaDepth(stack, GlobalScope) || IsInMetaDepth(stack, LocalScope)) &&
             t.head.MetaIf?
    ensures WellKinded(t) && Derivable(IsInMetaDepth(stack, LocalScope), t) && MayReadAll(t, InsideMetaDecl)
    ensures StageableIn(stack, t)
    decreases t, 0
  {
    var kids := t.kids;
    ExprFits(kids[0]);
    ContributionFits(kids[1], stack);
    assert kids[1..][1..] == kids[2..];
    var done := [kids[0].head, kids[1].head];
    if |kids| == 3 {
      ContributionFits(kids[2], stack);
      assert kids[2..][1..] == [];
      assert KidsFit(MetaIf, done + [kids[2].head], []);
      assert MayReadKids(MetaIf, kids[2..], 2, InsideMetaDecl);
      assert AllStageableIn(stack, kids[2..]);
    }
    SimpleIsStageable(IsInMetaDepth(stack, LocalScope), kids[0]);
    assert AllStageableIn(stack, kids[1..]);
    assert KidsFit(MetaIf, done, kids[2..]);
    assert [kids[0].head] + [kids[1].head] == done && [] + [kids[0].head] == [kids[0].head];
    assert KidsFit(MetaIf, [kids[0].head], kids[1..]);
    assert MayReadKids(MetaIf, kids[1..], 1, InsideMetaDecl);
  }

  lemma {:induction false} ContributionFits(t: Tree, stack: DepthStack)
    requires DerivesContribution(t, stack) && (IsInMetaDepth(stack, GlobalScope) || IsInMetaDepth(stack, LocalScope))
    ensures WellKinded(t) && Derivable(IsInMetaDepth(stack, LocalScope), t) && MayReadAll(t, InsideMetaDecl)
    ensures StageableIn(stack, t)
    decreases t, 0
  {
    ScopeNodesFit([], t.kids, stack);
  }

  lemma {:induction false} ScopeNodesFit(done: seq<Head>, ts: seq<Tree>, stack: DepthStack)
    requires DerivesScopeNodes(ts, stack) && (IsInMetaDepth(stack, GlobalScope) || IsInMetaDepth(stack, LocalScope))
    ensures KidsFit(MetaContribution, done, ts) && AllDerivable(IsInMetaDepth(stack, LocalScope), ts)
    ensures MayReadKids(MetaContribution, ts, |done|, InsideMetaDecl)
    ensures AllStageableIn(stack, ts)
    decreases ts, 0
  {
    if ts != [] {
      if IsInMetaDepth(stack, LocalScope) {
        StatementFits(ts[0], stack);
      } else {
        RuntimeNodeFits(ts[0], stack);
      }
      ScopeNodesFit(done + [ts[0].head], ts[1..], stack);
    }
  }

  lemma {:induction false} RuntimeNodeFits(t: Tree, stack: DepthStack)
    requires DerivesRuntimeNode(t, stack) && (stack == [] || IsInMetaDepth(stack, GlobalScope))
    ensures WellKinded(t) && MayReadAll(t, ModeOf(stack)) && MayStand(false, t.head) && Derivable(false, t)
    ensures stack == [] ==> t.head.FunctionDecl?
    ensures StageableIn(stack, t)
    decreases t, 2
  {
    if t.head.FunctionDecl? {
      FunctionDerivedFits(t, stack);
    } else {
      MetaStmtFits(t, stack);
    }
  }

  lemma {:induction false} ArgumentsFit(t: Tree)
    requires DerivesArguments(t)
    ensures WellKinded(t) && forall mode :: MayReadAll(t, mode)
  {
    ArgumentListFits([], t.kids);
  }

  lemma {:induction false} ArgumentListFits(done: seq<Head>, ts: seq<Tree>)
    requires forall k | k in ts :: DerivesArgument(k)
    ensures KidsFit(ArgumentDeclList, done, ts) && forall mode :: MayReadKids(ArgumentDeclList, ts, |done|, mode)
    decreases ts
  {
    if ts != [] {
      ArgumentFits(ts[0]);
      assert ts[0] in ts && forall k | k in ts[1..] :: k in ts;
      ArgumentListFits(done + [ts[0].head], ts[1..]);
      forall mode
        ensures MayReadKids(ArgumentDeclList, ts, |done|, mode)
      {
        assert MayReadAll(ts[0], mode) && KidMode(ArgumentDeclList, |done|, mode) == mode;
        assert MayReadKids(ArgumentDeclList, ts[1..], |done + [ts[0].head]|, mode);
      }
    }
  }

  lemma ArgumentFits(t: Tree)
    requires DerivesArgument(t)
    ensures WellKinded(t) && forall mode :: MayReadAll(t, mode)
  {
    assert KidsFit(t.head, [], []);
  }

  lemma {:induction false} FunctionDerivedFits(t: Tree, stack: DepthStack)
    requires DerivesFunction(t, stack) && (stack == [] || IsInMetaDepth(stack, GlobalScope))
    ensures WellKinded(t) && MayReadAll(t, ModeOf(stack)) && Derivable(false, t)
    ensures StageableIn(stack, t)
    decreases t, 0
  {
    var kids, mode := t.kids, ModeOf(stack);
    var body := kids[|kids| - 1];
    ArgumentsFit(kids[0]);
    StatementFits(body, if IsInMetaDecl(stack) then stack + [LocalScope] else stack);
    if |kids| == 3 {
      ArgumentFits(kids[1]);
    }
    FunctionKidsFit(t, mode);
    if stack != [] {
      assert IsInMetaDepth(stack + [LocalScope], LocalScope);
      FunctionIsStageable(t);
    }
  }

  lemma FunctionIsStageable(t: Tree)
    requires t.head.FunctionDecl? && 2 <= |t.kids| <= 3
    requires forall i | 0 <= i < |t.kids| - 1 :: WellKinded(t.kids[i]) && IsSimple(t.kids[i].head)
    requires Stageable(true, t.kids[|t.kids| - 1])
    ensures Stageable(false, t)
  {
    var kids, n := t.kids, |t.kids| - 1;
    assert kids[n..] == [kids[n]] && kids[n..][1..] == [];
    assert AllStageable(true, kids[n..]);
    SimpleIsStageable(true, kids[0]);
    assert kids[1..][1..] == kids[2..];
    if n == 2 {
      SimpleIsStageable(true, kids[1]);
    }
    assert AllStageable(true, kids[1..]);
  }

  lemma FunctionKidsFit(t: Tree, mode: Mode)
    requires t.head.FunctionDecl? && 2 <= |t.kids| <= 3 && t.kids[0].head.ArgumentDeclList?
    requires |t.kids| == 3 ==> IsArgument(t.kids[1].head)
    requires IsStmt(t.kids[|t.kids| - 1].head)
    requires forall i | 0 <= i < |t.kids| :: WellKinded(t.kids[i]) && MayReadAll(t.kids[i], mode)
    ensures WellKinded(t) && MayReadAll(t, mode)
  {
    var kids, n := t.kids, |t.kids| - 1;
    assert kids[n..] == [kids[n]] && kids[n..][1..] == [];
    assert AllStmts(kids[n..]);
    assert SignatureSize(kids) == n;
    FunctionFits(t.head, kids);
    assert MayReadKids(t.head, [], n + 1, mode);
    assert MayReadKids(t.head, kids[n..], n, mode);
    assert kids[1..][1..] == kids[2..];
    assert MayReadKids(t.head, kids[1..], 1, mode);
  }

  /** For every meta declaration the grammar derives, nothing later fails on its
      depths: it is well kinded, meta statements stand only where the staging
      compiler takes them, the reader's mode assertions hold, and so do the
      cursor's. */
  lemma MetaDeclFits(t: Tree)
    requires DerivesMetaDecl(t, [])
    ensures WellKinded(t) && MayReadAll(t, Outside) && Derivable(false, t.kids[1]) && Stageable(false, t.kids[1])
  {
    assert [] + [GlobalScope] == [GlobalScope];
    ArgumentsFit(t.kids[0]);
    ContributionFits(t.kids[1], [GlobalScope]);
    assert t.kids == [t.kids[0], t.kids[1]];
    TwoChildrenFit(t.head, t.kids[0], t.kids[1]);
    assert t.kids[1..][1..] == [];
    assert MayReadKids(t.head, t.kids[1..], 1, Outside);
  }

  /** A whole unit the grammar derives is laid out, read and bound without a
      failing assertion. */
  lemma UnitFits(t: Tree)
    requires DerivesUnit(t)
    ensures forall k | k in t.kids :: IsTopLevel(k.head) && WellKinded(k) && MayReadAll(k, Outside)
  {
    forall k | k in t.kids
      ensures IsTopLevel(k.head) && WellKinded(k) && MayReadAll(k, Outside)
    {
      if DerivesMetaDecl(k, []) {
        MetaDeclFits(k);
      } else {
        RuntimeNodeFits(k, []);
      }
    }
  }
}
