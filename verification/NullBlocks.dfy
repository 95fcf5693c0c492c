/** When the function generator dereferences a block that is not there: it
    passes the block to continue in from statement to statement without asking
    whether there is one (src/Codegen/FunctionCodegen.cpp). */
module NullBlocks {
  import opened Wrappers
  import opened Ast
  import opened Machine
  import opened Semantics
  import opened ExprCodegen
  import opened StmtCodegen

  /** Generates a statement, or nothing when a block is missing on the way. */
  function TryGenStmt(g: Globals, b: Builder, block: nat, s: Tree): Option<(Builder, Option<nat>)>
    decreases s, 0
  {
    match s.head
    case UnscopedCompound => TryGenStmts(g, b, Some(block), s.kids)
    case Compound =>
      var r :- TryGenStmts(g, b, Some(block), s.kids);
      Some((r.0.(values := b.values), r.1))
    case If =>
      if |s.kids| < 2 then Some((b, Some(block)))
      else
        var yes := |b.blocks|;
        var r1 :- TryGenStmt(g, StartBranch(b), yes, s.kids[1]);
        var j1 := Join(r1.0, r1.1, None);
        if |s.kids| > 2 then
          var no := |j1.b.blocks|;
          var r2 :- TryGenStmt(g, StartBranch(j1.b), no, s.kids[2]);
          var j2 := Join(r2.0, r2.1, j1.cont);
          Some(Branch(g, j2.b, block, s.kids[0], yes, no, j2.cont))
        else
          var j2 := LazyContinue(j1.b, j1.cont);
          Some(Branch(g, j2.b, block, s.kids[0], yes, j2.cont.value, j2.cont))
    case _ => Some(GenStmt(g, b, block, s))
  }

  /** Every statement is handed the block the one before it left. */
  function TryGenStmts(g: Globals, b: Builder, current: Option<nat>, ss: seq<Tree>): Option<(Builder, Option<nat>)>
    decreases ss
  {
    if ss == [] then Some((b, current))
    else
      var block :- current;
      var r :- TryGenStmt(g, b, block, ss[0]);
      TryGenStmts(g, r.0, r.1, ss[1..])
  }

  /** A statement leaves no block behind exactly when all its paths return. */
  lemma {:induction false} NullWhenReturning(g: Globals, b: Builder, block: nat, s: Tree)
    ensures GenStmt(g, b, block, s).1.None? <==> Terminates(s)
    decreases s, 0
  {
    hide GenExpr;
    match s.head
    case UnscopedCompound | Compound => NullWhenOneReturns(g, b, block, s.kids);
    case If =>
      if |s.kids| >= 2 {
        var (b1, end1) := GenStmt(g, StartBranch(b), |b.blocks|, s.kids[1]);
        var j1 := Join(b1, end1, None);
        NullWhenReturning(g, StartBranch(b), |b.blocks|, s.kids[1]);
        if |s.kids| > 2 {
          NullWhenReturning(g, StartBranch(j1.b), |j1.b.blocks|, s.kids[2]);
        }
      }
    case _ =>
  }

  lemma {:induction false} NullWhenOneReturns(g: Globals, b: Builder, block: nat, ss: seq<Tree>)
    ensures GenStmts(g, b, block, ss).1.None? <==> TerminatesAny(ss)
    decreases ss
  {
    if ss != [] {
      var r := GenStmt(g, b, block, ss[0]);
      NullWhenReturning(g, b, block, ss[0]);
      if r.1.Some? {
        NullWhenOneReturns(g, r.0, r.1.value, ss[1..]);
      }
    }
  }

  /** A statement that leaves no block behind never ends normally. */
  lemma NoBlockNoEnd(g: Globals, b: Builder, block: nat, s: Tree, call: Oracle, env: Env)
    requires GenStmt(g, b, block, s).1.None?
    ensures !Exec(g, call, s, env).Normal?
  {
    NullWhenReturning(g, b, block, s);
    TerminatingNeverNormal(g, call, s, env);
  }

  /** Generation meets a missing block exactly when a statement follows one that
      always returns; otherwise it generates what the specification says. */
  lemma {:induction false} MissesBlockIff(g: Globals, b: Builder, block: nat, s: Tree)
    ensures TryGenStmt(g, b, block, s) == if NothingAfterReturn(s) then Some(GenStmt(g, b, block, s)) else None
    decreases s, 0
  {
    hide GenExpr, Branch;
    match s.head
    case UnscopedCompound | Compound => MissesBlockInIff(g, b, block, s.kids);
    case If =>
      if |s.kids| >= 2 {
        var (b1, end1) := GenStmt(g, StartBranch(b), |b.blocks|, s.kids[1]);
        var j1 := Join(b1, end1, None);
        MissesBlockIff(g, StartBranch(b), |b.blocks|, s.kids[1]);
        if |s.kids| > 2 {
          MissesBlockIff(g, StartBranch(j1.b), |j1.b.blocks|, s.kids[2]);
        }
      }
    case _ =>
  }

  lemma {:induction false} MissesBlockInIff(g: Globals, b: Builder, block: nat, ss: seq<Tree>)
    ensures TryGenStmts(g, b, Some(block), ss) ==
            if NothingAfterReturns(ss) then Some(GenStmts(g, b, block, ss)) else None
    decreases ss
  {
    if ss != [] {
      var r := GenStmt(g, b, block, ss[0]);
      NullWhenReturning(g, b, block, ss[0]);
      MissesBlockIff(g, b, block, ss[0]);
      if r.1.Some? {
        MissesBlockInIff(g, r.0, r.1.value, ss[1..]);
      } else if ss[1..] == [] {
        assert NothingAfterReturns(ss[1..]);
      }
    }
  }

  /** `{ return 1; return 2; }`: the second return is generated into no block. */
  lemma ReturnTwiceExample(g: Globals, b: Builder, block: nat)
    ensures var first := Tree(Return, [Tree(IntegerLiteral(1), [])]);
            var second := Tree(Return, [Tree(IntegerLiteral(2), [])]);
            var s := Tree(Compound, [first, second]);
            ClosedStmt(g, {}, first) && ClosedStmt(g, {}, second) && TryGenStmt(g, b, block, s).None?
  {
    var first := Tree(Return, [Tree(IntegerLiteral(1), [])]);
    var second := Tree(Return, [Tree(IntegerLiteral(2), [])]);
    assert [first, second][1..] == [second];
    MissesBlockIff(g, b, block, Tree(Compound, [first, second]));
  }
}
