/** Every alternative of the grammar's rules derives, from whatever its parts
    derive (src/Parse/GeneratedParser.g4). */
module Productions {
  import opened Ast
  import opened Grammar

  lemma ExpressionProductions(x: Name, n: int, truth: bool, op: BinaryOp, a: Tree, b: Tree, es: seq<Tree>)
    requires DerivesExpr(a) && DerivesExpr(b) && DerivesExprs(es)
    ensures var ref := Tree(DeclRef(x), []);
            var instance := Tree(MetaInstantiation, [ref] + es);
            DerivesExpr(ref) && DerivesExpr(Tree(IntegerLiteral(n), [])) &&
            DerivesExpr(Tree(BooleanLiteral(truth), [])) && DerivesExpr(Tree(Binary(op), [a, b])) &&
            DerivesExpr(instance) && DerivesExpr(Tree(Call, [ref] + es)) && DerivesExpr(Tree(Call, [instance] + es))
  {
    var ref := Tree(DeclRef(x), []);
    var instance := Tree(MetaInstantiation, [ref] + es);
    assert [a, b][1..] == [b] && [b][1..] == [] && DerivesExprs([b]);
    assert ([ref] + es)[1..] == es && ([instance] + es)[1..] == es;
    assert DerivesExprs([ref] + es);
    assert DerivesExprs([instance] + es);
  }

  /** The `else` of an `if` and the value of a return may be missing; a branch
      is a compound. */
  lemma StatementProductions(x: Name, e: Tree, ss: seq<Tree>, others: seq<Tree>, stack: DepthStack)
    requires DerivesExpr(e) && DerivesStatements(ss, stack) && DerivesStatements(others, stack)
    ensures var yes, no := Tree(Compound, ss), Tree(Compound, others);
            DerivesStatement(Tree(DeclStmt(x), [e]), stack) && DerivesStatement(Tree(ExpressionStmt, [e]), stack) &&
            DerivesStatement(Tree(Return, []), stack) && DerivesStatement(Tree(Return, [e]), stack) &&
            DerivesStatement(Tree(If, [e, yes]), stack) && DerivesStatement(Tree(If, [e, yes, no]), stack) &&
            DerivesStatement(yes, stack)
  {
  }

  /** Where meta nodes may stand, calculations and meta-ifs with or without an
      `else` are statements; at the top of a declaration's body they are nodes. */
  lemma MetaProductions(e: Tree, ss: seq<Tree>, ns: seq<Tree>, others: seq<Tree>, stack: DepthStack)
    requires stack != [] && (stack[|stack| - 1] == GlobalScope || stack[|stack| - 1] == LocalScope)
    requires DerivesExpr(e) && DerivesStatements(ss, stack + [NoScope])
    requires DerivesScopeNodes(ns, stack) && DerivesScopeNodes(others, stack)
    ensures var yes, no := Tree(MetaContribution, ns), Tree(MetaContribution, others);
            var calculation := Tree(MetaCalculation, [Tree(UnscopedCompound, ss)]);
            DerivesStatement(calculation, stack) && DerivesScopeNode(calculation, stack) &&
            DerivesStatement(Tree(MetaIf, [e, yes]), stack) && DerivesScopeNode(Tree(MetaIf, [e, yes]), stack) &&
            DerivesStatement(Tree(MetaIf, [e, yes, no]), stack) && DerivesScopeNode(Tree(MetaIf, [e, yes, no]), stack)
  {
    var yes, no := Tree(MetaContribution, ns), Tree(MetaContribution, others);
    var calculation := Tree(MetaCalculation, [Tree(UnscopedCompound, ss)]);
    assert DerivesContribution(yes, stack) && DerivesContribution(no, stack);
    assert DerivesMetaStmt(calculation, stack);
    assert DerivesMetaStmt(Tree(MetaIf, [e, yes]), stack) && DerivesMetaStmt(Tree(MetaIf, [e, yes, no]), stack);
    assert DerivesStatement(calculation, stack);
    assert DerivesStatement(Tree(MetaIf, [e, yes]), stack) && DerivesStatement(Tree(MetaIf, [e, yes, no]), stack);
  }

  /** Arguments and the result may have names or none; a function needs no
      result; a contributed function's body stands at local depth. */
  lemma FunctionProductions(f: Name, args: seq<Tree>, result: Tree, body: Tree, stack: DepthStack)
    requires forall a | a in args + [result] :: a.kids == [] && (a.head.AnonymousArgument? || a.head.NamedArgument?)
    requires stack == [] || stack == [GlobalScope]
    requires DerivesStatement(body, if stack == [] then [] else [GlobalScope, LocalScope])
    ensures var plain := Tree(FunctionDecl(f), [Tree(ArgumentDeclList, args), body]);
            var typed := Tree(FunctionDecl(f), [Tree(ArgumentDeclList, args), result, body]);
            DerivesFunction(plain, stack) && DerivesFunction(typed, stack) &&
            DerivesRuntimeNode(plain, stack) && DerivesRuntimeNode(typed, stack) &&
            (stack != [] ==> DerivesScopeNode(plain, stack) && DerivesScopeNode(typed, stack))
  {
    hide DerivesStatement;
    var list := Tree(ArgumentDeclList, args);
    forall a | a in args || a == result
      ensures DerivesArgument(a)
    {
      assert a in args + [result];
    }
    assert DerivesArguments(list);
    assert [GlobalScope] + [LocalScope] == [GlobalScope, LocalScope];
    assert DerivesFunction(Tree(FunctionDecl(f), [list, body]), stack);
    assert DerivesFunction(Tree(FunctionDecl(f), [list, result, body]), stack);
  }

  /** A unit is any list of functions and meta declarations. */
  lemma UnitProductions(name: Name, args: seq<Tree>, ns: seq<Tree>, fs: seq<Tree>)
    requires forall a | a in args :: a.kids == [] && (a.head.AnonymousArgument? || a.head.NamedArgument?)
    requires DerivesScopeNodes(ns, [GlobalScope]) && forall f | f in fs :: DerivesFunction(f, [])
    ensures var meta := Tree(MetaDecl(name), [Tree(ArgumentDeclList, args), Tree(MetaContribution, ns)]);
            DerivesMetaDecl(meta, []) && DerivesUnit(Tree(CompilationUnit, fs + [meta])) &&
            DerivesUnit(Tree(CompilationUnit, fs))
  {
    hide DerivesFunction, DerivesScopeNodes;
    var list, contribution := Tree(ArgumentDeclList, args), Tree(MetaContribution, ns);
    assert forall a | a in args :: DerivesArgument(a);
    assert [] + [GlobalScope] == [GlobalScope];
    assert DerivesContribution(contribution, [GlobalScope]);
    assert DerivesMetaDecl(Tree(MetaDecl(name), [list, contribution]), []);
  }
}
