/** What the operators compute: laws between them that name no operator's own
    definition (codegenBinaryOperator in src/Codegen/FunctionCodegen.cpp). */
module Operators {
  import opened Wrappers
  import opened Ast
  import opened Machine
  import opened Semantics
  import opened Runs
  import opened FunctionCodegen

  /** The same result up to a multiple of 2 to the 32 wraps to the same integer. */
  lemma WrapSame(x: int, y: int, k: int)
    requires x == y + k * TWO_TO_THE_32
    ensures Wrap(x) == Wrap(y)
  {
  }

  lemma WrapOff(x: int) returns (k: int)
    ensures Wrap(x) == x + k * TWO_TO_THE_32
  {
    k := -((x - Wrap(x)) / TWO_TO_THE_32);
  }

  /** Adding counts up by one and starts over behind the largest integer. */
  lemma PlusCounts(a: int, b: int)
    requires IsWord(a) && IsWord(b)
    ensures Operate(Plus, a, 0) == Some(a)
    ensures Operate(Plus, a, 1) == Some(if a == TWO_TO_THE_31 - 1 then -TWO_TO_THE_31 else a + 1)
    ensures IsWord(b + 1) ==>
              Operate(Plus, a, b).Some? &&
              Operate(Plus, a, b + 1) == Operate(Plus, Operate(Plus, a, b).value, 1)
  {
    var k := WrapOff(a + b);
    WrapSame(Wrap(a + b) + 1, a + b + 1, k);
  }

  /** Subtracting undoes adding. */
  lemma MinusUndoesPlus(a: int, b: int)
    requires IsWord(a) && IsWord(b)
    ensures Operate(Plus, a, b).Some? && Operate(Minus, Operate(Plus, a, b).value, b) == Some(a)
  {
    var k := WrapOff(a + b);
    WrapSame(Wrap(a + b) - b, a, k);
  }

  /** Multiplying adds again and again, for negative factors as well. */
  lemma MulIsRepeatedPlus(a: int, b: int)
    requires IsWord(a) && IsWord(b)
    ensures Operate(Mul, a, 0) == Some(0)
    ensures IsWord(b + 1) ==>
              Operate(Mul, a, b).Some? && Operate(Mul, a, b + 1) == Operate(Plus, Operate(Mul, a, b).value, a)
  {
    var k := WrapOff(a * b);
    assert a * (b + 1) == a * b + a;
    WrapSame(Wrap(a * b) + a, a * (b + 1), k);
  }

  /** Dividing leaves a remainder smaller than the divisor, with the sign of the
      dividend; it is undefined for the divisor zero and for the one quotient
      that is no 32-bit integer. */
  lemma DivLeavesRemainder(a: int, b: int)
    requires IsWord(a) && IsWord(b)
    ensures Operate(Div, a, b).None? <==> b == 0 || (a == -TWO_TO_THE_31 && b == -1)
    ensures Operate(Div, a, b).Some? ==>
              var r := a - Operate(Div, a, b).value * b;
              Magnitude(r) < Magnitude(b) && (if a >= 0 then r >= 0 else r <= 0)
  {
  }

  /** Comparisons yield 1 or 0. */
  lemma ComparisonsOrder(a: int, b: int)
    ensures Operate(LessThan, a, b) == Some(1) <==> a < b
    ensures Operate(LessThan, a, b) == Some(0) <==> a >= b
    ensures Operate(GreaterThan, a, b) == Operate(LessThan, b, a)
    ensures Operate(GreaterThanOrEq, a, b) == Some(1) <==> Operate(LessThan, a, b) == Some(0)
    ensures Operate(GreaterThanOrEq, a, b) == Some(0) <==> Operate(LessThan, a, b) == Some(1)
    ensures Operate(LessThanOrEq, a, b) == Operate(GreaterThanOrEq, b, a)
    ensures Operate(Equal, a, b) == Some(1) <==>
              Operate(LessThanOrEq, a, b) == Some(1) && Operate(GreaterThanOrEq, a, b) == Some(1)
    ensures Operate(Equal, a, b) == Some(0) <==>
              Operate(LessThan, a, b) == Some(1) || Operate(GreaterThan, a, b) == Some(1)
    ensures Operate(NotEqual, a, b) == Some(1) <==> Operate(Equal, a, b) == Some(0)
    ensures Operate(NotEqual, a, b) == Some(0) <==> Operate(Equal, a, b) == Some(1)
  {
  }

  /** `return x op y;` */
  function ReturnsOperator(op: BinaryOp, x: Name, y: Name): Tree {
    Tree(Return, [Tree(Binary(op), [Tree(DeclRef(x), []), Tree(DeclRef(y), [])])])
  }

  /** A run of the code generated for `f(int x, int y) int -> return x op y;`. */
  function RunOperator(g: Globals, call: Oracle, op: BinaryOp, x: Name, y: Name, a: int, b: int): Conf {
    Run(GenFunction(g, [Some(x), Some(y)], ReturnsOperator(op, x, y)), call, [a, b])
  }

  lemma RunsOperator(g: Globals, call: Oracle, op: BinaryOp, x: Name, y: Name, a: int, b: int)
    requires FreshParams(g, {}, [Some(x), Some(y)]) && !op.Assign?
    ensures RunOperator(g, call, op, x, y, a, b) ==
            match Operate(op, a, b)
            case None => Stuck
            case Some(n) => Finished(Some(n), [])
  {
    hide Run, GenFunction, Operate, Exec;
    var ps, body := [Some(x), Some(y)], ReturnsOperator(op, x, y);
    var l, r := Tree(DeclRef(x), []), Tree(DeclRef(y), []);
    var env := map[x := a, y := b];
    TwoParams(g, x, y, a, b);
    assert ClosedExpr(g, ParamNames(ps), l) && ClosedExpr(g, ParamNames(ps), r);
    assert ClosedExpr(g, ParamNames(ps), body.kids[0]);
    FunctionMeans(g, call, ps, body, [a, b]);
    OperatorMeans(g, call, op, x, y, a, b);
  }

  lemma TwoParams(g: Globals, x: Name, y: Name, a: int, b: int)
    requires FreshParams(g, {}, [Some(x), Some(y)])
    ensures var ps := [Some(x), Some(y)];
            x != y && !g.Knows(x) && !g.Knows(y) && ParamNames(ps) == {x, y} &&
            Bind(map[], ps, [a, b]) == map[x := a, y := b]
  {
    var ps: Params, last: Params := [Some(x), Some(y)], [Some(y)];
    assert ps[1..] == last && last[1..] == [] && [a, b][1..] == [b] && [b][1..] == [];
    assert ParamNames(last) == {y} && Bind(map[x := a], last, [b]) == Bind(map[x := a, y := b], [], []);
  }

  lemma OperatorMeans(g: Globals, call: Oracle, op: BinaryOp, x: Name, y: Name, a: int, b: int)
    requires x != y && !g.Knows(x) && !g.Knows(y) && !op.Assign?
    ensures Exec(g, call, ReturnsOperator(op, x, y), map[x := a, y := b]) ==
            if Operate(op, a, b).None? then Wrong else Returned(Operate(op, a, b))
  {
    hide Operate;
    var env := map[x := a, y := b];
    assert Eval(g, call, Tree(DeclRef(x), []), env) == Some((Variable(x), env));
    assert Eval(g, call, Tree(DeclRef(y), []), env) == Some((Variable(y), env));
  }

  /** What running the generated code computes with the arithmetic operators:
      adding counts up, the sum of `a` and `b` less `b` is `a`, a product grows
      by `a` with every step of `b`, a quotient leaves a small remainder or
      nothing is returned. */
  lemma GeneratedArithmetic(g: Globals, call: Oracle, x: Name, y: Name, a: int, b: int)
    requires FreshParams(g, {}, [Some(x), Some(y)]) && IsWord(a) && IsWord(b)
    ensures var sum := RunOperator(g, call, Plus, x, y, a, b);
            RunOperator(g, call, Plus, x, y, a, 0) == Finished(Some(a), []) &&
            RunOperator(g, call, Plus, x, y, a, 1) ==
              Finished(Some(if a == TWO_TO_THE_31 - 1 then -TWO_TO_THE_31 else a + 1), []) &&
            sum.Finished? && sum.result.Some? &&
            (IsWord(b + 1) ==>
               RunOperator(g, call, Plus, x, y, a, b + 1) ==
               RunOperator(g, call, Plus, x, y, sum.result.value, 1)) &&
            RunOperator(g, call, Minus, x, y, sum.result.value, b) == Finished(Some(a), [])
    ensures var product := RunOperator(g, call, Mul, x, y, a, b);
            RunOperator(g, call, Mul, x, y, a, 0) == Finished(Some(0), []) &&
            product.Finished? && product.result.Some? &&
            (IsWord(b + 1) ==>
               RunOperator(g, call, Mul, x, y, a, b + 1) ==
               RunOperator(g, call, Plus, x, y, product.result.value, a))
    ensures var quotient := RunOperator(g, call, Div, x, y, a, b);
            if b == 0 || (a == -TWO_TO_THE_31 && b == -1) then quotient == Stuck
            else
              quotient.Finished? && quotient.result.Some? &&
              var r := a - quotient.result.value * b;
              Magnitude(r) < Magnitude(b) && if a >= 0 then r >= 0 else r <= 0
  {
    hide RunOperator, FreshParams;
    PlusCounts(a, b);
    MinusUndoesPlus(a, b);
    MulIsRepeatedPlus(a, b);
    DivLeavesRemainder(a, b);
    RunsOperator(g, call, Plus, x, y, a, 0);
    RunsOperator(g, call, Plus, x, y, a, 1);
    RunsOperator(g, call, Plus, x, y, a, b);
    RunsOperator(g, call, Minus, x, y, Operate(Plus, a, b).value, b);
    RunsOperator(g, call, Mul, x, y, a, 0);
    RunsOperator(g, call, Mul, x, y, a, b);
    if IsWord(b + 1) {
      RunsOperator(g, call, Plus, x, y, a, b + 1);
      RunsOperator(g, call, Plus, x, y, Operate(Plus, a, b).value, 1);
      RunsOperator(g, call, Mul, x, y, a, b + 1);
      RunsOperator(g, call, Plus, x, y, Operate(Mul, a, b).value, a);
    }
    RunsOperator(g, call, Div, x, y, a, b);
  }

  /** And with the comparisons: 1 when they hold and 0 when they do not. */
  lemma GeneratedComparisons(g: Globals, call: Oracle, x: Name, y: Name, a: int, b: int)
    requires FreshParams(g, {}, [Some(x), Some(y)])
    ensures RunOperator(g, call, LessThan, x, y, a, b) == Finished(Some(if a < b then 1 else 0), [])
    ensures RunOperator(g, call, GreaterThan, x, y, a, b) == Finished(Some(if b < a then 1 else 0), [])
    ensures RunOperator(g, call, LessThanOrEq, x, y, a, b) == Finished(Some(if b < a then 0 else 1), [])
    ensures RunOperator(g, call, GreaterThanOrEq, x, y, a, b) == Finished(Some(if a < b then 0 else 1), [])
    ensures RunOperator(g, call, Equal, x, y, a, b) == Finished(Some(if a == b then 1 else 0), [])
    ensures RunOperator(g, call, NotEqual, x, y, a, b) == Finished(Some(if a == b then 0 else 1), [])
  {
    hide RunOperator, FreshParams;
    ComparisonsOrder(a, b);
    RunsOperator(g, call, LessThan, x, y, a, b);
    RunsOperator(g, call, GreaterThan, x, y, a, b);
    RunsOperator(g, call, LessThanOrEq, x, y, a, b);
    RunsOperator(g, call, GreaterThanOrEq, x, y, a, b);
    RunsOperator(g, call, Equal, x, y, a, b);
    RunsOperator(g, call, NotEqual, x, y, a, b);
  }
}
