/** Values that may be absent. */
module Wrappers {
  datatype Option<+T> = None | Some(value: T) {
    predicate IsFailure() {
      None?
    }

    function PropagateFailure<U>(): Option<U>
      requires None?
    {
      None
    }

    function Extract(): T
      requires Some?
    {
      value
    }
  }
}

/** The nodes of the syntax tree and the order of their children
    (src/AST/AST.hpp, src/AST/AST.inl, src/AST/ASTPredicate.hpp). */
module Ast {
  type Name = string

  datatype BinaryOp =
    | Mul | Div | Plus | Minus
    | LessThan | GreaterThan | LessThanOrEq | GreaterThanOrEq
    | Equal | NotEqual | Assign

  /** A node without its children: the kind together with what the node's
      constructor stores, which is all a shallow clone copies.  A MetaUnit
      stores its instantiation; only the name of the instantiated meta
      declaration matters here. */
  datatype Head =
    | CompilationUnit
    | MetaUnit(instantiates: Name)
    | FunctionDecl(name: Name)
    | MetaDecl(name: Name)
    | MetaContribution
    | ArgumentDeclList
    | AnonymousArgument
    | NamedArgument(name: Name)
    | GlobalConstant(name: Name)
    | UnscopedCompound
    | Compound
    | Return
    | ExpressionStmt
    | DeclStmt(name: Name)
    | If
    | MetaIf
    | MetaCalculation
    | DeclRef(name: Name)
    | IntegerLiteral(value: int)
    | BooleanLiteral(truth: bool)
    | Erroneous
    | Binary(op: BinaryOp)
    | Call
    | MetaInstantiation

  datatype Tree = Tree(head: Head, kids: seq<Tree>)

  /** How `children()` is declared: not at all, as an array of known size, or
      as a sequence of any size. */
  datatype Arity = Leaf | Fixed(count: nat) | Variadic

  function ArityOf(h: Head): Arity {
    match h
    case AnonymousArgument | NamedArgument(_) | DeclRef(_) | IntegerLiteral(_)
       | BooleanLiteral(_) | Erroneous => Leaf
    case GlobalConstant(_) | ExpressionStmt | DeclStmt(_) | MetaCalculation => Fixed(1)
    case MetaDecl(_) | Binary(_) => Fixed(2)
    case _ => Variadic
  }

  /** Where in a meta declaration a node stands: contributed nodes are only
      copied, computations are real code. */
  datatype Mode = Outside | InsideMetaDecl | InsideComputation

  predicate NeedsMarker(h: Head) {
    ArityOf(h).Variadic?
  }

  function FixedCount(h: Head): nat {
    match ArityOf(h)
    case Fixed(n) => n
    case _ => 0
  }

  predicate IsTopLevel(h: Head) {
    h.MetaUnit? || h.FunctionDecl? || h.MetaDecl? || h.GlobalConstant?
  }

  predicate IsStmt(h: Head) {
    h.UnscopedCompound? || h.Compound? || h.Return? || h.ExpressionStmt? ||
    h.DeclStmt? || h.If? || h.MetaIf? || h.MetaCalculation?
  }

  /** Nodes whose children are read in a scope of their own. */
  predicate Opens(h: Head) {
    h.FunctionDecl? || h.MetaDecl? || h.Compound?
  }

  predicate IsExpr(h: Head) {
    h.DeclRef? || h.IntegerLiteral? || h.BooleanLiteral? || h.Erroneous? ||
    h.Binary? || h.Call? || h.MetaInstantiation?
  }

  predicate IsConstantExpr(h: Head) {
    h.IntegerLiteral? || h.BooleanLiteral?
  }

  predicate IsArgument(h: Head) {
    h.AnonymousArgument? || h.NamedArgument?
  }

  /** Nodes that declare a name. */
  predicate IsNamedDecl(h: Head) {
    h.FunctionDecl? || h.MetaDecl? || h.NamedArgument? || h.GlobalConstant? || h.DeclStmt?
  }

  function Heads(ts: seq<Tree>): seq<Head> {
    seq(|ts|, i requires 0 <= i < |ts| => ts[i].head)
  }

  /** May `next` be the next child of `parent` once the children `done` are there? */
  predicate Allowed(parent: Head, done: seq<Head>, next: Head) {
    match parent
    case CompilationUnit | MetaUnit(_) => IsTopLevel(next)
    case FunctionDecl(_) =>
      if |done| == 0 then next.ArgumentDeclList?
      else if |done| == 1 then IsArgument(next) || IsStmt(next)
      else |done| == 2 && IsArgument(done[1]) && IsStmt(next)
    case MetaDecl(_) =>
      (|done| == 0 && next.ArgumentDeclList?) || (|done| == 1 && next.MetaContribution?)
    case MetaContribution => true
    case ArgumentDeclList => IsArgument(next)
    case GlobalConstant(_) => |done| == 0 && IsConstantExpr(next)
    case UnscopedCompound | Compound => IsStmt(next)
    case Return | ExpressionStmt | DeclStmt(_) => |done| == 0 && IsExpr(next)
    case If =>
      if |done| == 0 then IsExpr(next) else |done| <= 2 && IsStmt(next)
    case MetaIf =>
      if |done| == 0 then IsExpr(next) else |done| <= 2 && next.MetaContribution?
    case MetaCalculation => |done| == 0 && IsStmt(next)
    case Binary(_) => |done| <= 1 && IsExpr(next)
    case Call => IsExpr(next)
    case MetaInstantiation => if |done| == 0 then next.DeclRef? else IsExpr(next)
    case _ => false
  }

  /** May `parent` be closed after the children `done`? */
  predicate Complete(parent: Head, done: seq<Head>) {
    match parent
    case FunctionDecl(_) => |done| >= 2 && IsStmt(done[|done| - 1])
    case If | MetaIf => |done| >= 2
    case Call | MetaInstantiation => |done| >= 1
    case _ => NeedsMarker(parent) || |done| == FixedCount(parent)
  }

  /** Trees whose nodes have the kinds of children the reader consumes.  The
      reader has no way to consume an Erroneous node. */
  predicate WellKinded(t: Tree)
    decreases t, 0
  {
    !t.head.Erroneous? && KidsFit(t.head, [], t.kids)
  }

  predicate KidsFit(parent: Head, done: seq<Head>, kids: seq<Tree>)
    decreases kids
  {
    if kids == [] then Complete(parent, done)
    else
      Allowed(parent, done, kids[0].head) && WellKinded(kids[0]) &&
      KidsFit(parent, done + [kids[0].head], kids[1..])
  }

  /** `KidsFit` says the same about every child, counted from the left. */
  lemma {:induction false} KidsFitAt(parent: Head, done: seq<Head>, kids: seq<Tree>, i: nat)
    requires KidsFit(parent, done, kids) && i < |kids|
    ensures WellKinded(kids[i])
    ensures Allowed(parent, done + Heads(kids[..i]), kids[i].head)
    decreases kids
  {
    if i == 0 {
      assert done + Heads(kids[..0]) == done;
    } else {
      KidsFitAt(parent, done + [kids[0].head], kids[1..], i - 1);
      assert kids[1..][..i - 1] == kids[1..i];
      assert done + [kids[0].head] + Heads(kids[1..i]) == done + Heads(kids[..i]);
    }
  }

  lemma {:induction false} KidsFitComplete(parent: Head, done: seq<Head>, kids: seq<Tree>)
    requires KidsFit(parent, done, kids)
    ensures Complete(parent, done + Heads(kids))
    decreases kids
  {
    if kids == [] {
      assert done + Heads(kids) == done;
    } else {
      KidsFitComplete(parent, done + [kids[0].head], kids[1..]);
      assert done + [kids[0].head] + Heads(kids[1..]) == done + Heads(kids);
    }
  }

  lemma OneChildFits(h: Head, kid: Tree)
    requires WellKinded(kid) && Allowed(h, [], kid.head) && Complete(h, [kid.head]) && !h.Erroneous?
    ensures WellKinded(Tree(h, [kid]))
  {
    assert [] + [kid.head] == [kid.head];
    assert KidsFit(h, [kid.head], []);
    assert [kid][1..] == [];
    assert KidsFit(h, [], [kid]);
  }

  lemma TwoChildrenFit(h: Head, a: Tree, b: Tree)
    requires WellKinded(a) && WellKinded(b) && Allowed(h, [], a.head) && Allowed(h, [a.head], b.head)
    requires Complete(h, [a.head, b.head]) && !h.Erroneous?
    ensures WellKinded(Tree(h, [a, b]))
  {
    assert [a.head] + [b.head] == [a.head, b.head] && [] + [a.head] == [a.head];
    assert KidsFit(h, [a.head, b.head], []);
    assert [b][1..] == [] && [a, b][1..] == [b];
    assert KidsFit(h, [a.head], [b]);
    assert KidsFit(h, [], [a, b]);
  }
}
