/** The layout reader: a predictive parser over a moving position, one consume
    method per kind of node (src/Parse/ASTLayout.cpp).  `None` stands for a
    failing assertion or cast of the original. */
module LayoutReading {
  import opened Wrappers
  import opened Ast
  import opened Layout
  import opened Crawl
  import opened LayoutWriting

  /** What a consume method accepts as the next node. */
  datatype Sort =
    | AnyNode | TopLevelNode | StmtNode | ExprNode | ConstantNode
    | ArgumentNode | ArgumentsNode | ContributionNode | DeclRefNode

  predicate OfSort(sort: Sort, h: Head) {
    match sort
    case AnyNode => true
    case TopLevelNode => IsTopLevel(h)
    case StmtNode => IsStmt(h)
    case ExprNode => IsExpr(h)
    case ConstantNode => IsConstantExpr(h)
    case ArgumentNode => IsArgument(h)
    case ArgumentsNode => h.ArgumentDeclList?
    case ContributionNode => h.MetaContribution?
    case DeclRefNode => h.DeclRef?
  }

  function Upcoming(s: Layout): Option<Head> {
    if s == [] then None else s[0]
  }

  /** The reader consumed one tree of the sort, or it failed because there was none. */
  ghost predicate ConsumedAs(sort: Sort, before: Layout, r: Option<Tree>, after: Layout) {
    if Upcoming(before).Some? && OfSort(sort, Upcoming(before).value) then
      ParseNode(before) == if r.Some? then Some((r.value, after)) else None
    else r.None?
  }

  /** The node `h` was opened at `start` and has the children `kids` so far. */
  ghost predicate Assembling(h: Head, start: Layout, kids: seq<Tree>, now: Layout) {
    ParseKids(h, [], start) == Prepend(kids, ParseKids(h, Heads(kids), now))
  }

  lemma AssemblingStarts(h: Head, start: Layout)
    ensures Assembling(h, start, [], start)
  {
    assert Heads([]) == [];
    match ParseKids(h, [], start)
    case None =>
    case Some(p) => assert [] + p.0 == p.0;
  }

  lemma AssemblingGrows(h: Head, start: Layout, kids: seq<Tree>, now: Layout, t: Tree, after: Layout)
    requires Assembling(h, start, kids, now)
    requires NeedsMarker(h) || |kids| < FixedCount(h)
    requires Allowed(h, Heads(kids), t.head)
    requires ParseNode(now) == Some((t, after))
    ensures Assembling(h, start, kids + [t], after)
  {
    assert now[0] == Some(t.head);
    var rest := ParseKids(h, Heads(kids) + [t.head], after);
    assert Heads(kids + [t]) == Heads(kids) + [t.head];
    assert ParseKids(h, Heads(kids), now) == Prepend([t], rest);
    if rest.Some? {
      assert kids + ([t] + rest.value.0) == (kids + [t]) + rest.value.0;
    }
  }

  lemma AssemblingFails(h: Head, start: Layout, kids: seq<Tree>, now: Layout)
    requires Assembling(h, start, kids, now)
    requires NeedsMarker(h) || |kids| < FixedCount(h)
    requires Upcoming(now).None? ==> now == [] || !Complete(h, Heads(kids))
    requires Upcoming(now).Some? ==>
               !Allowed(h, Heads(kids), Upcoming(now).value) || ParseNode(now).None?
    ensures ParseKids(h, [], start).None?
  {
  }

  function Continue(first: seq<Head>, rest: Option<seq<Head>>): Option<seq<Head>> {
    match rest
    case None => None
    case Some(more) => Some(first + more)
  }

  lemma ContinueTwice(first: seq<Head>, next: Head, rest: Option<seq<Head>>)
    ensures Continue(first, Continue([next], rest)) == Continue(first + [next], rest)
  {
    if rest.Some? {
      assert first + ([next] + rest.value) == first + [next] + rest.value;
    }
  }

  class LayoutReader {
    const layout: Layout
    var pos: nat

    ghost predicate Valid()
      reads this
    {
      pos <= |layout|
    }

    ghost function Rest(): Layout
      reads this
      requires Valid()
    {
      layout[pos..]
    }

    constructor (layout: Layout)
      ensures this.layout == layout && pos == 0 && Valid() && Rest() == layout
    {
      this.layout := layout;
      pos := 0;
    }

    /** The element at the position: fails at the end of the layout. */
    method Peek() returns (r: Option<Option<Head>>)
      requires Valid()
      ensures r == if Rest() == [] then None else Some(Rest()[0])
    {
      r := if pos < |layout| then Some(layout[pos]) else None;
    }

    /** The node at the position: fails at a marker too. */
    method PeekNode() returns (r: Option<Head>)
      requires Valid()
      ensures r == Upcoming(Rest())
    {
      var element :- Peek();
      return element;
    }

    method ShouldReduce() returns (r: Option<bool>)
      requires Valid()
      ensures r == if Rest() == [] then None else Some(Upcoming(Rest()).None?)
    {
      var element :- Peek();
      return Some(element.None?);
    }

    method Shift() returns (r: Option<Option<Head>>)
      requires Valid()
      modifies this`pos
      ensures Valid()
      ensures old(Rest()) == [] ==> r.None? && pos == old(pos)
      ensures old(Rest()) != [] ==> r == Some(old(Rest())[0]) && pos == old(pos) + 1
      ensures old(Rest()) != [] ==> Rest() == old(Rest())[1..]
    {
      var element :- Peek();
      pos := pos + 1;
      return Some(element);
    }

    method Reduce() returns (r: Option<()>)
      requires Valid()
      modifies this`pos
      ensures Valid() && pos >= old(pos)
      ensures r.Some? <==> old(Rest()) != [] && old(Rest())[0].None?
      ensures r.Some? ==> Rest() == old(Rest())[1..] && pos == old(pos) + 1
    {
      var closing :- ShouldReduce();
      if !closing {
        return None;
      }
      var marker := Shift();
      return Some(());
    }

    method CrawlExpand() returns (r: Option<()>)
      requires Valid()
      modifies this`pos
      ensures Valid() && pos >= old(pos)
      ensures SkipScope(old(Rest())) == if r.Some? then Some(Rest()) else None
      ensures r.Some? ==> pos > old(pos)
      decreases |layout| - pos
    {
      ghost var start := Rest();
      var closing :- ShouldReduce();
      while !closing
        invariant old(pos) <= pos <= |layout|
        invariant SkipScope(start) == SkipScope(Rest())
        invariant Rest() != [] && closing == Rest()[0].None?
        decreases |layout| - pos
      {
        var current := Shift();
        if NeedsMarker(current.value.value) {
          var skipped :- CrawlExpand();
        }
        closing :- ShouldReduce();
      }
      r := Reduce();
    }

    /** Hands every node of the current scope to a consumer and restores the
        position; `r` lists the nodes handed over. */
    method CrawlCurrentScope() returns (r: Option<seq<Head>>)
      requires Valid()
      modifies this`pos
      ensures Valid() && pos == old(pos)
      ensures r == Crawled(Rest())
    {
      var restore := pos;
      var consumed := [];
      ghost var start := Rest();
      var closing := ShouldReduce();
      var failed := closing.None?;
      assert Crawled(start) == Continue([], Crawled(start)) by {
        if Crawled(start).Some? {
          assert [] + Crawled(start).value == Crawled(start).value;
        }
      }
      while !failed && !closing.value
        invariant restore <= pos <= |layout|
        invariant failed ==> Crawled(start).None?
        invariant !failed ==> Rest() != [] && closing == Some(Rest()[0].None?)
        invariant !failed ==> Crawled(start) == Continue(consumed, Crawled(Rest()))
        decreases |layout| - pos, !failed
      {
        ghost var now := Rest();
        var current := Shift();
        var node := current.value.value;
        if NeedsMarker(node) {
          var skipped := CrawlExpand();
          failed := skipped.None?;
        }
        if !failed {
          assert Crawled(now) == Continue([node], Crawled(Rest()));
          ContinueTwice(consumed, node, Crawled(Rest()));
        }
        consumed := consumed + [node];
        if !failed {
          closing := ShouldReduce();
          failed := closing.None?;
        }
      }
      r := if failed then None else Some(consumed);
      assert consumed + [] == consumed;
      pos := restore;
    }

    /** Consumes the next child of the open node `h` and adds it to its children. */
    method Child(sort: Sort, ghost h: Head, ghost start: Layout, kids: seq<Tree>)
      returns (r: Option<seq<Tree>>)
      requires Valid() && Assembling(h, start, kids, Rest())
      requires NeedsMarker(h) || |kids| < FixedCount(h)
      requires Upcoming(Rest()).Some? ==>
                 (OfSort(sort, Upcoming(Rest()).value) <==> Allowed(h, Heads(kids), Upcoming(Rest()).value))
      requires Upcoming(Rest()).None? ==> Rest() == [] || !Complete(h, Heads(kids))
      modifies this`pos
      ensures Valid() && pos >= old(pos)
      ensures r.Some? ==> pos > old(pos) && Assembling(h, start, r.value, Rest())
      ensures r.Some? ==> Upcoming(old(Rest())).Some?
      ensures r.Some? ==> |r.value| == |kids| + 1 && r.value[..|kids|] == kids
      ensures r.Some? ==> r.value[|kids|].head == Upcoming(old(Rest())).value
      ensures r.Some? ==> OfSort(sort, r.value[|kids|].head)
      ensures r.None? ==> ParseKids(h, [], start).None?
      decreases |layout| - pos, 3
    {
      ghost var now := Rest();
      var t;
      match sort {
        case AnyNode => t := Consume();
        case TopLevelNode => t := ConsumeTopLevelDecl();
        case StmtNode => t := ConsumeStmt();
        case ExprNode => t := ConsumeExpr();
        case ConstantNode => t := ConsumeConstantExpr();
        case ArgumentNode => t := ConsumeAnonymousArgumentDecl();
        case ArgumentsNode => t := ConsumeArgumentDeclList();
        case ContributionNode => t := ConsumeMetaContribution();
        case DeclRefNode => t := ConsumeDeclRefExpr();
      }
      if t.None? {
        AssemblingFails(h, start, kids, now);
        return None;
      }
      AssemblingGrows(h, start, kids, now, t.value, Rest());
      return Some(kids + [t.value]);
    }

    /** Consumes children of one sort until the marker. */
    method Children(sort: Sort, ghost h: Head, ghost start: Layout, first: seq<Tree>)
      returns (r: Option<seq<Tree>>)
      requires Valid() && Assembling(h, start, first, Rest())
      requires NeedsMarker(h)
      requires forall done: seq<Head>, next :: |done| >= |first| ==> (OfSort(sort, next) <==> Allowed(h, done, next))
      modifies this`pos
      ensures Valid() && pos >= old(pos)
      ensures r.Some? ==> Assembling(h, start, r.value, Rest()) && |r.value| >= |first|
      ensures r.Some? ==> Rest() != [] && Rest()[0].None?
      ensures r.None? ==> ParseKids(h, [], start).None?
      decreases |layout| - pos, 4
    {
      var kids := first;
      var closing := ShouldReduce();
      if closing.None? {
        AssemblingFails(h, start, kids, Rest());
        return None;
      }
      while !closing.value
        invariant old(pos) <= pos <= |layout| && |kids| >= |first|
        invariant Assembling(h, start, kids, Rest())
        invariant Rest() != [] && closing == Some(Rest()[0].None?)
        decreases |layout| - pos
      {
        kids :- Child(sort, h, start, kids);
        closing := ShouldReduce();
        if closing.None? {
          AssemblingFails(h, start, kids, Rest());
          return None;
        }
      }
      return Some(kids);
    }

    /** Closes the open node `h`: at a marker, or at once when its children are counted. */
    method Close(h: Head, ghost before: Layout, kids: seq<Tree>) returns (r: Option<Tree>)
      requires Valid() && before != [] && before[0] == Some(h) && !h.Erroneous?
      requires Assembling(h, before[1..], kids, Rest())
      requires !NeedsMarker(h) ==> |kids| == FixedCount(h)
      requires NeedsMarker(h) ==> Complete(h, Heads(kids))
      requires NeedsMarker(h) && Upcoming(Rest()).Some? ==> !Allowed(h, Heads(kids), Upcoming(Rest()).value)
      modifies this`pos
      ensures Valid() && pos >= old(pos)
      ensures ParseNode(before) == if r.Some? then Some((r.value, Rest())) else None
    {
      ghost var now := Rest();
      if NeedsMarker(h) {
        var reduced := Reduce();
        if reduced.None? {
          AssemblingFails(h, before[1..], kids, now);
          return None;
        }
      }
      assert ParseKids(h, Heads(kids), now) == Some(([], Rest()));
      assert kids + [] == kids;
      return Some(Tree(h, kids));
    }

    /** Consumes any node. */
    method Consume() returns (r: Option<Tree>)
      requires Valid()
      modifies this`pos
      ensures Valid() && pos >= old(pos) && (r.Some? ==> pos > old(pos))
      ensures ConsumedAs(AnyNode, old(Rest()), r, Rest())
      decreases |layout| - pos, 1
    {
      var next :- PeekNode();
      match next {
        case CompilationUnit => r := ConsumeUnit();
        case MetaUnit(_) => r := ConsumeUnit();
        case FunctionDecl(_) => r := ConsumeFunctionDecl();
        case MetaDecl(_) => r := ConsumeMetaDecl();
        case MetaContribution => r := ConsumeMetaContribution();
        case ArgumentDeclList => r := ConsumeArgumentDeclList();
        case AnonymousArgument => r := ConsumeLeaf();
        case NamedArgument(_) => r := ConsumeLeaf();
        case GlobalConstant(_) => r := ConsumeGlobalConstantDecl();
        case UnscopedCompound => r := ConsumeCompoundStmt();
        case Compound => r := ConsumeCompoundStmt();
        case Return => r := ConsumeReturnStmt();
        case ExpressionStmt => r := ConsumeExpressionStmt();
        case DeclStmt(_) => r := ConsumeDeclStmt();
        case If => r := ConsumeIfStmt();
        case MetaIf => r := ConsumeMetaIfStmt();
        case MetaCalculation => r := ConsumeMetaCalculationStmt();
        case DeclRef(_) => r := ConsumeDeclRefExpr();
        case IntegerLiteral(_) => r := ConsumeLeaf();
        case BooleanLiteral(_) => r := ConsumeLeaf();
        case Erroneous => r := None;
        case Binary(_) => r := ConsumeBinaryOperatorExpr();
        case Call => r := ConsumeCallOperatorExpr();
        case MetaInstantiation => r := ConsumeMetaInstantiationExpr();
      }
    }

    /** Consumes a statement; a node of another kind is a failing cast. */
    method ConsumeStmt() returns (r: Option<Tree>)
      requires Valid()
      modifies this`pos
      ensures Valid() && pos >= old(pos) && (r.Some? ==> pos > old(pos))
      ensures ConsumedAs(StmtNode, old(Rest()), r, Rest())
      decreases |layout| - pos, 2
    {
      var next :- PeekNode();
      if !IsStmt(next) {
        return None;
      }
      r := Consume();
    }

    method ConsumeExpr() returns (r: Option<Tree>)
      requires Valid()
      modifies this`pos
      ensures Valid() && pos >= old(pos) && (r.Some? ==> pos > old(pos))
      ensures ConsumedAs(ExprNode, old(Rest()), r, Rest())
      decreases |layout| - pos, 2
    {
      var next :- PeekNode();
      if !IsExpr(next) {
        return None;
      }
      r := Consume();
    }

    method ConsumeTopLevelDecl() returns (r: Option<Tree>)
      requires Valid()
      modifies this`pos
      ensures Valid() && pos >= old(pos) && (r.Some? ==> pos > old(pos))
      ensures ConsumedAs(TopLevelNode, old(Rest()), r, Rest())
      decreases |layout| - pos, 2
    {
      var next :- PeekNode();
      if !IsTopLevel(next) {
        return None;
      }
      r := Consume();
    }

    method ConsumeConstantExpr() returns (r: Option<Tree>)
      requires Valid()
      modifies this`pos
      ensures Valid() && pos >= old(pos) && (r.Some? ==> pos > old(pos))
      ensures ConsumedAs(ConstantNode, old(Rest()), r, Rest())
      decreases |layout| - pos, 2
    {
      var next :- PeekNode();
      if !IsConstantExpr(next) {
        return None;
      }
      r := Consume();
    }

    /** A compilation unit or a meta unit: top-level declarations up to the marker. */
    method ConsumeUnit() returns (r: Option<Tree>)
      requires Valid() && Upcoming(Rest()).Some? && IsUnit(Upcoming(Rest()).value)
      modifies this`pos
      ensures Valid() && pos > old(pos)
      ensures ConsumedAs(AnyNode, old(Rest()), r, Rest())
      decreases |layout| - pos, 0
    {
      var node := Shift();
      AssemblingStarts(node.value.value, Rest());
      var kids :- Children(TopLevelNode, node.value.value, Rest(), []);
      r := Close(node.value.value, old(Rest()), kids);
    }

    method ConsumeFunctionDecl() returns (r: Option<Tree>)
      requires Valid() && Upcoming(Rest()).Some? && Upcoming(Rest()).value.FunctionDecl?
      modifies this`pos
      ensures Valid() && pos > old(pos)
      ensures ConsumedAs(AnyNode, old(Rest()), r, Rest())
      decreases |layout| - pos, 0
    {
      var node := Shift();
      var h := node.value.value;
      ghost var start := Rest();
      AssemblingStarts(h, start);
      var kids :- Child(ArgumentsNode, h, start, []);
      var next := PeekNode();
      if next.None? {
        AssemblingFails(h, start, kids, Rest());
        return None;
      }
      if IsArgument(next.value) {
        kids :- Child(ArgumentNode, h, start, kids);
      }
      kids :- Child(StmtNode, h, start, kids);
      r := Close(h, old(Rest()), kids);
    }

    method ConsumeArgumentDeclList() returns (r: Option<Tree>)
      requires Valid()
      modifies this`pos
      ensures Valid() && pos >= old(pos) && (r.Some? ==> pos > old(pos))
      ensures ConsumedAs(ArgumentsNode, old(Rest()), r, Rest())
      decreases |layout| - pos, 0
    {
      var node :- Shift();
      if node.None? || !node.value.ArgumentDeclList? {
        return None;
      }
      AssemblingStarts(node.value, Rest());
      var kids :- Children(ArgumentNode, node.value, Rest(), []);
      r := Close(node.value, old(Rest()), kids);
    }

    /** An argument, named or not. */
    method ConsumeAnonymousArgumentDecl() returns (r: Option<Tree>)
      requires Valid()
      modifies this`pos
      ensures Valid() && pos >= old(pos) && (r.Some? ==> pos > old(pos))
      ensures ConsumedAs(ArgumentNode, old(Rest()), r, Rest())
      decreases |layout| - pos, 1
    {
      var next :- PeekNode();
      if !IsArgument(next) {
        return None;
      }
      r := ConsumeLeaf();
    }

    /** A node without children: an argument or a literal. */
    method ConsumeLeaf() returns (r: Option<Tree>)
      requires Valid() && Upcoming(Rest()).Some?
      requires ArityOf(Upcoming(Rest()).value).Leaf? && !Upcoming(Rest()).value.Erroneous?
      modifies this`pos
      ensures Valid() && pos > old(pos)
      ensures ConsumedAs(AnyNode, old(Rest()), r, Rest())
      decreases |layout| - pos, 0
    {
      var node := Shift();
      AssemblingStarts(node.value.value, Rest());
      r := Close(node.value.value, old(Rest()), []);
    }

    method ConsumeMetaDecl() returns (r: Option<Tree>)
      requires Valid() && Upcoming(Rest()).Some? && Upcoming(Rest()).value.MetaDecl?
      modifies this`pos
      ensures Valid() && pos > old(pos)
      ensures ConsumedAs(AnyNode, old(Rest()), r, Rest())
      decreases |layout| - pos, 0
    {
      var node := Shift();
      var h := node.value.value;
      ghost var start := Rest();
      AssemblingStarts(h, start);
      var kids :- Child(ArgumentsNode, h, start, []);
      kids :- Child(ContributionNode, h, start, kids);
      r := Close(h, old(Rest()), kids);
    }

    method ConsumeGlobalConstantDecl() returns (r: Option<Tree>)
      requires Valid() && Upcoming(Rest()).Some? && Upcoming(Rest()).value.GlobalConstant?
      modifies this`pos
      ensures Valid() && pos > old(pos)
      ensures ConsumedAs(AnyNode, old(Rest()), r, Rest())
      decreases |layout| - pos, 0
    {
      var node := Shift();
      AssemblingStarts(node.value.value, Rest());
      var kids :- Child(ConstantNode, node.value.value, Rest(), []);
      r := Close(node.value.value, old(Rest()), kids);
    }

    method ConsumeMetaContribution() returns (r: Option<Tree>)
      requires Valid()
      modifies this`pos
      ensures Valid() && pos >= old(pos) && (r.Some? ==> pos > old(pos))
      ensures ConsumedAs(ContributionNode, old(Rest()), r, Rest())
      decreases |layout| - pos, 0
    {
      var node :- Shift();
      if node.None? || !node.value.MetaContribution? {
        return None;
      }
      AssemblingStarts(node.value, Rest());
      var kids :- Children(AnyNode, node.value, Rest(), []);
      r := Close(node.value, old(Rest()), kids);
    }

    method ConsumeMetaInstantiationExpr() returns (r: Option<Tree>)
      requires Valid() && Upcoming(Rest()).Some? && Upcoming(Rest()).value.MetaInstantiation?
      modifies this`pos
      ensures Valid() && pos > old(pos)
      ensures ConsumedAs(AnyNode, old(Rest()), r, Rest())
      decreases |layout| - pos, 0
    {
      var node := Shift();
      var h := node.value.value;
      ghost var start := Rest();
      AssemblingStarts(h, start);
      var kids :- Child(DeclRefNode, h, start, []);
      kids :- Children(ExprNode, h, start, kids);
      r := Close(h, old(Rest()), kids);
    }

    /** A compound, scoped or not: statements up to the marker. */
    method ConsumeCompoundStmt() returns (r: Option<Tree>)
      requires Valid() && Upcoming(Rest()).Some?
      requires Upcoming(Rest()).value.Compound? || Upcoming(Rest()).value.UnscopedCompound?
      modifies this`pos
      ensures Valid() && pos > old(pos)
      ensures ConsumedAs(AnyNode, old(Rest()), r, Rest())
      decreases |layout| - pos, 0
    {
      var node := Shift();
      AssemblingStarts(node.value.value, Rest());
      var kids :- Children(StmtNode, node.value.value, Rest(), []);
      r := Close(node.value.value, old(Rest()), kids);
    }

    method ConsumeReturnStmt() returns (r: Option<Tree>)
      requires Valid() && Upcoming(Rest()).Some? && Upcoming(Rest()).value.Return?
      modifies this`pos
      ensures Valid() && pos > old(pos)
      ensures ConsumedAs(AnyNode, old(Rest()), r, Rest())
      decreases |layout| - pos, 0
    {
      var node := Shift();
      var h := node.value.value;
      ghost var start := Rest();
      AssemblingStarts(h, start);
      var kids := [];
      var closing := ShouldReduce();
      if closing.None? {
        AssemblingFails(h, start, kids, Rest());
        return None;
      }
      if !closing.value {
        kids :- Child(ExprNode, h, start, kids);
      }
      r := Close(h, old(Rest()), kids);
    }

    method ConsumeExpressionStmt() returns (r: Option<Tree>)
      requires Valid() && Upcoming(Rest()).Some? && Upcoming(Rest()).value.ExpressionStmt?
      modifies this`pos
      ensures Valid() && pos > old(pos)
      ensures ConsumedAs(AnyNode, old(Rest()), r, Rest())
      decreases |layout| - pos, 0
    {
      var node := Shift();
      AssemblingStarts(node.value.value, Rest());
      var kids :- Child(ExprNode, node.value.value, Rest(), []);
      r := Close(node.value.value, old(Rest()), kids);
    }

    method ConsumeDeclStmt() returns (r: Option<Tree>)
      requires Valid() && Upcoming(Rest()).Some? && Upcoming(Rest()).value.DeclStmt?
      modifies this`pos
      ensures Valid() && pos > old(pos)
      ensures ConsumedAs(AnyNode, old(Rest()), r, Rest())
      decreases |layout| - pos, 0
    {
      var node := Shift();
      AssemblingStarts(node.value.value, Rest());
      var kids :- Child(ExprNode, node.value.value, Rest(), []);
      r := Close(node.value.value, old(Rest()), kids);
    }

    method ConsumeIfStmt() returns (r: Option<Tree>)
      requires Valid() && Upcoming(Rest()).Some? && Upcoming(Rest()).value.If?
      modifies this`pos
      ensures Valid() && pos > old(pos)
      ensures ConsumedAs(AnyNode, old(Rest()), r, Rest())
      decreases |layout| - pos, 0
    {
      var node := Shift();
      var h := node.value.value;
      ghost var start := Rest();
      AssemblingStarts(h, start);
      var kids :- Child(ExprNode, h, start, []);
      kids :- Child(StmtNode, h, start, kids);
      var closing := ShouldReduce();
      if closing.None? {
        AssemblingFails(h, start, kids, Rest());
        return None;
      }
      if !closing.value {
        kids :- Child(StmtNode, h, start, kids);
      }
      r := Close(h, old(Rest()), kids);
    }

    method ConsumeMetaIfStmt() returns (r: Option<Tree>)
      requires Valid() && Upcoming(Rest()).Some? && Upcoming(Rest()).value.MetaIf?
      modifies this`pos
      ensures Valid() && pos > old(pos)
      ensures ConsumedAs(AnyNode, old(Rest()), r, Rest())
      decreases |layout| - pos, 0
    {
      var node := Shift();
      var h := node.value.value;
      ghost var start := Rest();
      AssemblingStarts(h, start);
      var kids :- Child(ExprNode, h, start, []);
      kids :- Child(ContributionNode, h, start, kids);
      var closing := ShouldReduce();
      if closing.None? {
        AssemblingFails(h, start, kids, Rest());
        return None;
      }
      if !closing.value {
        kids :- Child(ContributionNode, h, start, kids);
      }
      r := Close(h, old(Rest()), kids);
    }

    method ConsumeMetaCalculationStmt() returns (r: Option<Tree>)
      requires Valid() && Upcoming(Rest()).Some? && Upcoming(Rest()).value.MetaCalculation?
      modifies this`pos
      ensures Valid() && pos > old(pos)
      ensures ConsumedAs(AnyNode, old(Rest()), r, Rest())
      decreases |layout| - pos, 0
    {
      var node := Shift();
      AssemblingStarts(node.value.value, Rest());
      var kids :- Child(StmtNode, node.value.value, Rest(), []);
      r := Close(node.value.value, old(Rest()), kids);
    }

    method ConsumeDeclRefExpr() returns (r: Option<Tree>)
      requires Valid()
      modifies this`pos
      ensures Valid() && pos >= old(pos) && (r.Some? ==> pos > old(pos))
      ensures ConsumedAs(DeclRefNode, old(Rest()), r, Rest())
      ensures var next := Upcoming(old(Rest()));
              if next.Some? && next.value.DeclRef? then r == Some(Tree(next.value, [])) && pos == old(pos) + 1
              else r.None?
      decreases |layout| - pos, 0
    {
      var node :- Shift();
      if node.None? || !node.value.DeclRef? {
        return None;
      }
      AssemblingStarts(node.value, Rest());
      assert ParseKids(node.value, [], Rest()) == Some(([], Rest()));
      r := Close(node.value, old(Rest()), []);
    }

    method ConsumeBinaryOperatorExpr() returns (r: Option<Tree>)
      requires Valid() && Upcoming(Rest()).Some? && Upcoming(Rest()).value.Binary?
      modifies this`pos
      ensures Valid() && pos > old(pos)
      ensures ConsumedAs(AnyNode, old(Rest()), r, Rest())
      decreases |layout| - pos, 0
    {
      var node := Shift();
      var h := node.value.value;
      ghost var start := Rest();
      AssemblingStarts(h, start);
      var kids :- Child(ExprNode, h, start, []);
      kids :- Child(ExprNode, h, start, kids);
      r := Close(h, old(Rest()), kids);
    }

    method ConsumeCallOperatorExpr() returns (r: Option<Tree>)
      requires Valid() && Upcoming(Rest()).Some? && Upcoming(Rest()).value.Call?
      modifies this`pos
      ensures Valid() && pos > old(pos)
      ensures ConsumedAs(AnyNode, old(Rest()), r, Rest())
      decreases |layout| - pos, 0
    {
      var node := Shift();
      var h := node.value.value;
      ghost var start := Rest();
      AssemblingStarts(h, start);
      var kids :- Child(ExprNode, h, start, []);
      kids :- Children(ExprNode, h, start, kids);
      r := Close(h, old(Rest()), kids);
    }
  }

  /** Writing a parse tree and reading the layout rebuilds it. */
  method WriteThenRead(t: Tree) returns (r: Option<Tree>)
    requires WellKinded(t)
    ensures r == Some(t)
  {
    var writer := new LayoutWriter();
    writer.Contribute(t);
    var reader := new LayoutReader(writer.layout);
    ParseEncode(t, []);
    assert writer.layout == Encode(t) + [];
    r := reader.Consume();
  }
}
