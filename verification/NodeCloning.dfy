/** Deep copies: every node of a laid out tree is cloned by itself, and reading
    the layout of the clones links them (src/AST/ASTCloner.cpp, the children
    setters of src/AST/AST.hpp, src/Parse/ASTLayout.cpp). */
module NodeCloning {
  import opened Wrappers
  import opened Ast
  import opened Layout
  import opened Sequences
  import opened LayoutReading

  /** A node as an object: reading a layout adds its children to it. */
  class Node {
    const head: Head
    var children: seq<Node>

    constructor (head: Head)
      ensures this.head == head && children == []
    {
      this.head := head;
      children := [];
    }

    method AddChild(child: Node)
      modifies this
      ensures children == old(children) + [child]
    {
      children := children + [child];
    }
  }

  /** Copies a node alone: kind and payload, no children. */
  method Clone(node: Node) returns (copy: Node)
    ensures fresh(copy) && copy.head == node.head && copy.children == []
  {
    copy := new Node(node.head);
  }

  /** The objects of a tree and how they hang together. */
  datatype NodeTree = NodeTree(node: Node, kids: seq<NodeTree>)

  type NodeLayout = seq<Node?>

  function TreeOf(nt: NodeTree): Tree
    decreases nt, 0
  {
    Tree(nt.node.head, TreesOf(nt.kids))
  }

  function TreesOf(nts: seq<NodeTree>): seq<Tree>
    decreases nts
  {
    if nts == [] then [] else [TreeOf(nts[0])] + TreesOf(nts[1..])
  }

  /** The layout that holds the objects themselves. */
  function EncodeNodes(nt: NodeTree): NodeLayout
    decreases nt, 0
  {
    [nt.node] + EncodeAllNodes(nt.kids) + ClosingNode(nt.node.head)
  }

  function EncodeAllNodes(nts: seq<NodeTree>): NodeLayout
    decreases nts
  {
    if nts == [] then [] else EncodeNodes(nts[0]) + EncodeAllNodes(nts[1..])
  }

  function ClosingNode(h: Head): NodeLayout {
    if NeedsMarker(h) then [null] else []
  }

  /** The layout of heads a layout of objects stands for. */
  function HeadsOf(layout: NodeLayout): Layout {
    seq(|layout|, i requires 0 <= i < |layout| => if layout[i] == null then None else Some(layout[i].head))
  }

  function RootNodes(nts: seq<NodeTree>): seq<Node> {
    seq(|nts|, i requires 0 <= i < |nts| => nts[i].node)
  }

  /** Every object has the objects of its children as children. */
  ghost predicate TreeLinked(nt: NodeTree)
    reads ObjectsOf(EncodeNodes(nt))
    decreases nt, 0
  {
    nt.node in ObjectsOf(EncodeNodes(nt)) && nt.node.children == RootNodes(nt.kids) &&
    ObjectsOf(EncodeAllNodes(nt.kids)) <= ObjectsOf(EncodeNodes(nt)) && AllLinked(nt.kids)
  }

  ghost predicate AllLinked(nts: seq<NodeTree>)
    reads ObjectsOf(EncodeAllNodes(nts))
    decreases nts
  {
    nts == [] ||
    (ObjectsOf(EncodeNodes(nts[0])) <= ObjectsOf(EncodeAllNodes(nts)) &&
     ObjectsOf(EncodeAllNodes(nts[1..])) <= ObjectsOf(EncodeAllNodes(nts)) &&
     TreeLinked(nts[0]) && AllLinked(nts[1..]))
  }

  function ObjectsOf(layout: NodeLayout): set<Node> {
    set n: Node | n in layout
  }

  lemma ObjectsAppend(a: NodeLayout, b: NodeLayout)
    ensures ObjectsOf(a + b) == ObjectsOf(a) + ObjectsOf(b)
  {
  }

  lemma HeadsAppend(a: NodeLayout, b: NodeLayout)
    ensures HeadsOf(a + b) == HeadsOf(a) + HeadsOf(b)
  {
  }

  lemma {:induction false} EncodesHeads(nt: NodeTree)
    ensures HeadsOf(EncodeNodes(nt)) == Encode(TreeOf(nt))
    decreases nt, 0
  {
    var node, below, closing := [nt.node], EncodeAllNodes(nt.kids), ClosingNode(nt.node.head);
    EncodesAllHeads(nt.kids);
    HeadsAppend(node + below, closing);
    HeadsAppend(node, below);
    assert HeadsOf(node) == [Some(nt.node.head)] && HeadsOf(closing) == Closing(nt.node.head);
  }

  lemma {:induction false} EncodesAllHeads(nts: seq<NodeTree>)
    ensures HeadsOf(EncodeAllNodes(nts)) == EncodeAll(TreesOf(nts))
    decreases nts
  {
    if nts != [] {
      EncodesHeads(nts[0]);
      EncodesAllHeads(nts[1..]);
      HeadsAppend(EncodeNodes(nts[0]), EncodeAllNodes(nts[1..]));
      RestOfCons(TreeOf(nts[0]), TreesOf(nts[1..]));
    }
  }

  lemma {:induction false} EncodeAllNodesAppend(a: seq<NodeTree>, b: seq<NodeTree>)
    ensures EncodeAllNodes(a + b) == EncodeAllNodes(a) + EncodeAllNodes(b) && TreesOf(a + b) == TreesOf(a) + TreesOf(b)
    decreases a
  {
    if a == [] {
      EmptyLeft(b);
      EmptyLeft(EncodeAllNodes(b));
      EmptyLeft(TreesOf(b));
    } else {
      FirstOfAppend(a, b);
      EncodeAllNodesAppend(a[1..], b);
      Assoc(EncodeNodes(a[0]), EncodeAllNodes(a[1..]), EncodeAllNodes(b));
      Assoc([TreeOf(a[0])], TreesOf(a[1..]), TreesOf(b));
    }
  }

  lemma {:induction false} AllLinkedAppend(a: seq<NodeTree>, b: seq<NodeTree>)
    requires AllLinked(a) && AllLinked(b)
    ensures AllLinked(a + b)
    decreases a
  {
    if a == [] {
      EmptyLeft(b);
    } else {
      FirstOfAppend(a, b);
      AllLinkedAppend(a[1..], b);
      ObjectsAppend(EncodeNodes(a[0]), EncodeAllNodes(a[1..] + b));
    }
  }

  lemma OneLinked(nt: NodeTree)
    requires TreeLinked(nt)
    ensures AllLinked([nt]) && EncodeAllNodes([nt]) == EncodeNodes(nt) && TreesOf([nt]) == [TreeOf(nt)]
  {
    OneTree(nt);
    assert [nt][1..] == [] && ObjectsOf(EncodeAllNodes([])) == {};
  }

  /** No object stands at two places. */
  ghost predicate Distinct(layout: NodeLayout) {
    forall i, j | 0 <= i < j < |layout| && layout[i] != null :: layout[i] != layout[j]
  }

  lemma Apart(layout: NodeLayout, i: nat, j: nat)
    requires Distinct(layout) && i <= j <= |layout|
    ensures ObjectsOf(layout[i..j]) !! ObjectsOf(layout[j..])
    ensures 0 < i && layout[i - 1] != null ==> layout[i - 1] !in ObjectsOf(layout[i..])
  {
  }

  lemma HeadsStep(layout: NodeLayout, pos: nat)
    requires pos < |layout|
    ensures HeadsOf(layout[pos..])[1..] == HeadsOf(layout[pos + 1..])
    ensures HeadsOf(layout[pos..])[0] == if layout[pos] == null then None else Some(layout[pos].head)
  {
  }

  /** The children read so far: linked objects that fill the layout from `low`
      to `high` and are what the reader has to have built. */
  ghost predicate Built(h: Head, layout: NodeLayout, low: nat, high: nat, kids: seq<NodeTree>) {
    low <= high <= |layout| && layout[low..high] == EncodeAllNodes(kids) &&
    Assembling(h, HeadsOf(layout[low..]), TreesOf(kids), HeadsOf(layout[high..]))
  }

  lemma {:induction false} TreesLength(kids: seq<NodeTree>)
    ensures |TreesOf(kids)| == |kids|
    decreases kids
  {
    if kids != [] {
      TreesLength(kids[1..]);
    }
  }

  lemma BuiltGrows(h: Head, layout: NodeLayout, low: nat, mid: nat, high: nat, kids: seq<NodeTree>, kid: NodeTree)
    requires Built(h, layout, low, mid, kids) && mid <= high <= |layout| && layout[mid..high] == EncodeNodes(kid)
    requires ParseNode(HeadsOf(layout[mid..])) == Some((TreeOf(kid), HeadsOf(layout[high..])))
    requires NeedsMarker(h) || |kids| < FixedCount(h)
    requires Allowed(h, Heads(TreesOf(kids)), kid.node.head)
    ensures Built(h, layout, low, high, kids + [kid]) && TreesOf(kids + [kid]) == TreesOf(kids) + [TreeOf(kid)]
    ensures Heads(TreesOf(kids + [kid])) == Heads(TreesOf(kids)) + [kid.node.head]
  {
    hide EncodeNodes, EncodeAllNodes, TreesOf, ParseNode, Assembling;
    assert layout[low..high] == layout[low..mid] + layout[mid..high];
    OneTree(kid);
    EncodeAllNodesAppend(kids, [kid]);
    TreesLength(kids);
    HeadsOfOne(TreesOf(kids), TreeOf(kid));
    AssemblingGrows(h, HeadsOf(layout[low..]), TreesOf(kids), HeadsOf(layout[mid..]), TreeOf(kid),
                  HeadsOf(layout[high..]));
  }

  lemma OneTree(kid: NodeTree)
    ensures EncodeAllNodes([kid]) == EncodeNodes(kid) && TreesOf([kid]) == [TreeOf(kid)] &&
            TreeOf(kid).head == kid.node.head
  {
    assert [kid][1..] == [];
    EmptyRight(EncodeNodes(kid));
  }

  lemma HeadsOfOne(ts: seq<Tree>, t: Tree)
    ensures Heads(ts + [t]) == Heads(ts) + [t.head]
  {
  }

  lemma BuiltEnds(h: Head, layout: NodeLayout, low: nat, high: nat, kids: seq<NodeTree>)
    requires Built(h, layout, low, high, kids)
    requires if NeedsMarker(h) then high < |layout| && layout[high] == null && Complete(h, Heads(TreesOf(kids)))
             else |kids| == FixedCount(h)
    ensures var end := if NeedsMarker(h) then high + 1 else high;
            ParseKids(h, [], HeadsOf(layout[low..])) == Some((TreesOf(kids), HeadsOf(layout[end..]))) &&
            layout[low..end] == EncodeAllNodes(kids) + ClosingNode(h)
  {
    TreesLength(kids);
    EmptyRight(TreesOf(kids));
    if NeedsMarker(h) {
      HeadsStep(layout, high);
      assert layout[low..high + 1] == layout[low..high] + [layout[high]];
    } else {
      EmptyRight(EncodeAllNodes(kids));
    }
  }

  /** Reads a layout of objects and links them. */
  class NodeReader {
    const layout: NodeLayout
    var pos: nat

    constructor (layout: NodeLayout)
      ensures this.layout == layout && pos == 0
    {
      this.layout := layout;
      pos := 0;
    }

    ghost predicate Valid()
      reads this
    {
      pos <= |layout| && Distinct(layout)
    }

    /** From here on no object has children yet. */
    ghost predicate Bare(from: nat)
      reads ObjectsOf(layout[if from <= |layout| then from else |layout|..])
    {
      from <= |layout| && forall n | n in ObjectsOf(layout[from..]) :: n.children == []
    }

    /** Consumes a node with everything below it: the objects of the layout
        become the tree the layout encodes. */
    method Consume() returns (r: Option<Node>, ghost nt: Option<NodeTree>)
      requires Valid() && Bare(pos)
      modifies this`pos, ObjectsOf(layout[pos..])
      ensures Valid() && pos >= old(pos) && Bare(pos) && (r.Some? <==> nt.Some?)
      ensures r.Some? ==> pos > old(pos) && r.value == nt.value.node && TreeLinked(nt.value)
      ensures r.Some? ==> layout[old(pos)..pos] == EncodeNodes(nt.value)
      ensures ParseNode(HeadsOf(layout[old(pos)..])) ==
              if r.Some? then Some((TreeOf(nt.value), HeadsOf(layout[pos..]))) else None
      decreases |layout| - pos, 0
    {
      hide ParseKids, Assembling, Built, Allowed, Complete, FixedCount, EncodeNodes, EncodeAllNodes, TreeLinked,
           AllLinked, Distinct, TreesOf, ClosingNode, RootNodes;
      nt := None;
      if pos == |layout| || layout[pos] == null || layout[pos].head.Erroneous? {
        return None, None;
      }
      var node := layout[pos];
      var done: seq<Head> := [];
      ghost var kids: seq<NodeTree> := [];
      ghost var low := pos + 1;
      HeadsStep(layout, pos);
      BuiltStarts(node.head, layout, low);
      Apart(layout, low, low);
      BareLater(pos, low);
      pos := pos + 1;
      while if NeedsMarker(node.head) then pos == |layout| || layout[pos] != null else |done| < FixedCount(node.head)
        invariant low <= pos <= |layout| && Bare(pos) && ReadsOn(node, low, kids, done)
        invariant !NeedsMarker(node.head) ==> |done| <= FixedCount(node.head)
        decreases |layout| - pos
      {
        ghost var kid;
        var ok;
        ok, done, kid := ConsumeChild(node, done, low, kids);
        if !ok {
          return None, None;
        }
        kids := kids + [kid.value];
      }
      if NeedsMarker(node.head) && !Complete(node.head, done) {
        BuiltFails(node.head, layout, low, pos, kids);
        return None, None;
      }
      BuiltEnds(node.head, layout, low, pos, kids);
      BuiltObjects(node.head, layout, low, pos, kids);
      if NeedsMarker(node.head) {
        BareLater(pos, pos + 1);
        pos := pos + 1;
      }
      nt := Some(NodeTree(node, kids));
      WholeLinked(nt.value);
      WholeEncodes(layout, low, pos, nt.value);
      return Some(node), nt;
    }

    /** The node has the children read so far, which fill the layout from `low`. */
    ghost predicate ReadsOn(node: Node, low: nat, kids: seq<NodeTree>, done: seq<Head>)
      reads this, node, ObjectsOf(EncodeAllNodes(kids))
    {
      0 < low <= pos <= |layout| && layout[low - 1] == node &&
      Built(node.head, layout, low, pos, kids) && AllLinked(kids) &&
      node.children == RootNodes(kids) && done == Heads(TreesOf(kids)) && |done| == |kids|
    }

    /** Consumes the next child of a node and adds it to its children. */
    method ConsumeChild(node: Node, done: seq<Head>, ghost low: nat, ghost kids: seq<NodeTree>)
      returns (ok: bool, next: seq<Head>, ghost kid: Option<NodeTree>)
      requires Valid() && Bare(pos) && ReadsOn(node, low, kids, done)
      requires if NeedsMarker(node.head) then pos == |layout| || layout[pos] != null else |done| < FixedCount(node.head)
      modifies this`pos, node, ObjectsOf(layout[pos..])
      ensures Valid() && pos >= old(pos) && Bare(pos)
      ensures ok ==> pos > old(pos) && kid.Some? && ReadsOn(node, low, kids + [kid.value], next)
      ensures !ok ==> 0 < low <= |layout| && ParseKids(node.head, [], HeadsOf(layout[low..])).None?
      decreases |layout| - pos, 1
    {
      hide ParseKids, Assembling, Built, Allowed, Complete, FixedCount, EncodeNodes, EncodeAllNodes, TreeLinked,
           AllLinked, Distinct, TreesOf;
      ghost var mid := pos;
      if pos == |layout| || layout[pos] == null || !Allowed(node.head, done, layout[pos].head) {
        BuiltFails(node.head, layout, low, pos, kids);
        return false, done, None;
      }
      Apart(layout, low, mid);
      Later(layout, low, mid);
      BuiltObjects(node.head, layout, low, mid, kids);
      var child;
      child, kid := Consume();
      if child.None? {
        BuiltFails(node.head, layout, low, mid, kids);
        return false, done, None;
      }
      Later(layout, low, pos);
      BuiltGrows(node.head, layout, low, mid, pos, kids, kid.value);
      BuiltObjects(node.head, layout, low, pos, kids + [kid.value]);
      OneLinked(kid.value);
      AllLinkedAppend(kids, [kid.value]);
      RootsOfOne(kids, kid.value);
      Apart(layout, low, pos);
      SliceWithin(layout, low, pos);
      node.AddChild(child.value);
      return true, done + [child.value.head], kid;
    }

    lemma BareLater(from: nat, later: nat)
      requires Bare(from) && from <= later <= |layout|
      ensures Bare(later)
    {
      Later(layout, from, later);
    }
  }

  /** What lies later in the layout lies in it. */
  lemma Later(layout: NodeLayout, i: nat, j: nat)
    requires i <= j <= |layout|
    ensures ObjectsOf(layout[j..]) <= ObjectsOf(layout[i..])
  {
    assert layout[i..][j - i..] == layout[j..];
  }

  lemma BuiltStarts(h: Head, layout: NodeLayout, low: nat)
    requires low <= |layout|
    ensures Built(h, layout, low, low, []) && AllLinked([]) && TreesOf([]) == [] && Heads(TreesOf([])) == [] &&
            RootNodes([]) == []
  {
    AssemblingStarts(h, HeadsOf(layout[low..]));
    assert layout[low..low] == [];
  }

  /** The children built lie between their places in the layout. */
  lemma BuiltObjects(h: Head, layout: NodeLayout, low: nat, high: nat, kids: seq<NodeTree>)
    requires Built(h, layout, low, high, kids)
    ensures ObjectsOf(EncodeAllNodes(kids)) == ObjectsOf(layout[low..high])
  {
  }

  /** Where the reader gives up, there is nothing to parse. */
  lemma BuiltFails(h: Head, layout: NodeLayout, low: nat, high: nat, kids: seq<NodeTree>)
    requires Built(h, layout, low, high, kids) && (NeedsMarker(h) || |kids| < FixedCount(h))
    requires high < |layout| && layout[high] == null ==> !NeedsMarker(h) || !Complete(h, Heads(TreesOf(kids)))
    requires high < |layout| && layout[high] != null ==>
               !Allowed(h, Heads(TreesOf(kids)), layout[high].head) || ParseNode(HeadsOf(layout[high..])).None?
    ensures ParseKids(h, [], HeadsOf(layout[low..])).None?
  {
    TreesLength(kids);
    if !NeedsMarker(h) && high < |layout| && layout[high] == null {
      CountedFails(h, layout, low, high, kids);
    } else {
      AssemblingFails(h, HeadsOf(layout[low..]), TreesOf(kids), HeadsOf(layout[high..]));
    }
  }

  lemma CountedFails(h: Head, layout: NodeLayout, low: nat, high: nat, kids: seq<NodeTree>)
    requires Built(h, layout, low, high, kids) && !NeedsMarker(h) && |kids| < FixedCount(h)
    requires high < |layout| && layout[high] == null
    ensures ParseKids(h, [], HeadsOf(layout[low..])).None?
  {
    TreesLength(kids);
    HeadsStep(layout, high);
  }

  lemma SliceWithin(layout: NodeLayout, i: nat, j: nat)
    requires i <= j <= |layout|
    ensures ObjectsOf(layout[i..j]) <= ObjectsOf(layout[i..])
  {
    assert layout[i..] == layout[i..j] + layout[j..];
  }

  lemma RootsOfOne(kids: seq<NodeTree>, kid: NodeTree)
    ensures RootNodes(kids + [kid]) == RootNodes(kids) + [kid.node]
  {
  }

  lemma WholeEncodes(layout: NodeLayout, low: nat, end: nat, nt: NodeTree)
    requires 0 < low <= end <= |layout| && layout[low - 1] == nt.node
    requires layout[low..end] == EncodeAllNodes(nt.kids) + ClosingNode(nt.node.head)
    ensures layout[low - 1..end] == EncodeNodes(nt)
  {
    assert layout[low - 1..end] == [nt.node] + layout[low..end];
    Assoc([nt.node], EncodeAllNodes(nt.kids), ClosingNode(nt.node.head));
  }

  lemma WholeLinked(nt: NodeTree)
    requires AllLinked(nt.kids) && nt.node.children == RootNodes(nt.kids)
    ensures TreeLinked(nt)
  {
    ObjectsAppend([nt.node] + EncodeAllNodes(nt.kids), ClosingNode(nt.node.head));
    ObjectsAppend([nt.node], EncodeAllNodes(nt.kids));
  }

  /** Clones every object of a layout; markers stay markers. */
  method CloneLayout(layout: NodeLayout) returns (copy: NodeLayout)
    ensures HeadsOf(copy) == HeadsOf(layout) && Distinct(copy)
    ensures forall n | n in ObjectsOf(copy) :: fresh(n) && n.children == []
  {
    copy := [];
    for i := 0 to |layout|
      invariant |copy| == i && Distinct(copy)
      invariant forall k | 0 <= k < i :: (copy[k] == null <==> layout[k] == null)
      invariant forall k | 0 <= k < i && copy[k] != null ::
                  fresh(copy[k]) && copy[k].children == [] && copy[k].head == layout[k].head
    {
      if layout[i] == null {
        copy := copy + [null];
      } else {
        var one := Clone(layout[i]);
        copy := copy + [one];
      }
    }
  }

  /** Shallow clones of the nodes of an encoded tree, read again, are a deep
      copy: an equal tree of new objects only, none of them at two places, and
      the original is what it was. */
  method DeepCopy(ghost original: NodeTree, layout: NodeLayout) returns (r: Option<Node>, ghost copy: Option<NodeTree>)
    requires layout == EncodeNodes(original) && WellKinded(TreeOf(original)) && TreeLinked(original)
    ensures r.Some? && copy.Some? && r.value == copy.value.node && TreeLinked(copy.value)
    ensures TreeOf(copy.value) == TreeOf(original) && TreeLinked(original)
    ensures Distinct(EncodeNodes(copy.value)) && forall n | n in ObjectsOf(EncodeNodes(copy.value)) :: fresh(n)
  {
    var clones := CloneLayout(layout);
    var reader := new NodeReader(clones);
    assert clones[0..] == clones;
    r, copy := reader.Consume();
    EncodesHeads(original);
    EmptyRight(Encode(TreeOf(original)));
    ParseEncode(TreeOf(original), []);
    assert HeadsOf(clones[reader.pos..]) == [];
    assert |clones[reader.pos..]| == 0;
    assert clones[..reader.pos] == clones;
  }
}
