/** Appends nodes and markers to a layout (ASTLayoutWriter in
    src/Parse/ASTLayout.cpp, contributeFromImpl in
    src/Parse/LocalScopeVisitor.cpp). */
module LayoutWriting {
  import opened Ast
  import opened Kinds
  import opened Layout
  import opened Sequences
  import opened Wrappers

  class LayoutWriter {
    var layout: Layout

    constructor ()
      ensures layout == []
    {
      layout := [];
    }

    method DirectWrite(node: Head)
      modifies this
      ensures layout == old(layout) + [Some(node)]
    {
      layout := layout + [Some(node)];
    }

    method MarkReduce()
      modifies this
      ensures layout == old(layout) + [None]
    {
      layout := layout + [None];
    }

    /** Writes the node and closes its scope at once. */
    method Write(node: Head)
      modifies this
      ensures layout == old(layout) + Encode(Tree(node, []))
    {
      DirectWrite(node);
      if NeedsMarker(node) {
        MarkReduce();
      }
      assert EncodeAll([]) == [];
    }

    /** Visits a parse tree: the node first, then its children, then the
        marker when the node has a variable number of children. */
    method Contribute(t: Tree)
      requires WellKinded(t)
      modifies this
      ensures layout == old(layout) + Encode(t)
      ensures Encode(t) == [Some(t.head)] + EncodeAll(t.kids) + (if SizesVary(t.head) then [None] else [])
      decreases t
    {
      DirectWrite(t.head);
      ghost var start := layout;
      for i := 0 to |t.kids|
        invariant layout == start + EncodeAll(t.kids[..i])
      {
        KidsFitAt(t.head, [], t.kids, i);
        Contribute(t.kids[i]);
        assert t.kids[..i + 1] == t.kids[..i] + [t.kids[i]];
        EncodeAllAppend(t.kids[..i], [t.kids[i]]);
        EncodeOne(t.kids[i]);
        Assoc(start, EncodeAll(t.kids[..i]), Encode(t.kids[i]));
      }
      assert t.kids[..|t.kids|] == t.kids;
      if NeedsMarker(t.head) {
        MarkReduce();
      }
      LayoutOf(t);
    }
  }
}
