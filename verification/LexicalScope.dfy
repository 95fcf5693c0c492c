/** Lexical visibility, defined by the places of nodes alone, and the proof that
    the reader binds by it. */
module LexicalScope {
  import opened Wrappers
  import opened Ast
  import opened DependencyAnalysis
  import opened Binding

  /** A declaration that takes effect stands at the place. */
  predicate DeclaresAt(t: Tree, q: Path, mode: Mode) {
    NodeAt(t, q).Some? && Introduces(NodeAt(t, q).value.head) && !ModeAt(t, q, mode).InsideMetaDecl?
  }

  predicate OpensAt(t: Tree, q: Path) {
    NodeAt(t, q).Some? && Opens(NodeAt(t, q).value.head)
  }

  /** `q` is read to its end before `p` is begun. */
  ghost predicate Precedes(q: Path, p: Path) {
    exists k: nat :: k < |q| && k < |p| && q[..k] == p[..k] && q[k] < p[k]
  }

  /** Every scope that `q` stands in holds `p` as well. */
  ghost predicate InItsScope(t: Tree, q: Path, p: Path) {
    forall k: nat | k < |q| && OpensAt(t, q[..k]) :: k < |p| && q[..k] == p[..k]
  }

  /** The declaration at `q` is visible at `p`. */
  ghost predicate VisibleAt(t: Tree, q: Path, p: Path, mode: Mode) {
    DeclaresAt(t, q, mode) && Precedes(q, p) && InItsScope(t, q, p)
  }

  /** No scope lies between the root and the place. */
  ghost predicate Unscoped(t: Tree, q: Path) {
    forall k: nat | k < |q| :: !OpensAt(t, q[..k])
  }

  function DeclOf(w: Where, t: Tree, at: Path, q: Path): Decl
    requires NodeAt(t, q).Some?
  {
    var node := NodeAt(t, q).value;
    Decl(w.unit, w.top, at + q, node.head)
  }

  lemma PathStep(at: Path, q: Path)
    requires q != []
    ensures at + [q[0]] + q[1..] == at + q
    ensures forall k: nat | k < |q[1..]| :: q[..k + 1] == [q[0]] + q[1..][..k] && q[..k + 1][1..] == q[1..][..k]
  {
  }

  lemma {:induction false} LeavesFound(w: Where, t: Tree, at: Path, q: Path, mode: Mode)
    requires DeclaresAt(t, q, mode) && Unscoped(t, q)
    ensures DeclOf(w, t, at, q) in Leaves(w, t, at, mode)
    decreases q
  {
    if q == [] {
      assert at + q == at;
    } else {
      var j, rest := q[0], q[1..];
      var kid := t.kids[j];
      PathStep(at, q);
      assert !OpensAt(t, q[..0]);
      forall k: nat | k < |rest|
        ensures !OpensAt(kid, rest[..k])
      {
        assert !OpensAt(t, q[..k + 1]);
      }
      LeavesFound(w, kid, at + [j], rest, KidMode(t.head, j, mode));
      LeavesOfKid(w, t.head, t.kids, at, 0, j, mode);
      assert at + [0 + j] == at + [j];
    }
  }

  lemma {:induction false} LeavesOfKid(w: Where, h: Head, ts: seq<Tree>, at: Path, i: nat, j: nat, mode: Mode)
    requires j < |ts|
    ensures forall d | d in Leaves(w, ts[j], at + [i + j], KidMode(h, i + j, mode)) ::
              d in LeavesOf(w, h, ts, at, i, mode)
    decreases ts
  {
    if j != 0 {
      LeavesOfKid(w, h, ts[1..], at, i + 1, j - 1, mode);
    }
  }

  lemma {:induction false} LeavesAreFound(w: Where, t: Tree, at: Path, mode: Mode, d: Decl) returns (q: Path)
    requires d in Leaves(w, t, at, mode)
    ensures DeclaresAt(t, q, mode) && Unscoped(t, q) && d == DeclOf(w, t, at, q)
    decreases t, 1
  {
    if !Opens(t.head) && d in LeavesOf(w, t.head, t.kids, at, 0, mode) {
      assert t.kids[..|t.kids|] == t.kids;
      q := LeavesOfAreFound(w, t, at, |t.kids|, mode, d);
      forall k: nat | k < |q|
        ensures !OpensAt(t, q[..k])
      {
        PathStep(at, q);
        if k != 0 {
          assert !OpensAt(t.kids[q[0]], q[1..][..k - 1]);
          assert q[..k] == q[..k - 1 + 1];
        }
      }
    } else {
      q := [];
      assert at + q == at;
    }
  }

  /** A declaration left by one of the first `n` children. */
  lemma {:induction false} LeavesOfAreFound(w: Where, t: Tree, at: Path, n: nat, mode: Mode, d: Decl) returns (q: Path)
    requires n <= |t.kids| && d in LeavesOf(w, t.head, t.kids[..n], at, 0, mode)
    ensures q != [] && q[0] < n && Unscoped(t.kids[q[0]], q[1..])
    ensures DeclaresAt(t, q, mode) && d == DeclOf(w, t, at, q)
    decreases t, 0, n
  {
    var j := WhichKid(w, t.head, t.kids[..n], at, 0, mode, d);
    var rest := LeavesAreFound(w, t.kids[j], at + [j], KidMode(t.head, j, mode), d);
    q := [j] + rest;
    assert q[1..] == rest;
    assert at + [j] + rest == at + q;
  }

  lemma {:induction false} WhichKid(w: Where, h: Head, ts: seq<Tree>, at: Path, i: nat, mode: Mode, d: Decl)
    returns (j: nat)
    requires d in LeavesOf(w, h, ts, at, i, mode)
    ensures j < |ts| && d in Leaves(w, ts[j], at + [i + j], KidMode(h, i + j, mode))
    decreases ts
  {
    hide Leaves;
    if d in Leaves(w, ts[0], at + [i], KidMode(h, i, mode)) {
      j := 0;
      assert i + 0 == i;
    } else {
      j := WhichKid(w, h, ts[1..], at, i + 1, mode, d);
      j := j + 1;
    }
  }

  lemma {:induction false} VisibleIsSeen(w: Where, t: Tree, at: Path, q: Path, p: Path, mode: Mode)
    requires VisibleAt(t, q, p, mode) && NodeAt(t, p).Some?
    ensures DeclOf(w, t, at, q) in SeesAt(w, t, at, p, mode)
    decreases p
  {
    var k: nat :| k < |q| && k < |p| && q[..k] == p[..k] && q[k] < p[k];
    var j, i := q[0], p[0];
    PathStep(at, q);
    PathStep(at, p);
    if k == 0 {
      forall m: nat | m < |q[1..]|
        ensures !OpensAt(t.kids[j], q[1..][..m])
      {
        assert q[..m + 1][0] == j && (m + 1 < |p| ==> p[..m + 1][0] == i);
        assert !OpensAt(t, q[..m + 1]);
      }
      LeavesFound(w, t.kids[j], at + [j], q[1..], KidMode(t.head, j, mode));
      LeavesOfKid(w, t.head, t.kids[..i], at, 0, j, mode);
      assert at + [0 + j] == at + [j];
    } else {
      assert q[..k][0] == p[..k][0];
      assert q[1..][..k - 1] == q[..k][1..] && p[1..][..k - 1] == p[..k][1..];
      assert Precedes(q[1..], p[1..]);
      forall m: nat | m < |q[1..]| && OpensAt(t.kids[i], q[1..][..m])
        ensures m < |p[1..]| && q[1..][..m] == p[1..][..m]
      {
        assert OpensAt(t, q[..m + 1]);
        assert q[..m + 1] == p[..m + 1];
        assert q[1..][..m] == q[..m + 1][1..] && p[1..][..m] == p[..m + 1][1..];
      }
      VisibleIsSeen(w, t.kids[i], at + [i], q[1..], p[1..], KidMode(t.head, i, mode));
    }
  }

  lemma {:induction false} SeenIsVisible(w: Where, t: Tree, at: Path, p: Path, mode: Mode, d: Decl) returns (q: Path)
    requires d in SeesAt(w, t, at, p, mode)
    ensures VisibleAt(t, q, p, mode) && d == DeclOf(w, t, at, q)
    decreases p
  {
    var i := p[0];
    if d in LeavesOf(w, t.head, t.kids[..i], at, 0, mode) {
      q := LeavesOfAreFound(w, t, at, i, mode, d);
      assert q[..0] == p[..0];
      assert Precedes(q, p);
      forall k: nat | 0 < k < |q|
        ensures !OpensAt(t, q[..k])
      {
        PathStep(at, q);
        assert q[..k - 1 + 1][1..] == q[1..][..k - 1];
        assert !OpensAt(t.kids[q[0]], q[1..][..k - 1]);
      }
      assert InItsScope(t, q, p);
    } else {
      var rest := SeenIsVisible(w, t.kids[i], at + [i], p[1..], KidMode(t.head, i, mode), d);
      q := [i] + rest;
      assert q[1..] == rest;
      assert at + [i] + rest == at + q;
      var k: nat :| k < |rest| && k < |p[1..]| && rest[..k] == p[1..][..k] && rest[k] < p[1..][k];
      assert q[..k + 1] == [i] + rest[..k] && p[..k + 1] == [i] + p[1..][..k];
      assert Precedes(q, p);
      forall m: nat | m < |q| && OpensAt(t, q[..m])
        ensures m < |p| && q[..m] == p[..m]
      {
        if m != 0 {
          assert q[..m][1..] == rest[..m - 1];
          assert OpensAt(t.kids[i], rest[..m - 1]);
          assert q[..m] == [i] + rest[..m - 1] && p[..m] == [i] + p[1..][..m - 1];
        }
      }
    }
  }

  /** Reading a top-level declaration without an error binds every reference
      outside copied code to the one declaration of its name that is lexically
      visible there, or, when there is none, to what the name means outside;
      references in copied code stay unbound. */
  lemma BindsLexically(w: Where, t: Tree, chain: Chain, p: Path)
    requires Read(w, t, [], chain, Outside).ok && Keyed(chain)
    requires NodeAt(t, p).Some? && NodeAt(t, p).value.head.DeclRef?
    ensures var x := NodeAt(t, p).value.head.name;
            var bindings := Read(w, t, [], chain, Outside).bindings;
            if ModeAt(t, p, Outside).InsideMetaDecl? then p !in bindings
            else
              p in bindings &&
              (forall q | VisibleAt(t, q, p, Outside) && NodeAt(t, q).value.head.name == x ::
                 bindings[p] == DeclOf(w, t, [], q) && Lookup(chain, x).None?) &&
              ((forall q | VisibleAt(t, q, p, Outside) :: NodeAt(t, q).value.head.name != x) ==>
                 Some(bindings[p]) == Lookup(chain, x))
  {
    var x := NodeAt(t, p).value.head.name;
    var bindings := Read(w, t, [], chain, Outside).bindings;
    ReferenceBinds(w, t, [], chain, Outside, p);
    assert [] + p == p;
    if !ModeAt(t, p, Outside).InsideMetaDecl? {
      forall q | VisibleAt(t, q, p, Outside) && NodeAt(t, q).value.head.name == x
        ensures bindings[p] == DeclOf(w, t, [], q) && Lookup(chain, x).None?
      {
        VisibleIsSeen(w, t, [], q, p, Outside);
        assert Named(DeclOf(w, t, [], q), x);
        if Lookup(chain, x).Some? {
          var d := Lookup(chain, x).value;
          assert Named(d, x) && In(chain, d);
          assert d == DeclOf(w, t, [], q);
          SeenIsFresh(w, t, [], chain, Outside, p, d);
        }
      }
      if forall q | VisibleAt(t, q, p, Outside) :: NodeAt(t, q).value.head.name != x {
        var d := bindings[p];
        if d in SeesAt(w, t, [], p, Outside) {
          var q := SeenIsVisible(w, t, [], p, Outside, d);
        }
      }
    }
  }

  /** What is seen inside was not known outside. */
  lemma {:induction false} SeenIsFresh(w: Where, t: Tree, at: Path, chain: Chain, mode: Mode, p: Path, d: Decl)
    requires Read(w, t, at, chain, mode).ok && Keyed(chain) && d in SeesAt(w, t, at, p, mode)
    ensures IsNamedDecl(d.head) && Lookup(chain, d.head.name).None?
    decreases p
  {
    var k, rest := p[0], p[1..];
    var inner := if Opens(t.head) then [map[]] + chain else chain;
    forall x
      ensures Lookup(inner, x) == Lookup(chain, x)
    {
      EnterKeepsLookup(chain, x);
    }
    var there := ReadKids(w, t.head, t.kids[..k], at, 0, inner, mode).chain;
    ReadIsKids(w, t, at, k, chain, mode);
    ReadChild(w, t, at, k, chain, mode);
    ReadKidsAdds(w, t.head, t.kids[..k], at, 0, inner, mode);
    if d !in LeavesOf(w, t.head, t.kids[..k], at, 0, mode) {
      SeenIsFresh(w, t.kids[k], at + [k], there, KidMode(t.head, k, mode), rest, d);
      if Lookup(chain, d.head.name).Some? {
        ReadKidsExtends(w, t.head, t.kids[..k], at, 0, inner, mode, d.head.name);
      }
    }
  }
}
