/** Reading a unit: its top-level declarations are introduced first, then every
    one is read (introduceScope, consumeCompilationUnit and consumeMetaUnit in
    src/Parse/ASTLayout.cpp). */
module UnitBinding {
  import opened Wrappers
  import opened Ast
  import opened Crawl
  import opened DependencyAnalysis
  import opened Binding
  import opened LexicalScope

  /** A unit under construction: a meta unit knows the declaration it
      instantiates and, later, the node it exports. */
  datatype Top = Top(chain: Chain, exported: Option<Decl>, ok: bool)

  function TopDecl(u: nat, h: Head): Decl {
    Decl(u, h, [], h)
  }

  /** Only the exported node of a meta unit may shadow a declaration: the meta
      declaration the unit instantiates. */
  predicate MayShadow(instantiates: Option<Decl>, exported: Option<Decl>, d: Decl, previous: Decl) {
    previous.head.MetaDecl? && instantiates == Some(previous) && exported == Some(d)
  }

  predicate IsExported(instantiates: Option<Decl>, h: Head) {
    instantiates.Some? && IsNamedDecl(h) && IsNamedDecl(instantiates.value.head) &&
      h.name == instantiates.value.head.name
  }

  /** Introduces the named declarations the crawl hands over. */
  function IntroduceTops(u: nat, instantiates: Option<Decl>, hs: seq<Head>, top: Top): Top
    decreases hs
  {
    if hs == [] then top
    else IntroduceTops(u, instantiates, hs[1..], IntroduceTop(u, instantiates, hs[0], top))
  }

  function IntroduceTop(u: nat, instantiates: Option<Decl>, h: Head, top: Top): Top {
    if !IsNamedDecl(h) || top.chain == [] then top
    else
      var d := TopDecl(u, h);
      var exported := if IsExported(instantiates, h) then Some(d) else top.exported;
      var previous := Lookup(top.chain, h.name);
      if previous.Some? && !MayShadow(instantiates, exported, d, previous.value)
      then top.(exported := exported, ok := false)
      else Top([top.chain[0][h.name := d]] + top.chain[1..], exported, top.ok)
  }

  /** A whole unit: what it introduces, and the readings of its declarations. */
  datatype UnitReading = UnitReading(top: Top, readings: seq<Reading>, ok: bool)

  function ReadUnit(u: nat, instantiates: Option<Decl>, outer: Chain, kids: seq<Tree>): UnitReading {
    var top := IntroduceTops(u, instantiates, NamedDecls(Exposed(kids)), Top([map[]] + outer, None, true));
    var readings := ReadTops(u, kids, top.chain);
    UnitReading(top, readings, top.ok && AllOk(readings))
  }

  function ReadTops(u: nat, kids: seq<Tree>, chain: Chain): seq<Reading>
    decreases kids
  {
    if kids == [] then []
    else
      var first := Read(Where(u, kids[0].head), kids[0], [], chain, Outside);
      [first] + ReadTops(u, kids[1..], first.chain)
  }

  predicate AllOk(rs: seq<Reading>) {
    forall i | 0 <= i < |rs| :: rs[i].ok
  }

  // The top layer of an error-free read

  /** How many of the nodes declare the name. */
  function Count(hs: seq<Head>, x: Name): nat {
    if hs == [] then 0 else (if IsNamedDecl(hs[0]) && hs[0].name == x then 1 else 0) + Count(hs[1..], x)
  }

  /** The name is free outside, or belongs to the meta declaration that is instantiated. */
  predicate Free(instantiates: Option<Decl>, outer: Chain, x: Name) {
    match Lookup(outer, x)
    case None => true
    case Some(d) => d.head.MetaDecl? && d.head.name == x && instantiates == Some(d)
  }

  ghost predicate NoneTwice(hs: seq<Head>) {
    forall x :: Count(hs, x) <= 1
  }

  ghost predicate TopsFit(instantiates: Option<Decl>, outer: Chain, hs: seq<Head>) {
    NoneTwice(hs) && forall h | h in hs && IsNamedDecl(h) :: Free(instantiates, outer, h.name)
  }

  /** The layer that holds the declarations of the nodes under their names. */
  ghost predicate IsLayer(u: nat, hs: seq<Head>, layer: Layer) {
    (forall h | h in hs && IsNamedDecl(h) :: h.name in layer && layer[h.name] == TopDecl(u, h)) &&
    forall x | x in layer :: Count(hs, x) != 0
  }

  lemma {:induction false} CountSome(hs: seq<Head>, x: Name)
    ensures Count(hs, x) != 0 <==> exists h :: h in hs && IsNamedDecl(h) && h.name == x
    decreases hs
  {
    if hs != [] {
      CountSome(hs[1..], x);
      assert forall h :: h in hs <==> h == hs[0] || h in hs[1..];
    }
  }

  lemma {:induction false} CountAppend(a: seq<Head>, b: seq<Head>, x: Name)
    ensures Count(a + b, x) == Count(a, x) + Count(b, x)
    decreases a
  {
    if a == [] {
      assert a + b == b;
    } else {
      assert (a + b)[1..] == a[1..] + b;
      CountAppend(a[1..], b, x);
    }
  }

  /** Introducing nodes after others: free of errors exactly when names stay
      unique, and then the layer holds them all. */
  lemma {:induction false} TopsIntroduced(u: nat, instantiates: Option<Decl>, outer: Chain, done: seq<Head>,
                                          hs: seq<Head>,
                                          top: Top)
    requires instantiates.Some? ==> instantiates.value.unit != u
    requires top.chain != [] && top.chain[1..] == outer
    requires top.ok ==> TopsFit(instantiates, outer, done) && IsLayer(u, done, top.chain[0])
    requires !top.ok ==> !TopsFit(instantiates, outer, done)
    requires top.exported.Some? ==> IsExported(instantiates, top.exported.value.head)
    ensures var r := IntroduceTops(u, instantiates, hs, top);
            (r.ok <==> TopsFit(instantiates, outer, done + hs)) && r.chain != [] && r.chain[1..] == outer &&
            (r.ok ==> IsLayer(u, done + hs, r.chain[0]))
    decreases hs
  {
    if hs == [] {
      assert done + hs == done;
    } else {
      var next := IntroduceTop(u, instantiates, hs[0], top);
      TopIntroduced(u, instantiates, outer, done, hs[0], top);
      TopsIntroduced(u, instantiates, outer, done + [hs[0]], hs[1..], next);
      assert done + [hs[0]] + hs[1..] == done + hs;
    }
  }

  lemma TopIntroduced(u: nat, instantiates: Option<Decl>, outer: Chain, done: seq<Head>, h: Head, top: Top)
    requires instantiates.Some? ==> instantiates.value.unit != u
    requires top.chain != [] && top.chain[1..] == outer
    requires top.ok ==> TopsFit(instantiates, outer, done) && IsLayer(u, done, top.chain[0])
    requires !top.ok ==> !TopsFit(instantiates, outer, done)
    requires top.exported.Some? ==> IsExported(instantiates, top.exported.value.head)
    ensures var r := IntroduceTop(u, instantiates, h, top);
            (r.ok <==> TopsFit(instantiates, outer, done + [h])) && r.chain != [] && r.chain[1..] == outer &&
            (r.ok ==> IsLayer(u, done + [h], r.chain[0])) &&
            (r.exported.Some? ==> IsExported(instantiates, r.exported.value.head))
  {
    forall x
      ensures Count(done + [h], x) == Count(done, x) + (if IsNamedDecl(h) && h.name == x then 1 else 0)
    {
      CountAppend(done, [h], x);
      assert [h][1..] == [];
    }
    assert forall k :: k in done + [h] <==> k in done || k == h;
    if !top.ok {
      if TopsFit(instantiates, outer, done + [h]) {
        FitsLess(instantiates, outer, done, h);
      }
    } else if IsNamedDecl(h) {
      CountSome(done, h.name);
      var r := IntroduceTop(u, instantiates, h, top);
      assert Lookup(top.chain, h.name) ==
             if h.name in top.chain[0] then Some(top.chain[0][h.name]) else Lookup(outer, h.name);
      assert r.ok <==> Count(done, h.name) == 0 && Free(instantiates, outer, h.name);
    }
  }

  lemma FitsLess(instantiates: Option<Decl>, outer: Chain, done: seq<Head>, h: Head)
    requires TopsFit(instantiates, outer, done + [h])
    ensures TopsFit(instantiates, outer, done)
  {
    forall x
      ensures Count(done, x) <= 1
    {
      CountAppend(done, [h], x);
    }
    assert forall k | k in done :: k in done + [h];
    assert forall k | k in done && IsNamedDecl(k) :: Free(instantiates, outer, k.name);
  }

  /** A unit is introduced without an error exactly when no name is declared
      twice and none is taken outside, but for the meta declaration that a
      meta unit instantiates; its layer then holds every declaration. */
  lemma UnitIntroduced(u: nat, instantiates: Option<Decl>, outer: Chain, kids: seq<Tree>)
    requires instantiates.Some? ==> instantiates.value.unit != u
    ensures var hs := NamedDecls(Exposed(kids));
            var r := ReadUnit(u, instantiates, outer, kids).top;
            (r.ok <==> TopsFit(instantiates, outer, hs)) && r.chain != [] && r.chain[1..] == outer &&
            (r.ok ==> IsLayer(u, hs, r.chain[0]))
  {
    var hs := NamedDecls(Exposed(kids));
    var top := Top([map[]] + outer, None, true);
    assert top.chain[1..] == outer;
    TopsIntroduced(u, instantiates, outer, [], hs, top);
    assert [] + hs == hs;
  }

  /** The last node with the name of the instantiated meta declaration. */
  function LastExported(instantiates: Option<Decl>, hs: seq<Head>): (r: Option<Head>)
    ensures r.Some? <==> exists h :: h in hs && IsExported(instantiates, h)
    ensures r.Some? ==> r.value in hs && IsExported(instantiates, r.value)
  {
    if hs == [] then None
    else
      var later := LastExported(instantiates, hs[1..]);
      assert forall h :: h in hs <==> h == hs[0] || h in hs[1..];
      if later.Some? then later else if IsExported(instantiates, hs[0]) then Some(hs[0]) else None
  }

  /** A meta unit exports its last declaration with the name of the meta
      declaration it instantiates, even if that was an error. */
  lemma {:induction false} ExportsTheLast(u: nat, instantiates: Option<Decl>, hs: seq<Head>, top: Top)
    requires top.chain != []
    ensures var last := LastExported(instantiates, hs);
            IntroduceTops(u, instantiates, hs, top).exported ==
            if last.Some? then Some(TopDecl(u, last.value)) else top.exported
    decreases hs
  {
    if hs != [] {
      ExportsTheLast(u, instantiates, hs[1..], IntroduceTop(u, instantiates, hs[0], top));
    }
  }

  lemma {:induction false} CountsBoth(hs: seq<Head>, a: Head, b: Head)
    requires a in hs && b in hs && a != b && IsNamedDecl(a) && IsNamedDecl(b) && a.name == b.name
    ensures Count(hs, a.name) >= 2
    decreases hs
  {
    if hs[0] != a && hs[0] != b {
      CountsBoth(hs[1..], a, b);
    } else {
      CountSome(hs[1..], a.name);
      assert (if hs[0] == a then b else a) in hs[1..];
    }
  }

  /** A meta unit introduced without an error has at most one declaration with
      the name of the meta declaration it instantiates, and exports it. */
  lemma ExportsTheOne(u: nat, instantiates: Option<Decl>, outer: Chain, kids: seq<Tree>, h: Head)
    requires instantiates.Some? ==> instantiates.value.unit != u
    requires h in NamedDecls(Exposed(kids)) && IsExported(instantiates, h)
    ensures var top := ReadUnit(u, instantiates, outer, kids).top;
            top.ok ==> top.exported == Some(TopDecl(u, h))
  {
    var hs := NamedDecls(Exposed(kids));
    UnitIntroduced(u, instantiates, outer, kids);
    ExportsTheLast(u, instantiates, hs, Top([map[]] + outer, None, true));
    var last := LastExported(instantiates, hs).value;
    if last != h {
      CountsBoth(hs, last, h);
    }
  }

  // What a unit declares, kind by kind

  /** Functions, meta declarations and constants are what a unit declares. */
  predicate IsDeclaration(h: Head) {
    h.FunctionDecl? || h.MetaDecl? || h.GlobalConstant?
  }

  /** In an error-free read every function, meta declaration and constant of a
      unit is in scope under its name; the one named like the meta declaration
      that the unit instantiates is the exported node. */
  lemma DeclarationsInScope(u: nat, instantiates: Option<Decl>, outer: Chain, kids: seq<Tree>, k: Tree)
    requires instantiates.Some? ==> instantiates.value.unit != u && instantiates.value.head.MetaDecl?
    requires k in kids && IsDeclaration(k.head)
    ensures var top := ReadUnit(u, instantiates, outer, kids).top;
            var d := Decl(u, k.head, [], k.head);
            top.ok ==>
              Lookup(top.chain, k.head.name) == Some(d) &&
              (instantiates.Some? && instantiates.value.head.name == k.head.name ==> top.exported == Some(d))
  {
    var hs := Exposed(kids);
    UnitIntroduced(u, instantiates, outer, kids);
    KidsAreExposed(kids, k);
    NamedDeclsCount(hs, k.head.name);
    if instantiates.Some? && instantiates.value.head.name == k.head.name {
      ExportsTheOne(u, instantiates, outer, kids, k.head);
    }
  }

  /** The same while a unit is opened, whatever was introduced before. */
  lemma {:induction false} IntroducedInScope(u: nat, instantiates: Option<Decl>, hs: seq<Head>, top: Top, h: Head)
    requires instantiates.Some? ==> instantiates.value.unit != u
    requires h in hs && IsDeclaration(h) && top.chain != []
    ensures var r := IntroduceTops(u, instantiates, NamedDecls(hs), top);
            r.ok ==> Lookup(r.chain, h.name) == Some(TopDecl(u, h))
    decreases hs
  {
    var later := NamedDecls(hs[1..]);
    if IsNamedDecl(hs[0]) {
      assert NamedDecls(hs) == [hs[0]] + later && ([hs[0]] + later)[1..] == later;
    } else {
      assert NamedDecls(hs) == [] + later == later;
    }
    var next := if IsNamedDecl(hs[0]) then IntroduceTop(u, instantiates, hs[0], top) else top;
    if hs[0] == h {
      if IntroduceTops(u, instantiates, later, next).ok {
        IntroducedStays(u, instantiates, later, next, h.name);
      }
    } else {
      IntroducedInScope(u, instantiates, hs[1..], next, h);
    }
  }

  lemma {:induction false} IntroducedStays(u: nat, instantiates: Option<Decl>, hs: seq<Head>, top: Top, x: Name)
    requires instantiates.Some? ==> instantiates.value.unit != u
    requires IntroduceTops(u, instantiates, hs, top).ok
    ensures top.ok && (Lookup(top.chain, x).Some? && Lookup(top.chain, x).value.unit == u ==>
              Lookup(IntroduceTops(u, instantiates, hs, top).chain, x) == Lookup(top.chain, x))
    decreases hs
  {
    if hs != [] {
      IntroducedStays(u, instantiates, hs[1..], IntroduceTop(u, instantiates, hs[0], top), x);
    }
  }

  lemma {:induction false} KidsAreExposed(kids: seq<Tree>, k: Tree)
    requires k in kids
    ensures k.head in Exposed(kids)
    decreases kids
  {
    if kids[0] != k {
      KidsAreExposed(kids[1..], k);
    }
  }

  ghost predicate NamesDiffer(kids: seq<Tree>) {
    forall i, j | 0 <= i < j < |kids| && IsDeclaration(kids[i].head) && IsDeclaration(kids[j].head) ::
      kids[i].head.name != kids[j].head.name
  }

  ghost predicate Declared(kids: seq<Tree>, x: Name) {
    exists j :: 0 <= j < |kids| && IsDeclaration(kids[j].head) && kids[j].head.name == x
  }

  lemma NamesDifferFirst(kids: seq<Tree>)
    requires kids != []
    ensures var h := kids[0].head;
            NamesDiffer(kids) <==> NamesDiffer(kids[1..]) && (IsDeclaration(h) ==> !Declared(kids[1..], h.name))
  {
    var rest, h := kids[1..], kids[0].head;
    if NamesDiffer(rest) && (IsDeclaration(h) ==> !Declared(rest, h.name)) {
      forall i, j | 0 <= i < j < |kids| && IsDeclaration(kids[i].head) && IsDeclaration(kids[j].head)
        ensures kids[i].head.name != kids[j].head.name
      {
        assert kids[j] == rest[j - 1];
        assert i != 0 ==> kids[i] == rest[i - 1];
      }
    }
    if NamesDiffer(kids) {
      forall i, j | 0 <= i < j < |rest| && IsDeclaration(rest[i].head) && IsDeclaration(rest[j].head)
        ensures rest[i].head.name != rest[j].head.name
      {
        assert rest[i] == kids[i + 1] && rest[j] == kids[j + 1];
      }
      forall j | 0 <= j < |rest| && IsDeclaration(h) && IsDeclaration(rest[j].head)
        ensures rest[j].head.name != h.name
      {
        assert rest[j] == kids[j + 1];
      }
    }
  }

  lemma {:induction false} CountedOnce(kids: seq<Tree>)
    requires AreTops(kids)
    ensures NoneTwice(Heads(kids)) <==> NamesDiffer(kids)
    decreases kids
  {
    hide NamesDiffer, Declared, WellKinded;
    if kids == [] {
      assert NamesDiffer(kids) by {
        NoNames();
      }
    } else {
      var rest, h := kids[1..], kids[0].head;
      assert kids[0] in kids && forall t | t in rest :: t in kids;
      assert Heads(kids) == [h] + Heads(rest);
      CountedOnce(rest);
      NamesDifferFirst(kids);
      forall x
        ensures Count(Heads(kids), x) == (if IsDeclaration(h) && h.name == x then 1 else 0) + Count(Heads(rest), x)
        ensures Declared(rest, x) <==> Count(Heads(rest), x) != 0
      {
        CountAppend([h], Heads(rest), x);
        assert [h][1..] == [];
        DeclaredIsCounted(rest, x);
      }
      if NamesDiffer(kids) {
        forall x
          ensures Count(Heads(kids), x) <= 1
        {
          assert Count(Heads(rest), x) <= 1;
          assert IsDeclaration(h) && h.name == x ==> !Declared(rest, x);
        }
      } else if IsDeclaration(h) && Declared(rest, h.name) {
        assert Count(Heads(kids), h.name) > 1;
      } else {
        var x :| Count(Heads(rest), x) > 1;
        assert Count(Heads(kids), x) > 1;
      }
    }
  }

  lemma NoNames()
    ensures NamesDiffer([])
  {
  }

  lemma DeclaredIsCounted(kids: seq<Tree>, x: Name)
    requires AreTops(kids)
    ensures Declared(kids, x) <==> Count(Heads(kids), x) != 0
  {
    CountSome(Heads(kids), x);
    if h :| h in Heads(kids) && IsNamedDecl(h) && h.name == x {
      var j: nat :| j < |kids| && Heads(kids)[j] == h;
      assert kids[j] in kids;
    }
    if j :| 0 <= j < |kids| && IsDeclaration(kids[j].head) && kids[j].head.name == x {
      assert Heads(kids)[j] == kids[j].head;
    }
  }

  lemma NamedOnce(kids: seq<Tree>)
    requires AreTops(kids)
    ensures NoneTwice(NamedDecls(Heads(kids))) <==> NamesDiffer(kids)
  {
    hide NamesDiffer, WellKinded, NamedDecls, Count;
    CountedOnce(kids);
    if NamesDiffer(kids) {
      forall x
        ensures Count(NamedDecls(Heads(kids)), x) <= 1
      {
        NamedDeclsCount(Heads(kids), x);
        assert Count(Heads(kids), x) <= 1;
      }
    } else {
      var x :| Count(Heads(kids), x) > 1;
      NamedDeclsCount(Heads(kids), x);
    }
  }

  lemma DeclarationsAre(kids: seq<Tree>)
    requires AreTops(kids)
    ensures var hs := NamedDecls(Heads(kids));
            (forall h | h in hs :: IsNamedDecl(h) && exists k :: k in kids && IsDeclaration(k.head) && k.head == h) &&
            forall k | k in kids && IsDeclaration(k.head) :: k.head in hs
  {
    hide WellKinded;
    NamedDeclsCount(Heads(kids), "");
    forall h
      ensures h in Heads(kids) <==> exists k :: k in kids && k.head == h
    {
      InHeads(kids, h);
    }
  }

  /** Opening a unit reports no error if and only if its functions, meta
      declarations and constants have different names, each free outside or
      that of the instantiated meta declaration; nothing else is then in the
      unit's layer. */
  lemma UnitOpensIff(u: nat, instantiates: Option<Decl>, outer: Chain, kids: seq<Tree>)
    requires AreTops(kids) && (instantiates.Some? ==> instantiates.value.unit != u)
    ensures var top := ReadUnit(u, instantiates, outer, kids).top;
            (top.ok <==> NamesDiffer(kids) &&
                         forall k | k in kids && IsDeclaration(k.head) :: Free(instantiates, outer, k.head.name)) &&
            top.chain != [] && top.chain[1..] == outer &&
            (top.ok ==> forall x | x in top.chain[0] :: Declared(kids, x))
  {
    hide IntroduceTops, Exposed, ReadTops, Lookup, Free, NamesDiffer, Declared, WellKinded, NamedDecls;
    var hs := NamedDecls(Heads(kids));
    UnitIntroduced(u, instantiates, outer, kids);
    TopsFitUnit([], kids);
    IntroducesTopLevelOnly(CompilationUnit, [], kids);
    NamedOnce(kids);
    forall x
      ensures Count(hs, x) != 0 <==> Declared(kids, x)
    {
      NamedDeclsCount(Heads(kids), x);
      DeclaredIsCounted(kids, x);
    }
    DeclarationsAre(kids);
    assert (forall h | h in hs && IsNamedDecl(h) :: Free(instantiates, outer, h.name)) <==>
             forall k | k in kids && IsDeclaration(k.head) :: Free(instantiates, outer, k.head.name);
  }

  // The order of declarations does not matter

  /** The top-level declarations of a unit. */
  ghost predicate AreTops(kids: seq<Tree>) {
    forall t | t in kids :: IsTopLevel(t.head) && WellKinded(t)
  }

  lemma {:induction false} CountPermuted(a: seq<Tree>, b: seq<Tree>, x: Name)
    requires multiset(a) == multiset(b)
    ensures Count(Heads(a), x) == Count(Heads(b), x)
    decreases a
  {
    if a == [] {
      assert |multiset(b)| == 0;
    } else {
      var j := FindFirst(a, b);
      CountPermuted(a[1..], b[..j] + b[j + 1..], x);
      assert Heads(a)[1..] == Heads(a[1..]);
      CountMiddle(b, j, x);
    }
  }

  lemma FindFirst(a: seq<Tree>, b: seq<Tree>) returns (j: nat)
    requires multiset(a) == multiset(b) && a != []
    ensures j < |b| && b[j] == a[0] && multiset(a[1..]) == multiset(b[..j] + b[j + 1..])
  {
    assert a[0] in multiset(b);
    j :| j < |b| && b[j] == a[0];
    assert a == [a[0]] + a[1..];
    assert b == b[..j] + ([b[j]] + b[j + 1..]);
    assert multiset(a[1..]) == multiset(a) - multiset{a[0]};
    assert multiset(b[..j] + b[j + 1..]) == multiset(b) - multiset{b[j]};
  }

  lemma CountMiddle(b: seq<Tree>, j: nat, x: Name)
    requires j < |b|
    ensures Count(Heads(b), x) == Count(Heads(b[..j] + b[j + 1..]), x) +
                                  (if IsNamedDecl(b[j].head) && b[j].head.name == x then 1 else 0)
  {
    var before, h, after := Heads(b[..j]), b[j].head, Heads(b[j + 1..]);
    assert Heads(b) == before + ([h] + after);
    assert Heads(b[..j] + b[j + 1..]) == before + after;
    CountAppend(before, [h] + after, x);
    CountAppend([h], after, x);
    CountAppend(before, after, x);
    assert [h][1..] == [];
  }

  lemma {:induction false} NamedDeclsCount(hs: seq<Head>, x: Name)
    ensures Count(NamedDecls(hs), x) == Count(hs, x)
    ensures forall h :: h in NamedDecls(hs) <==> h in hs && IsNamedDecl(h)
    decreases hs
  {
    if hs != [] {
      NamedDeclsCount(hs[1..], x);
      CountAppend(if IsNamedDecl(hs[0]) then [hs[0]] else [], NamedDecls(hs[1..]), x);
      assert [hs[0]][1..] == [];
      assert forall h :: h in hs <==> h == hs[0] || h in hs[1..];
    }
  }

  /** Permuted declarations introduce the same names. */
  lemma NamesPermuted(a: seq<Tree>, b: seq<Tree>)
    requires multiset(a) == multiset(b) && AreTops(a)
    ensures var hs, ks := NamedDecls(Exposed(a)), NamedDecls(Exposed(b));
            (forall x :: Count(hs, x) == Count(ks, x)) && (forall h :: h in hs <==> h in ks)
  {
    forall t
      ensures t in a <==> t in b
    {
      assert t in a <==> t in multiset(a);
      assert t in b <==> t in multiset(b);
    }
    TopsFitUnit([], a);
    TopsFitUnit([], b);
    IntroducesTopLevelOnly(CompilationUnit, [], a);
    IntroducesTopLevelOnly(CompilationUnit, [], b);
    forall x
      ensures Count(NamedDecls(Heads(a)), x) == Count(NamedDecls(Heads(b)), x)
    {
      CountPermuted(a, b, x);
      NamedDeclsCount(Heads(a), x);
      NamedDeclsCount(Heads(b), x);
    }
    forall h
      ensures h in NamedDecls(Heads(a)) <==> h in NamedDecls(Heads(b))
    {
      NamedDeclsCount(Heads(a), "");
      NamedDeclsCount(Heads(b), "");
      InHeads(a, h);
      InHeads(b, h);
    }
  }

  lemma InHeads(ts: seq<Tree>, h: Head)
    ensures h in Heads(ts) <==> exists t :: t in ts && t.head == h
  {
    if h in Heads(ts) {
      var i: nat :| i < |ts| && Heads(ts)[i] == h;
      assert ts[i] in ts;
    }
    if t :| t in ts && t.head == h {
      var i: nat :| i < |ts| && ts[i] == t;
      assert Heads(ts)[i] == h;
    }
  }

  lemma {:induction false} TopsFitUnit(done: seq<Head>, kids: seq<Tree>)
    requires AreTops(kids)
    ensures KidsFit(CompilationUnit, done, kids)
    decreases kids
  {
    if kids != [] {
      assert kids[0] in kids && forall t | t in kids[1..] :: t in kids;
      TopsFitUnit(done + [kids[0].head], kids[1..]);
    }
  }

  lemma LayerPermuted(u: nat, instantiates: Option<Decl>, outer: Chain, a: seq<Head>, b: seq<Head>)
    requires (forall x :: Count(a, x) == Count(b, x)) && (forall h :: h in a <==> h in b)
    ensures TopsFit(instantiates, outer, a) <==> TopsFit(instantiates, outer, b)
    ensures forall k, l | IsLayer(u, a, k) && IsLayer(u, b, l) :: k == l
  {
    forall k, l | IsLayer(u, a, k) && IsLayer(u, b, l)
      ensures k == l
    {
      forall x
        ensures x in k <==> x in l
        ensures x in k ==> k[x] == l[x]
      {
        CountSome(a, x);
        CountSome(b, x);
      }
    }
  }

  /** Top-level declarations leave the unit's scopes alone. */
  lemma TopKeepsChain(w: Where, t: Tree, chain: Chain)
    requires IsTopLevel(t.head) && WellKinded(t) && !t.head.MetaUnit?
    ensures Read(w, t, [], chain, Outside).chain == chain
  {
    if t.head.GlobalConstant? {
      KidsFitAt(t.head, [], t.kids, 0);
      ConstantsAreLeaves(t.kids[0]);
      KidsFitComplete(t.head, [], t.kids);
      assert [] + Heads(t.kids) == Heads(t.kids);
      assert t.kids[1..] == [];
      assert [] + Heads(t.kids[..0]) == [];
      LeafKeepsChain(w, t.kids[0], [] + [0], chain);
      ReadFirstKid(w, t.head, t.kids, [], 0, chain, Outside);
    }
  }

  lemma LeafKeepsChain(w: Where, t: Tree, at: Path, chain: Chain)
    requires t.kids == [] && IsConstantExpr(t.head)
    ensures Read(w, t, at, chain, Outside).chain == chain
  {
  }

  /** The scopes after the first `n` declarations. */
  function LastChain(r: UnitReading, n: nat): Chain
    requires n <= |r.readings|
  {
    if n == 0 then r.top.chain else r.readings[n - 1].chain
  }

  function ReadTop(u: nat, t: Tree, chain: Chain): Reading {
    Read(Where(u, t.head), t, [], chain, Outside)
  }

  /** Every declaration of a unit is read in the same scopes. */
  lemma {:induction false} ReadsApart(u: nat, kids: seq<Tree>, chain: Chain)
    requires AreTops(kids)
    ensures AllOk(ReadTops(u, kids, chain)) <==> forall t | t in kids :: ReadTop(u, t, chain).ok
    ensures AllOk(ReadTops(u, kids, chain)) ==>
              ReadTops(u, kids, chain) == seq(|kids|, i requires 0 <= i < |kids| => ReadTop(u, kids[i], chain))
    decreases kids
  {
    if kids != [] {
      var first := ReadTop(u, kids[0], chain);
      var rest := ReadTops(u, kids[1..], first.chain);
      var all := ReadTops(u, kids, chain);
      assert all == [first] + rest;
      assert forall t :: t in kids <==> t == kids[0] || t in kids[1..];
      assert AllOk(all) ==> first.ok && AllOk(rest) by {
        if AllOk(all) {
          assert all[0].ok;
          forall i | 0 <= i < |rest|
            ensures rest[i].ok
          {
            assert all[i + 1].ok;
          }
        }
      }
      if first.ok {
        TopKeepsChain(Where(u, kids[0].head), kids[0], chain);
        ReadsApart(u, kids[1..], chain);
      }
    }
  }

  /** An error-free read of a unit leaves in its scope what was introduced when
      it was opened, and nothing else. */
  lemma UnitKeepsScope(u: nat, instantiates: Option<Decl>, outer: Chain, kids: seq<Tree>)
    requires AreTops(kids) && (forall t | t in kids :: !t.head.MetaUnit?) && ReadUnit(u, instantiates, outer, kids).ok
    ensures var r := ReadUnit(u, instantiates, outer, kids);
            |r.readings| == |kids| && LastChain(r, |kids|) == r.top.chain
  {
    hide Read, ReadTops, IntroduceTops, WellKinded;
    var r := ReadUnit(u, instantiates, outer, kids);
    ReadsApart(u, kids, r.top.chain);
    if kids != [] {
      var t := kids[|kids| - 1];
      assert t in kids;
      TopKeepsChain(Where(u, t.head), t, r.top.chain);
    }
  }

  /** Bindings do not depend on the order of a unit's declarations: any
      permutation is read with the same errors, the same names at the top, the
      same exported node and the same bindings inside every declaration. */
  lemma OrderDoesNotMatter(u: nat, instantiates: Option<Decl>, outer: Chain, a: seq<Tree>, b: seq<Tree>)
    requires multiset(a) == multiset(b) && AreTops(a) && (instantiates.Some? ==> instantiates.value.unit != u)
    ensures var r, s := ReadUnit(u, instantiates, outer, a), ReadUnit(u, instantiates, outer, b);
            (r.ok <==> s.ok) &&
            (r.ok ==> r.top.chain == s.top.chain && r.top.exported == s.top.exported &&
                      |r.readings| == |a| == |b| == |s.readings| &&
                      forall i, j | 0 <= i < |a| && 0 <= j < |b| && a[i] == b[j] :: r.readings[i] == s.readings[j])
  {
    hide Read, ReadTops, IsLayer, TopsFit, NamedDecls, Exposed, IntroduceTops, AllOk;
    var r, s := ReadUnit(u, instantiates, outer, a), ReadUnit(u, instantiates, outer, b);
    UnitIntroduced(u, instantiates, outer, a);
    UnitIntroduced(u, instantiates, outer, b);
    forall t
      ensures t in a <==> t in b
    {
      assert t in a <==> t in multiset(a);
      assert t in b <==> t in multiset(b);
    }
    NamesPermuted(a, b);
    LayerPermuted(u, instantiates, outer, NamedDecls(Exposed(a)), NamedDecls(Exposed(b)));
    ReadsApart(u, a, r.top.chain);
    ReadsApart(u, b, s.top.chain);
    if r.top.ok {
      assert r.top.chain == [r.top.chain[0]] + outer;
      assert s.top.chain == [s.top.chain[0]] + outer;
    }
    assert |a| == |multiset(a)| && |b| == |multiset(b)|;
    if r.ok {
      SameExported(u, instantiates, outer, a, b);
    }
  }

  lemma SameExported(u: nat, instantiates: Option<Decl>, outer: Chain, a: seq<Tree>, b: seq<Tree>)
    requires instantiates.Some? ==> instantiates.value.unit != u
    requires ReadUnit(u, instantiates, outer, a).top.ok && ReadUnit(u, instantiates, outer, b).top.ok
    requires forall h :: h in NamedDecls(Exposed(a)) <==> h in NamedDecls(Exposed(b))
    ensures ReadUnit(u, instantiates, outer, a).top.exported == ReadUnit(u, instantiates, outer, b).top.exported
  {
    var hs, ks := NamedDecls(Exposed(a)), NamedDecls(Exposed(b));
    ExportsTheLast(u, instantiates, hs, Top([map[]] + outer, None, true));
    ExportsTheLast(u, instantiates, ks, Top([map[]] + outer, None, true));
    if h :| h in hs && IsExported(instantiates, h) {
      ExportsTheOne(u, instantiates, outer, a, h);
      ExportsTheOne(u, instantiates, outer, b, h);
    }
  }

  predicate DeclaresName(t: Tree, x: Name) {
    IsNamedDecl(t.head) && t.head.name == x
  }

  lemma LayerLookup(u: nat, kids: seq<Tree>, layer: Layer, outer: Chain, x: Name)
    requires AreTops(kids) && IsLayer(u, NamedDecls(Exposed(kids)), layer)
    ensures forall t | t in kids && DeclaresName(t, x) :: Lookup([layer] + outer, x) == Some(TopDecl(u, t.head))
    ensures (forall t | t in kids :: !DeclaresName(t, x)) ==> Lookup([layer] + outer, x) == Lookup(outer, x)
    ensures x in layer ==> Named(layer[x], x)
  {
    var hs := NamedDecls(Exposed(kids));
    TopsFitUnit([], kids);
    IntroducesTopLevelOnly(CompilationUnit, [], kids);
    NamedDeclsCount(Heads(kids), x);
    CountSome(hs, x);
    assert ([layer] + outer)[1..] == outer;
    forall t | t in kids && DeclaresName(t, x)
      ensures t.head in hs
    {
      InHeads(kids, t.head);
    }
    if x in layer {
      var h :| h in hs && IsNamedDecl(h) && h.name == x;
      InHeads(kids, h);
      assert layer[h.name] == TopDecl(u, h);
    }
  }

  /** An error-free read of a unit binds every reference outside copied code to
      the declaration that is lexically visible: one inside the same top-level
      declaration, or else one of the unit, wherever in the unit it stands, or
      else what the name means outside. */
  lemma UnitBindsLexically(u: nat, instantiates: Option<Decl>, outer: Chain, kids: seq<Tree>, i: nat, p: Path)
    requires AreTops(kids) && (instantiates.Some? ==> instantiates.value.unit != u) && Keyed(outer)
    requires ReadUnit(u, instantiates, outer, kids).ok && i < |kids|
    requires NodeAt(kids[i], p).Some? && NodeAt(kids[i], p).value.head.DeclRef?
    ensures var x := NodeAt(kids[i], p).value.head.name;
            var r := ReadUnit(u, instantiates, outer, kids);
            i < |r.readings| &&
            var bindings := r.readings[i].bindings;
            if ModeAt(kids[i], p, Outside).InsideMetaDecl? then p !in bindings
            else
              p in bindings &&
              (forall q | VisibleAt(kids[i], q, p, Outside) && NodeAt(kids[i], q).value.head.name == x ::
                 bindings[p] == DeclOf(Where(u, kids[i].head), kids[i], [], q)) &&
              ((forall q | VisibleAt(kids[i], q, p, Outside) :: NodeAt(kids[i], q).value.head.name != x) ==>
                 (forall t | t in kids && DeclaresName(t, x) :: bindings[p] == TopDecl(u, t.head)) &&
                 ((forall t | t in kids :: !DeclaresName(t, x)) ==> Some(bindings[p]) == Lookup(outer, x)))
  {
    hide IsLayer, TopsFit, NamedDecls, Exposed, IntroduceTops, VisibleAt, NodeAt, ModeAt, Read, ReadTops, DeclOf;
    var x := NodeAt(kids[i], p).value.head.name;
    var r := ReadUnit(u, instantiates, outer, kids);
    UnitIntroduced(u, instantiates, outer, kids);
    var layer := r.top.chain[0];
    assert r.top.chain == [layer] + outer;
    ReadsApart(u, kids, r.top.chain);
    forall y | Lookup(r.top.chain, y).Some?
      ensures Named(Lookup(r.top.chain, y).value, y)
    {
      LayerLookup(u, kids, layer, outer, y);
    }
    LayerLookup(u, kids, layer, outer, x);
    assert kids[i] in kids;
    BindsLexically(Where(u, kids[i].head), kids[i], r.top.chain, p);
  }
}
