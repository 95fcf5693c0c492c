/** The ways the meta-ifs of a declaration can be decided, and when none of
    them meets a name before it is declared. */
module WaysThrough {
  import opened Ast
  import opened Machine
  import opened Semantics
  import opened PlainReading
  import opened MetaCodegen
  import opened Staging

  /** The names a statement leaves declared whichever way is taken through it. */
  function SurelyLeft(s: Tree): set<Name>
    decreases s, 0
  {
    match s.head
    case DeclStmt(x) => {x}
    case UnscopedCompound => AllSurelyLeft(s.kids)
    case _ => {}
  }

  function AllSurelyLeft(ss: seq<Tree>): set<Name>
    decreases ss
  {
    if ss == [] then {} else SurelyLeft(ss[0]) + AllSurelyLeft(ss[1..])
  }

  /** Whichever way is taken through a statement, it uses no variable that is
      not declared; a variable that is a whole statement is not used. */
  predicate SureStmt(g: Globals, known: set<Name>, s: Tree)
    decreases s, 0
  {
    match s.head
    case UnscopedCompound | Compound => AllSure(g, known, s.kids)
    case Return | DeclStmt(_) => s.kids != [] ==> ClosedExpr(g, known, s.kids[0])
    case ExpressionStmt => s.kids != [] ==> IsVariable(g, s.kids[0]) || ClosedExpr(g, known, s.kids[0])
    case If =>
      |s.kids| >= 2 && ClosedExpr(g, known, s.kids[0]) && SureStmt(g, known, s.kids[1]) &&
      (|s.kids| > 2 ==> SureStmt(g, known, s.kids[2]))
    case _ => true
  }

  predicate AllSure(g: Globals, known: set<Name>, ss: seq<Tree>)
    decreases ss
  {
    ss == [] || (SureStmt(g, known, ss[0]) && AllSure(g, known + SurelyLeft(ss[0]), ss[1..]))
  }

  /** How a way ends: behind the tree, with the names declared on it, or at a
      reference to a name that is not declared. */
  datatype Way = Onward(declared: set<Name>) | Missed

  /** The ways through a meta tree, for all decisions of its meta-ifs. */
  ghost function Ways(g: Globals, declared: set<Name>, t: Tree): set<Way>
    decreases t, 0
  {
    match t.head
    case MetaCalculation =>
      if t.kids == [] then {Onward(declared)}
      else if SureStmt(g, declared, t.kids[0]) then {Onward(declared + SurelyLeft(t.kids[0]))}
      else {Missed}
    case MetaIf =>
      if |t.kids| < 2 || !ClosedExpr(g, declared, t.kids[0]) then {Missed}
      else
        Ways(g, declared, t.kids[1]) + (if |t.kids| > 2 then Ways(g, declared, t.kids[2]) else {Onward(declared)})
    case _ =>
      var inner := WaysAll(g, declared, t.kids);
      if Opens(t.head) then set w | w in inner :: EndWay(declared, w) else inner
  }

  /** What a scope declares ends with it. */
  function EndWay(outer: set<Name>, w: Way): Way {
    if w.Missed? then w else Onward(outer * w.declared)
  }

  ghost function WaysAll(g: Globals, declared: set<Name>, ts: seq<Tree>): set<Way>
    decreases ts, 0
  {
    if ts == [] then {Onward(declared)}
    else set w, v | w in Ways(g, declared, ts[0]) && v in WaysOn(g, w, ts[1..]) :: v
  }

  ghost function WaysOn(g: Globals, w: Way, ts: seq<Tree>): set<Way>
    decreases ts, 1
  {
    if w.Missed? then {Missed} else WaysAll(g, w.declared, ts)
  }

  /** The names a meta tree declares whichever way is taken. */
  function SurelyDeclares(t: Tree): set<Name>
    decreases t, 0
  {
    match t.head
    case MetaCalculation => if t.kids == [] then {} else SurelyLeft(t.kids[0])
    case MetaIf => {}
    case _ => if Opens(t.head) then {} else SurelyDeclaresAll(t.kids)
  }

  function SurelyDeclaresAll(ts: seq<Tree>): set<Name>
    decreases ts
  {
    if ts == [] then {} else SurelyDeclares(ts[0]) + SurelyDeclaresAll(ts[1..])
  }

  /** No reference is to a name that only a branch of a meta-if before it
      declares: it stands in the branch itself, or the name is declared
      outside of all branches that end before the reference. */
  predicate KeepsToBranches(g: Globals, known: set<Name>, t: Tree)
    decreases t, 0
  {
    match t.head
    case MetaCalculation => t.kids != [] ==> SureStmt(g, known, t.kids[0])
    case MetaIf =>
      |t.kids| >= 2 && ClosedExpr(g, known, t.kids[0]) && KeepsToBranches(g, known, t.kids[1]) &&
      (|t.kids| > 2 ==> KeepsToBranches(g, known, t.kids[2]))
    case _ => AllKeepToBranches(g, known, t.kids)
  }

  predicate AllKeepToBranches(g: Globals, known: set<Name>, ts: seq<Tree>)
    decreases ts
  {
    ts == [] ||
    (KeepsToBranches(g, known, ts[0]) && AllKeepToBranches(g, known + SurelyDeclares(ts[0]), ts[1..]))
  }

  // Which names a statement needs

  /** A name that every smaller set of names must hold. */
  lemma {:induction false} ExprNeeds(g: Globals, most: set<Name>, few: set<Name>, e: Tree) returns (x: Name)
    requires few <= most && ClosedExpr(g, most, e) && !ClosedExpr(g, few, e)
    ensures x in most && x !in few && forall some: set<Name> | x !in some :: !ClosedExpr(g, some, e)
    decreases e, 0
  {
    match e.head
    case DeclRef(y) => x := y;
    case Binary(_) =>
      if !ClosedExpr(g, few, e.kids[0]) {
        x := ExprNeeds(g, most, few, e.kids[0]);
      } else {
        x := ExprNeeds(g, most, few, e.kids[1]);
      }
    case Call => x := ExprsNeed(g, most, few, e.kids);
  }

  lemma {:induction false} ExprsNeed(g: Globals, most: set<Name>, few: set<Name>, es: seq<Tree>) returns (x: Name)
    requires few <= most && ClosedExprs(g, most, es) && !ClosedExprs(g, few, es)
    ensures x in most && x !in few && forall some: set<Name> | x !in some :: !ClosedExprs(g, some, es)
    decreases es
  {
    if !ClosedExpr(g, few, es[0]) {
      x := ExprNeeds(g, most, few, es[0]);
    } else {
      x := ExprsNeed(g, most, few, es[1..]);
    }
  }

  lemma {:induction false} StmtNeeds(g: Globals, most: set<Name>, few: set<Name>, s: Tree) returns (x: Name)
    requires few <= most && ClosedStmt(g, most, s) && !SureStmt(g, few, s)
    ensures x !in few && forall some: set<Name> | x !in some :: !SureStmt(g, some, s)
    decreases s, 0
  {
    match s.head
    case UnscopedCompound | Compound => x := StmtsNeed(g, most, few, s.kids);
    case Return | ExpressionStmt | DeclStmt(_) => x := ExprNeeds(g, most, few, s.kids[0]);
    case If =>
      if !ClosedExpr(g, few, s.kids[0]) {
        x := ExprNeeds(g, most, few, s.kids[0]);
      } else if !SureStmt(g, few, s.kids[1]) {
        x := StmtNeeds(g, most, few, s.kids[1]);
      } else {
        x := StmtNeeds(g, most + Declares(s.kids[1]), few, s.kids[2]);
      }
  }

  lemma {:induction false} StmtsNeed(g: Globals, most: set<Name>, few: set<Name>, ss: seq<Tree>) returns (x: Name)
    requires few <= most && ClosedStmts(g, most, ss) && !AllSure(g, few, ss)
    ensures x !in few && forall some: set<Name> | x !in some :: !AllSure(g, some, ss)
    decreases ss
  {
    if !SureStmt(g, few, ss[0]) {
      x := StmtNeeds(g, most, few, ss[0]);
    } else {
      var first := SurelyLeft(ss[0]);
      SureIsDeclared(ss[0]);
      x := StmtsNeed(g, most + Declares(ss[0]), few + first, ss[1..]);
      forall some: set<Name> | x !in some
        ensures !AllSure(g, some, ss)
      {
        assert x !in some + first;
      }
    }
  }

  lemma {:induction false} SureIsDeclared(s: Tree)
    ensures SurelyLeft(s) <= Declares(s)
    ensures CompoundBranches(s) ==> SurelyLeft(s) == Declares(s)
    decreases s, 0
  {
    if s.head.UnscopedCompound? {
      AllSureAreDeclared(s.kids);
    }
  }

  lemma {:induction false} AllSureAreDeclared(ss: seq<Tree>)
    ensures AllSurelyLeft(ss) <= DeclaresAll(ss)
    ensures AllCompoundBranches(ss) ==> AllSurelyLeft(ss) == DeclaresAll(ss)
    decreases ss
  {
    if ss != [] {
      SureIsDeclared(ss[0]);
      AllSureAreDeclared(ss[1..]);
    }
  }

  /** More names do no harm. */
  lemma MoreStillSure(g: Globals, most: set<Name>, some: set<Name>, few: set<Name>, s: Tree)
    requires few <= some <= most && ClosedStmt(g, most, s) && SureStmt(g, few, s)
    ensures SureStmt(g, some, s)
  {
    if !SureStmt(g, some, s) {
      var x := StmtNeeds(g, most, some, s);
    }
  }

  lemma MoreStillClosedExpr(g: Globals, most: set<Name>, some: set<Name>, few: set<Name>, e: Tree)
    requires few <= some <= most && ClosedExpr(g, most, e) && ClosedExpr(g, few, e)
    ensures ClosedExpr(g, some, e)
  {
    if !ClosedExpr(g, some, e) {
      var x := ExprNeeds(g, most, some, e);
    }
  }

  // What every way declares

  lemma {:induction false} DeclaresFresh(g: Globals, known: set<Name>, s: Tree)
    requires ClosedStmt(g, known, s)
    ensures Declares(s) !! known
    decreases s, 0
  {
    match s.head
    case UnscopedCompound => AllDeclareFresh(g, known, s.kids);
    case If =>
      DeclaresFresh(g, known, s.kids[1]);
      if |s.kids| > 2 {
        DeclaresFresh(g, known + Declares(s.kids[1]), s.kids[2]);
      }
    case _ =>
  }

  lemma {:induction false} AllDeclareFresh(g: Globals, known: set<Name>, ss: seq<Tree>)
    requires ClosedStmts(g, known, ss)
    ensures DeclaresAll(ss) !! known
    decreases ss
  {
    if ss != [] {
      DeclaresFresh(g, known, ss[0]);
      AllDeclareFresh(g, known + Declares(ss[0]), ss[1..]);
    }
  }

  lemma ClosedBelow(g: Globals, known: set<Name>, inside: bool, t: Tree)
    requires ClosedMeta(g, known, inside, t) && !t.head.MetaIf? && !t.head.MetaCalculation?
    ensures ClosedMetas(g, known, Deeper(inside, t.head), t.kids)
  {
  }

  lemma {:induction false} MetaDeclaresFresh(g: Globals, known: set<Name>, inside: bool, t: Tree)
    requires ClosedMeta(g, known, inside, t)
    ensures DeclaresMeta(t) !! known && SurelyDeclares(t) <= DeclaresMeta(t)
    decreases t, 0
  {
    if t.head.MetaCalculation? {
      DeclaresFresh(g, known, t.kids[0]);
      SureIsDeclared(t.kids[0]);
    } else if t.head.MetaIf? {
      MetaDeclaresFresh(g, known, inside, t.kids[1]);
      if |t.kids| > 2 {
        MetaDeclaresFresh(g, known + DeclaresMeta(t.kids[1]), inside, t.kids[2]);
      }
    } else {
      ClosedBelow(g, known, inside, t);
      MetasDeclareFresh(g, known, Deeper(inside, t.head), t.kids);
    }
  }

  lemma {:induction false} MetasDeclareFresh(g: Globals, known: set<Name>, inside: bool, ts: seq<Tree>)
    requires ClosedMetas(g, known, inside, ts)
    ensures DeclaresMetas(ts) !! known && SurelyDeclaresAll(ts) <= DeclaresMetas(ts)
    decreases ts
  {
    if ts != [] {
      MetaDeclaresFresh(g, known, inside, ts[0]);
      MetasDeclareFresh(g, known + DeclaresMeta(ts[0]), inside, ts[1..]);
    }
  }

  /** There is a way through every tree, and none declares more than it may. */
  lemma {:induction false} WaysDeclare(g: Globals, declared: set<Name>, t: Tree)
    ensures Ways(g, declared, t) != {}
    ensures forall w | w in Ways(g, declared, t) && w.Onward? :: w.declared <= declared + DeclaresMeta(t)
    decreases t, 0
  {
    if t.head.MetaIf? {
      if |t.kids| >= 2 {
        WaysDeclare(g, declared, t.kids[1]);
        if |t.kids| > 2 {
          WaysDeclare(g, declared, t.kids[2]);
        }
      }
    } else if t.head.MetaCalculation? {
      if t.kids != [] {
        SureIsDeclared(t.kids[0]);
      }
    } else {
      WaysAllDeclare(g, declared, t.kids);
      var w :| w in WaysAll(g, declared, t.kids);
      if Opens(t.head) {
        assert EndWay(declared, w) in Ways(g, declared, t);
      }
    }
  }

  lemma {:induction false} WaysAllDeclare(g: Globals, declared: set<Name>, ts: seq<Tree>)
    ensures WaysAll(g, declared, ts) != {}
    ensures forall w | w in WaysAll(g, declared, ts) && w.Onward? :: w.declared <= declared + DeclaresMetas(ts)
    decreases ts
  {
    if ts != [] {
      WaysDeclare(g, declared, ts[0]);
      forall w | w in Ways(g, declared, ts[0]) && w.Onward?
        ensures WaysAll(g, w.declared, ts[1..]) != {}
        ensures forall v | v in WaysAll(g, w.declared, ts[1..]) && v.Onward? ::
                  v.declared <= declared + DeclaresMetas(ts)
      {
        WaysAllDeclare(g, w.declared, ts[1..]);
      }
      var w :| w in Ways(g, declared, ts[0]);
      WaysAllDeclare(g, if w.Onward? then w.declared else {}, ts[1..]);
      var v :| v in WaysOn(g, w, ts[1..]);
      assert v in WaysAll(g, declared, ts);
    }
  }

  // A tree that keeps to its branches

  lemma {:induction false} KeepingMeansSafe(g: Globals, most: set<Name>, declared: set<Name>, known: set<Name>,
                                            inside: bool, t: Tree)
    requires ClosedMeta(g, most, inside, t) && known <= declared <= most && KeepsToBranches(g, known, t)
    ensures forall w | w in Ways(g, declared, t) :: w.Onward? && known + SurelyDeclares(t) <= w.declared
    decreases t, 0
  {
    if t.head.MetaCalculation? {
      MoreStillSure(g, most, declared, known, t.kids[0]);
    } else if t.head.MetaIf? {
      MoreStillClosedExpr(g, most, declared, known, t.kids[0]);
      KeepingMeansSafe(g, most, declared, known, inside, t.kids[1]);
      if |t.kids| > 2 {
        KeepingMeansSafe(g, most + DeclaresMeta(t.kids[1]), declared, known, inside, t.kids[2]);
      }
    } else {
      ClosedBelow(g, most, inside, t);
      AllKeepingMeansSafe(g, most, declared, known, Deeper(inside, t.head), t.kids);
    }
  }

  lemma {:induction false} AllKeepingMeansSafe(g: Globals, most: set<Name>, declared: set<Name>, known: set<Name>,
                                               inside: bool, ts: seq<Tree>)
    requires ClosedMetas(g, most, inside, ts) && known <= declared <= most && AllKeepToBranches(g, known, ts)
    ensures forall w | w in WaysAll(g, declared, ts) :: w.Onward? && known + SurelyDeclaresAll(ts) <= w.declared
    decreases ts
  {
    if ts != [] {
      KeepingMeansSafe(g, most, declared, known, inside, ts[0]);
      WaysDeclare(g, declared, ts[0]);
      var sure := known + SurelyDeclares(ts[0]);
      forall w | w in Ways(g, declared, ts[0])
        ensures forall v | v in WaysOn(g, w, ts[1..]) :: v.Onward? && known + SurelyDeclaresAll(ts) <= v.declared
      {
        AllKeepingMeansSafe(g, most + DeclaresMeta(ts[0]), w.declared, sure, inside, ts[1..]);
      }
    }
  }

  // A tree that does not

  /** Some way leaves out a name that is not declared surely. */
  lemma {:induction false} LeavesOut(g: Globals, most: set<Name>, declared: set<Name>, inside: bool, t: Tree, x: Name)
    returns (w: Way)
    requires ClosedMeta(g, most, inside, t) && declared <= most && x !in declared && x !in SurelyDeclares(t)
    ensures w in Ways(g, declared, t) && (w.Missed? || x !in w.declared)
    decreases t, 0
  {
    if t.head.MetaCalculation? {
      w :| w in Ways(g, declared, t);
    } else if t.head.MetaIf? {
      if !ClosedExpr(g, declared, t.kids[0]) {
        w := Missed;
      } else if x !in DeclaresMeta(t.kids[1]) {
        WaysDeclare(g, declared, t.kids[1]);
        w :| w in Ways(g, declared, t.kids[1]);
      } else if |t.kids| > 2 {
        WaysDeclare(g, declared, t.kids[2]);
        MetaDeclaresFresh(g, most + DeclaresMeta(t.kids[1]), inside, t.kids[2]);
        w :| w in Ways(g, declared, t.kids[2]);
      } else {
        w := Onward(declared);
      }
    } else if Opens(t.head) {
      WaysDeclare(g, declared, t);
      w :| w in Ways(g, declared, t);
    } else {
      ClosedBelow(g, most, inside, t);
      w := AllLeaveOut(g, most, declared, Deeper(inside, t.head), t.kids, x);
    }
  }

  lemma {:induction false} AllLeaveOut(g: Globals, most: set<Name>, declared: set<Name>, inside: bool, ts: seq<Tree>,
                                       x: Name)
    returns (w: Way)
    requires ClosedMetas(g, most, inside, ts) && declared <= most && x !in declared && x !in SurelyDeclaresAll(ts)
    ensures w in WaysAll(g, declared, ts) && (w.Missed? || x !in w.declared)
    decreases ts
  {
    if ts == [] {
      w := Onward(declared);
    } else {
      var first := LeavesOut(g, most, declared, inside, ts[0], x);
      if first.Missed? {
        w := Missed;
      } else {
        WaysDeclare(g, declared, ts[0]);
        w := AllLeaveOut(g, most + DeclaresMeta(ts[0]), first.declared, inside, ts[1..], x);
      }
      assert w in WaysOn(g, first, ts[1..]);
    }
  }

  /** A name that is missing somewhere on every set of names without it. */
  lemma {:induction false} MetaNeeds(g: Globals, most: set<Name>, known: set<Name>, inside: bool, t: Tree)
    returns (x: Name)
    requires ClosedMeta(g, most, inside, t) && known <= most && !KeepsToBranches(g, known, t)
    ensures x !in known && forall some: set<Name> | some <= most && x !in some :: Missed in Ways(g, some, t)
    decreases t, 0
  {
    if t.head.MetaCalculation? {
      x := StmtNeeds(g, most, known, t.kids[0]);
    } else if t.head.MetaIf? {
      if !ClosedExpr(g, known, t.kids[0]) {
        x := ExprNeeds(g, most, known, t.kids[0]);
      } else if !KeepsToBranches(g, known, t.kids[1]) {
        x := MetaNeeds(g, most, known, inside, t.kids[1]);
      } else {
        x := MetaNeeds(g, most + DeclaresMeta(t.kids[1]), known, inside, t.kids[2]);
      }
    } else {
      ClosedBelow(g, most, inside, t);
      x := MetasNeed(g, most, known, Deeper(inside, t.head), t.kids);
      forall some: set<Name> | some <= most && x !in some
        ensures Missed in Ways(g, some, t)
      {
        assert Missed in WaysAll(g, some, t.kids);
        assert EndWay(some, Missed) == Missed;
      }
    }
  }

  lemma {:induction false} MetasNeed(g: Globals, most: set<Name>, known: set<Name>, inside: bool, ts: seq<Tree>)
    returns (x: Name)
    requires ClosedMetas(g, most, inside, ts) && known <= most && !AllKeepToBranches(g, known, ts)
    ensures x !in known && forall some: set<Name> | some <= most && x !in some :: Missed in WaysAll(g, some, ts)
    decreases ts
  {
    var more := most + DeclaresMeta(ts[0]);
    if !KeepsToBranches(g, known, ts[0]) {
      x := MetaNeeds(g, most, known, inside, ts[0]);
      forall some: set<Name> | some <= most && x !in some
        ensures Missed in WaysAll(g, some, ts)
      {
        assert Missed in WaysOn(g, Missed, ts[1..]);
      }
    } else {
      MetaDeclaresFresh(g, most, inside, ts[0]);
      x := MetasNeed(g, more, known + SurelyDeclares(ts[0]), inside, ts[1..]);
      forall some: set<Name> | some <= most && x !in some
        ensures Missed in WaysAll(g, some, ts)
      {
        var first := LeavesOut(g, most, some, inside, ts[0], x);
        WaysDeclare(g, some, ts[0]);
        assert Missed in WaysOn(g, first, ts[1..]);
      }
    }
  }

  /** No way through a closed tree meets a name that is not declared exactly
      when no reference behind a meta-if is to a name of one of its branches. */
  lemma NeverMissesIff(g: Globals, known: set<Name>, inside: bool, t: Tree)
    requires ClosedMeta(g, known, inside, t)
    ensures Missed !in Ways(g, known, t) <==> KeepsToBranches(g, known, t)
  {
    if KeepsToBranches(g, known, t) {
      KeepingMeansSafe(g, known, known, known, inside, t);
    } else {
      var x := MetaNeeds(g, known, known, inside, t);
    }
  }

  /** Every run takes one of the ways. */
  lemma {:induction false} RunsTakeWays(g: Globals, call: Oracle, most: set<Name>, inside: bool, t: Tree, env: Env)
    requires ClosedMeta(g, most, inside, t) && env.Keys <= most
    ensures var meant := Specialise(g, call, inside, t, env);
            Missed in Ways(g, env.Keys, t) || (meant.Done? ==> Onward(meant.env.Keys) in Ways(g, env.Keys, t))
    decreases t, 0
  {
    if t.head.MetaCalculation? {
      var outcome := Exec(g, call, t.kids[0], env);
      if outcome.Normal? {
        ExecDeclares(g, call, t.kids[0], env);
        ExportsAreDeclared(t.kids[0]);
        ExportsHaveValues(g, call, t.kids[0], env);
        SureIsDeclared(t.kids[0]);
        assert outcome.env.Keys == env.Keys + Declares(t.kids[0]);
      }
    } else if t.head.MetaIf? {
      MetaIfTakesWays(g, call, most, inside, t, env);
    } else {
      ClosedBelow(g, most, inside, t);
      AllRunsTakeWays(g, call, most, Deeper(inside, t.head), t.kids, env);
      CopyTakesWays(g, call, inside, t, env);
    }
  }

  lemma {:induction false} MetaIfTakesWays(g: Globals, call: Oracle, most: set<Name>, inside: bool, t: Tree, env: Env)
    requires ClosedMeta(g, most, inside, t) && env.Keys <= most && t.head.MetaIf?
    ensures var meant := Specialise(g, call, inside, t, env);
            Missed in Ways(g, env.Keys, t) || (meant.Done? ==> Onward(meant.env.Keys) in Ways(g, env.Keys, t))
    decreases t, 0, 0
  {
    hide Eval;
    SpecialiseIf(g, call, inside, t, env);
    var p := Eval(g, call, t.kids[0], env);
    if p.Some? && Truth(p.value.0).Some? {
      EvalKeepsNames(g, call, t.kids[0], env);
      if Truth(p.value.0).value {
        RunsTakeWays(g, call, most, inside, t.kids[1], p.value.1);
      } else if |t.kids| > 2 {
        RunsTakeWays(g, call, most + DeclaresMeta(t.kids[1]), inside, t.kids[2], p.value.1);
      }
    }
  }

  /** What a copied node closes. */
  lemma CopyTakesWays(g: Globals, call: Oracle, inside: bool, t: Tree, env: Env)
    requires !t.head.MetaIf? && !t.head.MetaCalculation?
    requires var meant := SpecialiseAll(g, call, Deeper(inside, t.head), t.kids, env);
             Missed in WaysAll(g, env.Keys, t.kids) ||
             (meant.Done? ==> Onward(meant.env.Keys) in WaysAll(g, env.Keys, t.kids))
    ensures var meant := Specialise(g, call, inside, t, env);
            Missed in Ways(g, env.Keys, t) || (meant.Done? ==> Onward(meant.env.Keys) in Ways(g, env.Keys, t))
  {
    var inner := SpecialiseAll(g, call, Deeper(inside, t.head), t.kids, env);
    if Opens(t.head) {
      assert EndWay(env.Keys, Missed) == Missed;
      SpecialiseCopy(g, call, inside, t, env);
      if inner.Done? {
        assert Kept(env, inner.env).Keys == env.Keys * inner.env.Keys;
        assert EndWay(env.Keys, Onward(inner.env.Keys)) == Onward(Kept(env, inner.env).Keys);
      }
    } else if !t.head.MetaContribution? {
      SpecialiseCopy(g, call, inside, t, env);
    }
  }

  lemma {:induction false} AllRunsTakeWays(g: Globals, call: Oracle, most: set<Name>, inside: bool, ts: seq<Tree>,
                                           env: Env)
    requires ClosedMetas(g, most, inside, ts) && env.Keys <= most
    ensures var meant := SpecialiseAll(g, call, inside, ts, env);
            Missed in WaysAll(g, env.Keys, ts) || (meant.Done? ==> Onward(meant.env.Keys) in WaysAll(g, env.Keys, ts))
    decreases ts
  {
    if ts != [] {
      SpecialiseFirst(g, call, inside, ts, env);
      RunsTakeWays(g, call, most, inside, ts[0], env);
      WaysDeclare(g, env.Keys, ts[0]);
      if Missed in Ways(g, env.Keys, ts[0]) {
        assert Missed in WaysOn(g, Missed, ts[1..]);
      } else {
        var first := Specialise(g, call, inside, ts[0], env);
        if first.Done? {
          var w := Onward(first.env.Keys);
          AllRunsTakeWays(g, call, most + DeclaresMeta(ts[0]), inside, ts[1..], first.env);
          assert forall v | v in WaysOn(g, w, ts[1..]) :: v in WaysAll(g, env.Keys, ts);
        }
      }
    }
  }
}
