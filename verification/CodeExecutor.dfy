/** Shipping functions to the execution engine: every function a shipment needs
    is pulled into it first (resolveDependencies and pull in
    src/Codegen/CodeExecutor.cpp). */
module CodeExecution {
  import opened Machine
  import opened FunctionCodegen
  import opened Symbols
  import opened CodegenInstances

  /** The generated functions and the functions their code refers to. */
  type References = map<Sym, set<Sym>>

  /** What a waiting function is known by: keys are compared as pointers, so one
      symbol may wait under several keys.  The source can hold instantiations,
      too, though no lookup lets one wait. */
  datatype Key = ByFunction(sym: Sym) | ByDecl(sym: Sym) | ByInstantiation(id: nat, sym: Sym)

  datatype Pulls = Pulls(queue: set<Key>, available: set<Sym>)

  datatype Pulled = Next(st: Pulls) | Unresolved | Twice

  /** The references of a module that was generated to its end. */
  ghost predicate ReferencesOf(refs: References, m: Module) {
    refs.Keys == m.Keys && forall f | f in m :: refs[f] <= m.Keys && GraphRefers(m[f].blocks, refs[f])
  }

  /** A generated module provides whatever it is asked for. */
  lemma ModuleProvides(p: Program, m: Module, refs: References, queue: set<Key>)
    requires SelfContained(p, m) && ReferencesOf(refs, m) && forall k | k in queue :: k.sym in m
    ensures Provided(refs, queue)
    ensures forall f | f in m :: GraphRefers(m[f].blocks, m.Keys)
  {
    forall f | f in m
      ensures GraphRefers(m[f].blocks, m.Keys)
    {
      SelfContainedRefersToItself(p, m, f);
    }
  }

  /** Pulls the function of one waiting key: it fails when the function cannot
      be generated, and the assertion fails when it was pulled before. */
  function Pull(refs: References, st: Pulls, k: Key): Pulled {
    if k.sym !in refs then Unresolved
    else if k.sym in st.available then Twice
    else
      var available := st.available + {k.sym};
      Next(Pulls((st.queue - {k}) + KeysOf(refs[k.sym] - available), available))
  }

  function KeysOf(fs: set<Sym>): set<Key> {
    set f | f in fs :: ByFunction(f)
  }

  /** Pulls the keys of a schedule one after the other. */
  function PullAll(refs: References, st: Pulls, ks: seq<Key>): Pulled
    decreases ks
  {
    if ks == [] then Next(st)
    else if ks[0] !in st.queue then Unresolved
    else
      match Pull(refs, st, ks[0])
      case Next(next) => PullAll(refs, next, ks[1..])
      case other => other
  }

  /** Some order of pulling makes the assertion fail. */
  ghost predicate CanPullTwice(refs: References, st: Pulls) {
    exists ks :: PullAll(refs, st, ks).Twice?
  }

  /** A chain of references between functions that can be pulled, without repetition. */
  ghost predicate PullChain(refs: References, available: set<Sym>, path: seq<Sym>) {
    path != [] &&
    (forall i | 0 <= i < |path| :: path[i] in refs && path[i] !in available) &&
    (forall i | 0 < i < |path| :: path[i] in refs[path[i - 1]]) &&
    (forall i, j | 0 <= i < j < |path| :: path[i] != path[j])
  }

  /** A key leads to the symbol of another one that is not known as a function. */
  ghost predicate Reaches(refs: References, st: Pulls, k: Key, d: Key, path: seq<Sym>) {
    k in st.queue && d in st.queue && k != d && !d.ByFunction? &&
    PullChain(refs, st.available, path) && path[0] == k.sym && path[|path| - 1] == d.sym
  }

  ghost predicate Stale(refs: References, st: Pulls, k: Key) {
    k in st.queue && k.sym in st.available && k.sym in refs
  }

  ghost predicate Collision(refs: References, st: Pulls) {
    (exists k :: Stale(refs, st, k)) || exists k, d, path :: Reaches(refs, st, k, d, path)
  }

  lemma PullKeepsApart(refs: References, st: Pulls, k: Key)
    requires !Collision(refs, st) && k in st.queue
    ensures !Pull(refs, st, k).Twice?
    ensures Pull(refs, st, k).Next? ==> !Collision(refs, Pull(refs, st, k).st)
  {
    assert !Stale(refs, st, k);
    if Pull(refs, st, k).Next? && Collision(refs, Pull(refs, st, k).st) {
      var next := Pull(refs, st, k).st;
      if j :| Stale(refs, next, j) {
        StaleBefore(refs, st, k, j);
      } else {
        var j, d, path :| Reaches(refs, next, j, d, path);
        ReachesBefore(refs, st, k, j, d, path);
      }
    }
  }

  lemma StaleBefore(refs: References, st: Pulls, k: Key, j: Key)
    requires k in st.queue && Pull(refs, st, k).Next? && Stale(refs, Pull(refs, st, k).st, j)
    ensures Collision(refs, st)
  {
    assert j in st.queue;
    if j.sym in st.available {
      assert Stale(refs, st, j);
    } else {
      assert PullChain(refs, st.available, [k.sym]);
      if j.ByFunction? {
        assert Reaches(refs, st, j, k, [k.sym]);
      } else {
        assert Reaches(refs, st, k, j, [k.sym]);
      }
    }
  }

  lemma ReachesBefore(refs: References, st: Pulls, k: Key, j: Key, d: Key, path: seq<Sym>)
    requires k in st.queue && Pull(refs, st, k).Next? && Reaches(refs, Pull(refs, st, k).st, j, d, path)
    ensures Collision(refs, st)
  {
    var next := Pull(refs, st, k).st;
    assert d in st.queue;
    if j in st.queue {
      assert PullChain(refs, st.available, path);
      assert Reaches(refs, st, j, d, path);
    } else {
      var longer := [k.sym] + path;
      assert path[0] in refs[k.sym];
      assert k.sym in next.available;
      assert PullChain(refs, st.available, longer);
      assert longer[|longer| - 1] == d.sym;
      assert Reaches(refs, st, k, d, longer);
    }
  }

  lemma {:induction false} ApartNeverTwice(refs: References, st: Pulls, ks: seq<Key>)
    requires !Collision(refs, st)
    ensures !PullAll(refs, st, ks).Twice?
    decreases ks
  {
    if ks != [] && ks[0] in st.queue {
      PullKeepsApart(refs, st, ks[0]);
      if Pull(refs, st, ks[0]).Next? {
        ApartNeverTwice(refs, Pull(refs, st, ks[0]).st, ks[1..]);
      }
    }
  }

  /** The schedule that pulls along a chain ends in a double pull. */
  lemma {:induction false} ChainPullsTwice(refs: References, st: Pulls, k: Key, d: Key, path: seq<Sym>)
    returns (ks: seq<Key>)
    requires Reaches(refs, st, k, d, path)
    ensures PullAll(refs, st, ks).Twice?
    decreases path
  {
    var next := Pull(refs, st, k).st;
    if |path| == 1 {
      ks := [k, d];
      assert ks[1..] == [d];
      assert Pull(refs, next, d).Twice?;
    } else {
      var rest := path[1..];
      assert path[1] in refs[k.sym] && path[1] != k.sym;
      assert forall i | 0 <= i < |rest| :: rest[i] == path[i + 1];
      assert ByFunction(path[1]) in next.queue;
      assert PullChain(refs, next.available, rest);
      var more := ChainPullsTwice(refs, next, ByFunction(path[1]), d, rest);
      ks := [k] + more;
      assert ks[1..] == more;
    }
  }

  /** The assertion of `pull` can fail exactly when one waiting key leads, over
      functions not yet available, to the symbol of another key that is not
      known as a function, or waits for a function that is available. */
  lemma PulledTwiceIff(refs: References, st: Pulls)
    ensures CanPullTwice(refs, st) <==> Collision(refs, st)
  {
    if CanPullTwice(refs, st) {
      var ks :| PullAll(refs, st, ks).Twice?;
      if !Collision(refs, st) {
        ApartNeverTwice(refs, st, ks);
      }
    }
    if Collision(refs, st) {
      if k :| Stale(refs, st, k) {
        assert PullAll(refs, st, [k]).Twice?;
      } else {
        var k, d, path :| Reaches(refs, st, k, d, path);
        var ks := ChainPullsTwice(refs, st, k, d, path);
      }
    }
  }

  /** Two functions looked up as declarations for one shipment, the first
      calling the second: pulling the first one first pulls the second twice. */
  lemma PulledTwiceExample()
    ensures var refs: References := map["a" := {"b"}, "b" := {}];
            CanPullTwice(refs, Pulls({ByDecl("a"), ByDecl("b")}, {}))
  {
    var refs: References := map["a" := {"b"}, "b" := {}];
    var st := Pulls({ByDecl("a"), ByDecl("b")}, {});
    assert PullChain(refs, {}, ["a", "b"]);
    assert Reaches(refs, st, ByDecl("a"), ByDecl("b"), ["a", "b"]);
    PulledTwiceIff(refs, st);
  }

  /** A set of functions to which shipping the waiting keys leads. */
  ghost predicate Shippable(refs: References, st: Pulls, fs: set<Sym>) {
    (forall k | k in st.queue :: k.sym in fs) &&
    forall f, r | f in fs && f in refs && f !in st.available && r in refs[f] && r !in st.available :: r in fs
  }

  /** Between `start` and `now` only needed functions were pulled or put to wait. */
  ghost predicate LeadsTo(refs: References, start: Pulls, now: Pulls) {
    forall fs | Shippable(refs, start, fs) ::
      now.available <= start.available + fs && forall k | k in now.queue :: k.sym in fs
  }

  /** What waited at `start` waits or is available, and so does everything the
      functions pulled since refer to. */
  ghost predicate Shipped(refs: References, start: Pulls, now: Pulls) {
    (forall k | k in start.queue :: k in now.queue || k.sym in now.available) &&
    forall f | f in now.available && f !in start.available ::
      f in refs && forall r | r in refs[f] :: r in now.available || ByFunction(r) in now.queue
  }

  lemma StartsShipping(refs: References, start: Pulls)
    ensures LeadsTo(refs, start, start) && Shipped(refs, start, start)
  {
  }

  lemma KeepsShipping(refs: References, start: Pulls, now: Pulls, k: Key)
    requires LeadsTo(refs, start, now) && Shipped(refs, start, now) && start.available <= now.available
    requires k in now.queue && Pull(refs, now, k).Next?
    ensures var next := Pull(refs, now, k).st; LeadsTo(refs, start, next) && Shipped(refs, start, next)
  {
    var next := Pull(refs, now, k).st;
    forall fs | Shippable(refs, start, fs)
      ensures next.available <= start.available + fs && forall j | j in next.queue :: j.sym in fs
    {
      forall j | j in next.queue
        ensures j.sym in fs
      {
        if j !in now.queue {
          assert j.sym in refs[k.sym] && k.sym in fs;
        }
      }
    }
  }

  /** What waits can be provided, and so can all it refers to. */
  ghost predicate Provided(refs: References, queue: set<Key>) {
    (forall k | k in queue :: k.sym in refs) && forall f, r | f in refs && r in refs[f] :: r in refs
  }

  lemma ProvidedNeverFails(refs: References, start: Pulls, now: Pulls)
    requires Provided(refs, start.queue) && LeadsTo(refs, start, now)
    ensures forall k | k in now.queue :: k.sym in refs
  {
    assert Shippable(refs, start, refs.Keys);
  }

  lemma ShippedIsClosed(refs: References, start: Pulls, now: Pulls)
    requires Shipped(refs, start, now) && now.queue == {}
    ensures forall f | f in now.available && f !in start.available :: f in refs && refs[f] <= now.available
    ensures forall k | k in start.queue :: k.sym in now.available
  {
  }

  class CodeExecutor {
    /** The functions the amalgamated module can provide. */
    const refs: References
    var unresolvedDependencies: set<Key>
    var availableSymbols: set<Sym>
    /** The functions whose bodies the next shipment holds. */
    var shipment: set<Sym>

    ghost function Now(): Pulls
      reads this
    {
      Pulls(unresolvedDependencies, availableSymbols)
    }

    constructor (refs: References)
      ensures this.refs == refs && Now() == Pulls({}, {}) && shipment == {}
    {
      this.refs := refs;
      unresolvedDependencies, availableSymbols, shipment := {}, {}, {};
    }

    method SetGlobalAsUnresolved(k: Key)
      modifies this`unresolvedDependencies
      ensures unresolvedDependencies == old(unresolvedDependencies) + {k}
    {
      unresolvedDependencies := unresolvedDependencies + {k};
    }

    /** A function that compile-time code calls by name. */
    method LookupFunction(f: Sym)
      modifies this`unresolvedDependencies
      ensures unresolvedDependencies ==
                old(unresolvedDependencies) + (if f in availableSymbols then {} else {ByDecl(f)})
    {
      if f !in availableSymbols {
        SetGlobalAsUnresolved(ByDecl(f));
      }
    }

    /** A function an instantiation exports. */
    method LookupExported(f: Sym)
      modifies this`unresolvedDependencies
      ensures unresolvedDependencies ==
              old(unresolvedDependencies) + (if f in availableSymbols then {} else {ByFunction(f)})
    {
      if f !in availableSymbols {
        SetGlobalAsUnresolved(ByFunction(f));
      }
    }

    method SetGlobalAsResolved(f: Sym)
      requires f !in availableSymbols
      modifies this`availableSymbols
      ensures availableSymbols == old(availableSymbols) + {f}
    {
      availableSymbols := availableSymbols + {f};
    }

    /** Clones a generated function into the shipment; what it refers to must
        follow unless it is available. */
    method PullFunction(f: Sym)
      requires f in refs && f !in availableSymbols
      modifies this
      ensures availableSymbols == old(availableSymbols) + {f} && shipment == old(shipment) + {f}
      ensures unresolvedDependencies == old(unresolvedDependencies) + KeysOf(refs[f] - availableSymbols)
    {
      SetGlobalAsResolved(f);
      var references := refs[f];
      ghost var before := unresolvedDependencies;
      while references != {}
        invariant references <= refs[f]
        invariant availableSymbols == old(availableSymbols) + {f} && shipment == old(shipment)
        invariant unresolvedDependencies == before + KeysOf(refs[f] - references - availableSymbols)
        decreases references
      {
        var r :| r in references;
        references := references - {r};
        if r !in availableSymbols {
          SetGlobalAsUnresolved(ByFunction(r));
        }
      }
      shipment := shipment + {f};
    }

    /** Pulls until nothing waits any more; no symbol is ever pulled twice.  On
        success the shipment and what was available are closed under
        references, and hold no function that was not asked for. */
    method ResolveDependencies() returns (ok: bool)
      requires !Collision(refs, Now())
      modifies this
      ensures availableSymbols >= old(availableSymbols)
      ensures shipment == old(shipment) + (availableSymbols - old(availableSymbols))
      ensures LeadsTo(refs, old(Now()), Now())
      ensures ok ==> unresolvedDependencies == {} && Shipped(refs, old(Now()), Now())
      ensures ok ==> forall k | k in old(unresolvedDependencies) :: k.sym in availableSymbols
      ensures ok ==>
                forall f | f in availableSymbols && f !in old(availableSymbols) ::
                  f in refs && refs[f] <= availableSymbols
      ensures !ok ==> exists k :: k in unresolvedDependencies && k.sym !in refs
      ensures Provided(refs, old(unresolvedDependencies)) ==> ok
    {
      hide Collision, LeadsTo, Shipped, Provided;
      ghost var start := Now();
      StartsShipping(refs, start);
      while unresolvedDependencies != {}
        invariant !Collision(refs, Now())
        invariant availableSymbols >= start.available
        invariant shipment == old(shipment) + (availableSymbols - start.available)
        invariant LeadsTo(refs, start, Now()) && Shipped(refs, start, Now())
        decreases |refs.Keys - availableSymbols|
      {
        var current :| current in unresolvedDependencies;
        ghost var st := Now();
        PullKeepsApart(refs, st, current);
        if current.sym !in refs {
          if Provided(refs, start.queue) {
            ProvidedNeverFails(refs, start, st);
          }
          return false;
        }
        KeepsShipping(refs, start, st, current);
        unresolvedDependencies := unresolvedDependencies - {current};
        PullFunction(current.sym);
        assert current.sym in refs.Keys - st.available;
        Fewer(refs.Keys - availableSymbols, refs.Keys - st.available);
      }
      ShippedIsClosed(refs, start, Now());
      return true;
    }
  }
}
