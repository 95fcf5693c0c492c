/** The callbacks of a running meta function and the instantiation around them
    (NodeContributor and instantiate in src/Codegen/CodeExecutor.cpp). */
module NodeContribution {
  import opened Wrappers
  import opened Ast
  import opened Layout
  import opened Sequences
  import opened Machine
  import opened Semantics
  import opened Runs
  import opened FunctionCodegen
  import opened MetaCodegen
  import opened Staging
  import opened Instantiation
  import opened LayoutWriting
  import opened LayoutReading
  import opened SpecialisedUnits

  class NodeContributor {
    const writer: LayoutWriter

    constructor (writer: LayoutWriter)
      ensures this.writer == writer
    {
      this.writer := writer;
    }

    /** Writes a copy of the node. */
    method Contribute(node: Head)
      modifies writer
      ensures writer.layout == old(writer.layout) + [Some(node)]
    {
      writer.DirectWrite(node);
    }

    /** Writes a declaration that holds the value: a statement inside a
        function, a constant at the top level. */
    method Introduce(name: Name, value: int, insideFunction: bool)
      modifies writer
      ensures writer.layout == old(writer.layout) + EncodeAll([Exported(name, value, insideFunction)])
    {
      writer.Write(ExportHead(name, insideFunction));
      writer.Write(IntegerLiteral(value));
      EncodeExported(name, value, insideFunction);
      assert EncodeAll([]) == [];
      assert Encode(Tree(ExportHead(name, insideFunction), [])) == [Some(ExportHead(name, insideFunction))];
      assert Encode(Tree(IntegerLiteral(value), [])) == [Some(IntegerLiteral(value))];
    }

    method Reduce()
      modifies writer
      ensures writer.layout == old(writer.layout) + [None]
    {
      writer.MarkReduce();
    }

    /** Performs the callback of an instruction of the meta function: the layout
        becomes what the machine says. */
    method Callback(i: Instr, st: State, call: Oracle)
      requires i.Contribute? || i.Reduce? || i.Introduce?
      requires st.out == writer.layout && Execute(i, st, call).Some?
      modifies writer
      ensures writer.layout == Execute(i, st, call).value.out
    {
      match i {
        case Contribute(node) => Contribute(node);
        case Reduce => Reduce();
        case Introduce(x, p, inside) =>
          EncodeExported(x, st.slots[p.id].value, inside);
          Introduce(x, st.slots[p.id].value, inside);
      }
    }
  }

  /** The unit holds one constant for every named parameter, in order, and then
      the trees. */
  ghost predicate BeginsWithParameters(name: Name, ps: Params, args: seq<int>, unit: Tree, ts: seq<Tree>)
    requires |args| == |ps|
  {
    var n := NamedIn(ps);
    unit.head == MetaUnit(name) && n <= |unit.kids| && AreParameters(ps, args, unit.kids[..n]) && unit.kids[n..] == ts
  }

  lemma UnitBeginsWithParameters(g: Globals, call: Oracle, name: Name, ps: Params, contribution: Tree, args: seq<int>)
    requires ClosedMetaFunction(g, ps, contribution) && |args| == |ps|
    ensures var unit := ReadBack(name, Instantiated(g, call, ps, contribution, args));
            unit.Some? ==>
              var rest := Specialise(g, call, false, contribution, Bind(map[], ps, args));
              !rest.Undefined? && BeginsWithParameters(name, ps, args, unit.value, rest.trees)
  {
    hide Instantiated, Specialise, AreParameters, Bind;
    ParametersComeFirst(g, call, ps, contribution, args);
  }

  /** Instantiates a meta declaration: writes a meta unit around what the
      compiled function contributes and reads the layout back. */
  method InstantiateMetaDecl(g: Globals, call: Oracle, name: Name, ps: Params, contribution: Tree, args: seq<int>)
    returns (unit: Option<Tree>)
    requires ClosedMetaFunction(g, ps, contribution) && |args| == |ps|
    requires contribution.head.MetaContribution? && WellKinded(contribution) && Derivable(false, contribution)
    ensures unit == ReadBack(name, Instantiated(g, call, ps, contribution, args))
    ensures unit.Some? ==> WellKinded(unit.value)
    ensures unit.Some? ==>
              var rest := Specialise(g, call, false, contribution, Bind(map[], ps, args));
              !rest.Undefined? && BeginsWithParameters(name, ps, args, unit.value, rest.trees)
  {
    hide ClosedMetaFunction, Derivable, PlainBodies, NeverReturns, GenMetaFunction, Run, Instantiated, ReadBack,
         Specialise, BeginsWithParameters;
    StagingIsSpecialisation(g, call, name, ps, contribution, args);
    UnitBeginsWithParameters(g, call, name, ps, contribution, args);
    var run := Run(GenMetaFunction(g, ps, contribution), call, args);
    if !run.Finished? {
      return None;
    }
    var writer := new LayoutWriter();
    writer.DirectWrite(MetaUnit(name));
    ghost var start := writer.layout;
    for i := 0 to |run.out|
      invariant writer.layout == start + run.out[..i]
    {
      if run.out[i].Some? {
        writer.DirectWrite(run.out[i].value);
      } else {
        writer.MarkReduce();
      }
      assert run.out[..i + 1] == run.out[..i] + [run.out[i]];
      Assoc(start, run.out[..i], [run.out[i]]);
    }
    assert run.out[..|run.out|] == run.out;
    writer.MarkReduce();
    assert writer.layout == [Some(MetaUnit(name))] + run.out + [None];
    var reader := new LayoutReader(writer.layout);
    unit := reader.ConsumeUnit();
    EncodeParse(writer.layout);
  }
}
