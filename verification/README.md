# Verified model of swy

swy is a compiler for a small language with compile-time meta-programming. It
hands syntax trees around as a flat prefix layout, compiles functions into basic
blocks, and compiles *meta declarations* into functions that, when run at compile
time, write the layout of new code, which is read back as a fresh unit.

This project models that core in Dafny and proves what it is for. Code the
original writes as methods that change an object is a class here; each of its
methods is proved against a function, and the theorems are about the functions.

## Main results

* **The layout is a faithful encoding.** Reading the layout of any well-kinded tree
  rebuilds the tree and leaves any suffix alone (`Layout.ParseEncode`); every layout
  the reader accepts is the layout of its result (`Layout.EncodeParse`); the reader
  never misreads the layout of any other tree (`Dumper.ReadsExactlyWellKinded`); the
  markers stand exactly where sizes vary (`Kinds.MarkersWhereSizesVary`); the
  crawl that only counts markers agrees with the tree (`Crawl.CrawlAgrees`).
* **Function codegen preserves meaning.** `FunctionCodegen.ProgramPreserved` relates
  whole programs, with calls and recursion, to a big-step semantics that reads
  expressions exactly as the generator does: late loads, and branches that test what
  an expression stands for. What the operators compute is pinned by laws between
  them (`Operators.GeneratedArithmetic`). `PlainReading` says when this is the plain meaning a
  reader expects, and `DisciplinedProgramPreserved` carries it to generated programs.
  Every graph is well formed and acyclic, so a call ends within as many blocks as
  the function has.
* **Staging is specialisation.** For all arguments and all meanings of the functions
  called, compiling a meta declaration, running it and reading back what it wrote gives
  the tree specialised directly (`Instantiation.InstantiationWrites`,
  `SpecialisedUnits.StagingIsSpecialisation`), also where meta code refers to names that
  only a branch of a meta-if declares.
* **Slots are allocated before they are used.** On every path through the code of a
  derived function; through the code of a meta declaration exactly when nothing behind a
  meta-if refers to a name of its branches (`NeedsDominance.MetaDominatedIff`,
  `DerivedDominance.DerivedMetaDominatedIff`), and then no run uses a slot that is not
  there, and none gets stuck for want of a name (`Dominance.DominatedRuns`,
  `NamesSuffice.NeverStuckForNames`).
* **The stages fit together.** What the grammar derives and the reader binds without an
  error is what the generators accept, if and only if a few things neither of them checks
  hold: references do not name meta declarations or named results, instantiations
  succeed, calculations can be left, and nothing follows a return
  (`ReadIsClosed.FunctionIsClosed`, `ReadIsClosed.MetaDeclIsClosed`); so the two results
  above hold for derived code (`DerivedFunctionMeans`, `DerivedStaging`).
* **The generated module is complete and correct.** The worklist ends; it succeeds
  exactly when every needed instantiation does; the module is the least closed set of
  functions, each generated once; and calls into it compute what the source means
  (`CodegenInstances.ModulePreserved`).
* **References are bound lexically.** The scopes of the reader agree with a definition
  of visibility by the places of nodes alone (`LexicalScope.BindsLexically`,
  `UnitBinding.UnitBindsLexically`), the order of top-level declarations does not
  matter, and no name is ever bound twice along a chain but for one exception.

## Where the code falls short of the intent

Each of these is proved with an input, and where possible with the exact condition.

* A right operand that assigns the variable on the left is seen too late:
  `i + (i = 5)` (`Examples.LateLoadInFunction`). The condition given is sufficient;
  it is not necessary, because `i + (i = i)` is harmless (`SelfAssignmentExample`).
* A branch on what stands for a variable or a function tests an address and is always
  taken (`PlainReading.BranchesTestValues`, an equivalence for all conditions).
* A meta-if or a calculation that is the whole body of a function makes the unit
  unreadable unless it comes to exactly one statement
  (`SpecialisedUnits.StagingIsSpecialisation`, `Examples.MetaBodyInDecl`).
* A calculation that returns ends the meta function early: inside a function nothing
  can be read any more, between declarations the rest is silently lost
  (`SpecialisedUnits.StagingIsSpecialisation`, `ReturnLosesTheRest`).
* A name calculated in a branch of a meta-if may be used behind it; when the branch is
  not taken its slot was never allocated (`LateNames.LateNameExample`,
  `DerivedDominance.DerivedMetaDominatedIff`, an equivalence over all paths).
* A contributed local may have the name of a parameter, and the unit then never binds
  (`Examples.LocalOverParameterExample`; `BoundUnits.InstantiationBindsIff`, an
  equivalence).
* A calculation may return a value from the meta function, which has no result, and a
  function with a result may come to its end
  (`ReturnTypes.MetaFunctionFitsIff`, `ReturnTypes.FunctionFitsIff`, equivalences).
* A statement after one that always returns makes the generator dereference a block that
  is not there (`NullBlocks.MissesBlockIff`, an equivalence;
  `Examples.ReturnTwiceInFunction`).
* A function may name its result and refer to it, but no value is ever generated for it
  (`ReadIsClosed.NamedResultExample`, `ReadIsClosed.FunctionIsClosed`, an equivalence).
* Dependency analysis does not enter the branches of a meta-if, so a lookup there may
  come before its instantiation
  (`DependencyAnalysis.MetaLookupsAreConsumed`, an equivalence;
  `Examples.UncoveredInDecl`).
* A function waiting under two keys, or reached from another waiting function while it
  waits under its declaration, can be pulled into a shipment twice
  (`CodeExecution.PulledTwiceIff`, an equivalence).

## Conventions

A tree is a head (kind and payload) with children. Names stand for the declarations
they are bound to, which is sound because no name is declared over a visible one. The
calls a function makes are answered by an oracle; programs close the recursion by
bounding its depth, for every bound. `None`, `Stuck` and a false result stand for
failing assertions, undefined behaviour and reported errors. Where two trees are
distinguished by where they stand, places are paths.

Files, from the bottom up: `Ast`, `Sequences`, `Layout`, `Kinds`, `Crawl`, `LayoutWriter`,
`LayoutReader`, `Dumper`, `NodeCloning`; `Machine`, `Semantics`, `PlainReading`, `ExprCodegen`, `Graph`,
`StmtCodegen`, `Acyclicity`, `Runs`, `Simulation`, `FunctionCodegen`, `Operators`, `FunctionGenerator`;
`MetaCodegen`, `Staging`, `Instantiation`, `SpecialisedUnits`, `PlainStaging`,
`MetaGenerator`, `NodeContributor`; `DependencyAnalysis`, `Lookups`, `Symbols`,
`CodegenInstance`, `CodeExecutor`; `Binding`, `LexicalScope`, `UnitBinding`, `ASTBuilder`,
`ScopedReader`, `CalculationExports`, `Grammar`, `Productions`, `NullBlocks`, `WaysThrough`,
`NamesSuffice`, `Dominance`, `MetaDominance`, `NeedsDominance`, `ReadIsClosed`,
`DerivedDominance`, `LateNames`, `ReturnTypes`, `Ranges`, `BoundUnits`, `Examples`,
`SourceLocation`.

## Model

| member | source | states |
|---|---|---|
| `Ast.KidsFitAt` | src/AST/AST.hpp:163-206 | every child of a well-kinded node is well kinded and was allowed after the children before it |
| `Ast.KidsFitComplete` | src/AST/AST.hpp:421-456 | a well-kinded node has all the children its kind needs |
| `Layout.ParseEncode` | src/Parse/ASTLayout.cpp:117-371 | reading the layout of any well-kinded tree rebuilds that tree, consumes exactly its layout and leaves any suffix untouched |
| `Layout.EncodeParse` | src/Parse/ASTLayout.cpp:117-371 | every layout the reader accepts is the layout of the well-kinded tree it returns, followed by what it left |
| `Layout.EncodeInjective` | src/Parse/ASTLayout.cpp:43-55 | two well-kinded trees never share a layout |
| `Kinds.SizesAreKnown` | src/AST/AST.hpp:421-582 | kind by kind, how many children a node without a marker has: references, literals and arguments none, one or two where the source fixes it |
| `Kinds.MarkersWhereSizesVary` | src/AST/ASTPredicate.hpp:84-90 | a kind carries a marker if and only if two trees of the kind have different numbers of children |
| `Kinds.LayoutOf` | src/Parse/ASTLayout.cpp:27-32 | a layout closes a node with a marker exactly when the sizes of its kind vary; a reference is one element |
| `Kinds.ListsHold` | src/Parse/ASTLayout.cpp:123-271 | which kinds of children units, argument lists, contributions and compounds hold |
| `Kinds.OperandsAre` | src/Parse/ASTLayout.cpp:211-292 | which kinds of expressions statements and constants hold |
| `LayoutWriting.LayoutWriter.constructor` | src/Parse/ASTLayout.cpp:48-55 | a new writer holds the empty layout |
| `LayoutWriting.LayoutWriter.DirectWrite` | src/Parse/ASTLayout.cpp:48-50 | appends the node and nothing else |
| `LayoutWriting.LayoutWriter.MarkReduce` | src/Parse/ASTLayout.cpp:52-55 | appends one reduce marker |
| `LayoutWriting.LayoutWriter.Write` | src/Parse/ASTLayout.cpp:27-32 | appends the layout of a node without children, marker included |
| `LayoutWriting.LayoutWriter.Contribute` | src/Parse/LocalScopeVisitor.cpp:197-206 | visiting a parse tree appends the node, its children and a marker, the marker exactly when trees of the kind may have different numbers of children |
| `LayoutReading.LayoutReader.constructor` | src/Parse/ASTLayout.cpp:57-60 | reading starts at the first element |
| `LayoutReading.LayoutReader.Peek` | src/Parse/ASTLayout.cpp:57-60 | the element at the position; fails at the end |
| `LayoutReading.LayoutReader.ShouldReduce` | src/Parse/ASTLayout.cpp:78-81 | is the next element a marker |
| `LayoutReading.LayoutReader.Shift` | src/Parse/ASTLayout.cpp:62-66 | yields the element and moves past it |
| `LayoutReading.LayoutReader.Reduce` | src/Parse/ASTLayout.cpp:78-81 | moves past a marker, and fails on anything else |
| `LayoutReading.LayoutReader.CrawlExpand` | src/Parse/ASTLayout.cpp:83-91 | counting markers alone skips to the end of the current scope |
| `LayoutReading.LayoutReader.CrawlCurrentScope` | src/Parse/ASTLayout.cpp:93-105 | hands over the nodes of the scope and restores the position |
| `Crawl.CrawlAgrees` | src/Parse/ASTLayout.cpp:83-105 | the marker-only crawl visits exactly the scope's children and the descendants no marker hides, in order, whatever follows |
| `Crawl.SkipPrefix` | src/Parse/ASTLayout.cpp:83-91 | skipping never stops inside complete trees |
| `Crawl.IntroducesTopLevelOnly` | src/Parse/ASTLayout.cpp:373-399 | the names a unit introduces are exactly those of its top-level declarations, once each and in order |
| `LayoutReading.LayoutReader.Consume` | src/Parse/ASTLayout.cpp:117-121 | consumes one node of any kind as the parse says, or fails when the parse does |
| `LayoutReading.LayoutReader.ConsumeUnit` | src/Parse/ASTLayout.cpp:123-162 | consumes the top-level declarations of a compilation or meta unit up to its marker |
| `LayoutReading.LayoutReader.ConsumeFunctionDecl` | src/Parse/ASTLayout.cpp:164-176 | consumes the argument list, the return type if there is one, and one statement |
| `LayoutReading.LayoutReader.ConsumeArgumentDeclList` | src/Parse/ASTLayout.cpp:178-184 | consumes arguments up to the marker |
| `LayoutReading.LayoutReader.ConsumeAnonymousArgumentDecl` | src/Parse/ASTLayout.cpp:186-197 | consumes one argument, named or not |
| `LayoutReading.LayoutReader.ConsumeMetaDecl` | src/Parse/ASTLayout.cpp:199-209 | consumes an argument list and a contribution, without a marker |
| `LayoutReading.LayoutReader.ConsumeGlobalConstantDecl` | src/Parse/ASTLayout.cpp:211-215 | consumes one constant expression |
| `LayoutReading.LayoutReader.ConsumeMetaContribution` | src/Parse/ASTLayout.cpp:217-223 | consumes nodes of any kind up to the marker |
| `LayoutReading.LayoutReader.ConsumeMetaInstantiationExpr` | src/Parse/ASTLayout.cpp:225-232 | consumes a reference and arguments up to the marker |
| `LayoutReading.LayoutReader.ConsumeStmt` | src/Parse/ASTLayout.cpp:234-242 | consumes one statement and fails on any other kind |
| `LayoutReading.LayoutReader.ConsumeExpr` | src/Parse/ASTLayout.cpp:244-252 | consumes one expression and fails on any other kind |
| `LayoutReading.LayoutReader.ConsumeCompoundStmt` | src/Parse/ASTLayout.cpp:254-271 | consumes statements up to the marker |
| `LayoutReading.LayoutReader.ConsumeReturnStmt` | src/Parse/ASTLayout.cpp:273-279 | consumes at most one expression up to the marker |
| `LayoutReading.LayoutReader.ConsumeExpressionStmt` | src/Parse/ASTLayout.cpp:281-285 | consumes exactly one expression |
| `LayoutReading.LayoutReader.ConsumeDeclStmt` | src/Parse/ASTLayout.cpp:287-292 | consumes exactly one expression |
| `LayoutReading.LayoutReader.ConsumeIfStmt` | src/Parse/ASTLayout.cpp:294-302 | consumes a condition, a branch and possibly another |
| `LayoutReading.LayoutReader.ConsumeMetaIfStmt` | src/Parse/ASTLayout.cpp:304-318 | consumes a condition, a contribution and possibly another |
| `LayoutReading.LayoutReader.ConsumeMetaCalculationStmt` | src/Parse/ASTLayout.cpp:320-331 | consumes exactly one statement |
| `LayoutReading.LayoutReader.ConsumeDeclRefExpr` | src/Parse/ASTLayout.cpp:333-343 | consumes exactly the one element of a reference, whatever follows, and fails on any other kind |
| `LayoutReading.LayoutReader.ConsumeBinaryOperatorExpr` | src/Parse/ASTLayout.cpp:357-362 | consumes two expressions |
| `LayoutReading.LayoutReader.ConsumeCallOperatorExpr` | src/Parse/ASTLayout.cpp:364-371 | consumes a callee and arguments up to the marker |
| `LayoutReading.LayoutReader.ConsumeTopLevelDecl` | src/Parse/ASTLayout.cpp:401-406 | consumes one top-level node and fails on any other kind |
| `LayoutReading.LayoutReader.ConsumeConstantExpr` | src/Parse/ASTLayout.cpp:408-414 | consumes one literal and fails on any other kind |
| `LayoutReading.WriteThenRead` | src/Parse/ASTLayout.cpp:27-55 | writing a tree and consuming the layout yields the tree again |
| `Dumper.DumpEncode` | src/Tooling/ASTDumper.cpp:93-133 | the arity-driven reader rebuilds every tree whose sizes fit and stops exactly at the end of its layout |
| `Dumper.DumperAgrees` | src/Tooling/ASTDumper.cpp:93-133 | whatever the kind-driven reader accepts, the dumper reads alike |
| `Dumper.ReadsExactlyWellKinded` | src/Parse/ASTLayout.cpp:117-371 | the reader never misreads: it rebuilds exactly the well-kinded trees and rejects the layout of every other tree whose sizes fit |
| `Dumper.LayoutDumper.CreateStructured` | src/Tooling/ASTDumper.cpp:93-133 | builds the node at the iterator with all its children and moves just past it |
| `Dumper.DumpLayout` | src/Tooling/ASTDumper.cpp:157-166 | dumps a whole layout and insists on its end |
| `NodeCloning.Node.AddChild` | src/AST/AST.hpp:94-108 | adds one child and keeps the others |
| `NodeCloning.Clone` | src/AST/ASTCloner.cpp:25-152 | a new node of the same kind and payload, without children |
| `NodeCloning.CloneLayout` | src/Codegen/CodeExecutor.cpp:93-97 | clones every node of a layout into new objects and keeps the markers |
| `NodeCloning.NodeReader.Consume` | src/Parse/ASTLayout.cpp:117-371 | links the objects of a layout to the tree it encodes, in place, and leaves later objects alone |
| `NodeCloning.DeepCopy` | src/Codegen/CodeExecutor.cpp:334-355 | shallow clones read again are a deep copy: equal, of new objects only, none at two places, the original unchanged |
| `Machine.Wrap` | src/Codegen/FunctionCodegen.cpp:299-309 | 32-bit results wrap around |
| `Machine.Quotient` | src/Codegen/FunctionCodegen.cpp:302-303 | signed division truncates toward zero |
| `Operators.PlusCounts` | src/Codegen/FunctionCodegen.cpp:304-305 | adding one counts up and starts over behind the largest integer; adding b + 1 is adding b and then one |
| `Operators.MinusUndoesPlus` | src/Codegen/FunctionCodegen.cpp:304-307 | the sum of a and b less b is a, for all 32-bit integers |
| `Operators.MulIsRepeatedPlus` | src/Codegen/FunctionCodegen.cpp:300-301 | a product is a repeated sum, for negative factors as well |
| `Operators.DivLeavesRemainder` | src/Codegen/FunctionCodegen.cpp:302-303 | a quotient leaves a remainder smaller than the divisor with the sign of the dividend, and is undefined exactly for zero divisors and overflow |
| `Operators.ComparisonsOrder` | src/Codegen/FunctionCodegen.cpp:311-334 | less-than is the order of the integers, the other comparisons are its swaps, negations and conjunctions |
| `Operators.GeneratedArithmetic` | src/Codegen/FunctionCodegen.cpp:285-309 | the laws hold of runs of the code generated for `return x op y;` |
| `Operators.GeneratedComparisons` | src/Codegen/FunctionCodegen.cpp:311-334 | running a generated comparison returns 1 when it holds and 0 when it does not |
| `PlainReading.LateIsEager` | src/Codegen/FunctionCodegen.cpp:285-309 | loading operands after both sides are generated yields what loading them at once would, when no right operand assigns the variable its left operand stands for |
| `PlainReading.LateLoadExample` | src/Codegen/FunctionCodegen.cpp:285-309 | `i + (i = 5)` adds the new value twice |
| `Examples.LateLoadInFunction` | src/Codegen/FunctionCodegen.cpp:285-309 | `f(int i) int -> return i + (i = 5);` is derived, read without an error, and returns 10 for the argument 1 where its reader expects 6 |
| `PlainReading.SelfAssignmentExample` | src/Codegen/FunctionCodegen.cpp:285-309 | the condition is not necessary: `i + (i = i)` breaks it and both readings agree in every environment |
| `PlainReading.BranchesTestValues` | src/Codegen/FunctionCodegen.cpp:398-401 | a branch tests the loaded value of its condition in every environment if and only if the condition stands for no variable and no function, whatever its operands do |
| `PlainReading.ReadingsAgree` | src/Codegen/FunctionCodegen.cpp:138-234 | for disciplined statements the exact meaning is the plain one |
| `PlainReading.OrdinaryIsDisciplined` | src/Codegen/FunctionCodegen.cpp:138-309 | statements that assign nowhere inside an expression, and whose conditions are no bare names, are disciplined |
| `ExprCodegen.ExprComputes` | src/Codegen/FunctionCodegen.cpp:236-352 | the code of an expression computes its exact meaning from every agreeing state and gets stuck exactly when there is none |
| `ExprCodegen.LoadedComputes` | src/Codegen/FunctionCodegen.cpp:413-418 | a value that is loaded at once is the content of what the expression stands for |
| `StmtCodegen.StmtRegion` | src/Codegen/FunctionCodegen.cpp:129-234 | `codegenStmt` leaves the builder in the one unterminated block, every other block it made ends in its only terminator, and it returns null exactly when every path of the statement returns |
| `NullBlocks.NullWhenReturning` | src/Codegen/FunctionCodegen.cpp:138-234 | a statement leaves no block behind exactly when all its paths return |
| `NullBlocks.NoBlockNoEnd` | src/Codegen/FunctionCodegen.cpp:138-234 | a statement that leaves no block behind never ends normally |
| `NullBlocks.MissesBlockIff` | src/Codegen/FunctionCodegen.cpp:150-174 | generation dereferences a missing block if and only if some list holds a statement after one that always returns; otherwise it generates what the specification says |
| `NullBlocks.ReturnTwiceExample` | src/Codegen/FunctionCodegen.cpp:150-157 | `{ return 1; return 2; }` is generated into no block |
| `Examples.ReturnTwiceInFunction` | src/Codegen/FunctionCodegen.cpp:150-157 | the same in a function that is derived and read without an error |
| `StmtCodegen.RegionBranch` | src/Codegen/FunctionCodegen.cpp:354-411 | a finished if structure branches to its two blocks only and leaves every other block alone |
| `Acyclicity.StmtOrder` | src/Codegen/FunctionCodegen.cpp:354-411 | the blocks of a statement have a topological order |
| `Acyclicity.CreationOrderExample` | src/Codegen/FunctionCodegen.cpp:354-411 | the order of creation is none: the continue block of an `if` is older than the block of its false branch, which jumps back to it |
| `Simulation.StmtScopes` | src/Codegen/FunctionCodegen.cpp:138-216 | generating a statement keeps the slots of visible names and gives every name it may declare a new one, so lookups of locals never fail |
| `Simulation.StmtSimulates` | src/Codegen/FunctionCodegen.cpp:129-234 | from every state that agrees with an environment, on names that are declared and on names whose declaration was not executed, the code of a statement ends where the builder goes on, returns the same value, or gets stuck exactly when the statement has no meaning |
| `Runs.AcyclicEnds` | src/Codegen/FunctionCodegen.cpp:354-411 | a run of an acyclic graph passes at most as many blocks as the graph has |
| `FunctionCodegen.FrameRuns` | src/Codegen/FunctionCodegen.cpp:85-127 | after the stack frame every named argument has its value in a slot of its own |
| `FunctionCodegen.FunctionWellFormed` | src/Codegen/FunctionCodegen.cpp:49-57 | every generated block ends in its only terminator and jumps stay inside the function |
| `FunctionCodegen.FunctionAcyclic` | src/Codegen/FunctionCodegen.cpp:49-57 | every generated graph is acyclic |
| `FunctionCodegen.FunctionMeans` | src/Codegen/FunctionCodegen.cpp:49-57 | a call of the generated function returns what the function means, for all arguments and all callees |
| `FunctionCodegen.ProgramPreserved` | src/Codegen/FunctionCodegen.cpp:49-418 | generated programs compute the exact meaning of their source: results, missing results and undefined behaviour, at every depth of recursion |
| `FunctionCodegen.DisciplinedProgramPreserved` | src/Codegen/FunctionCodegen.cpp:49-418 | disciplined programs compute the plain meaning of their source |
| `FunctionGeneration.FunctionGenerator.NewBlock` | src/Codegen/FunctionCodegen.cpp:67-74 | creates an empty block and leaves the insertion point |
| `FunctionGeneration.FunctionGenerator.Load` | src/Codegen/FunctionCodegen.cpp:413-418 | loads pointers and nothing else |
| `FunctionGeneration.FunctionGenerator.LookupLocal` | src/Codegen/FunctionCodegen.cpp:43-47 | a visible declaration always has a value |
| `FunctionGeneration.FunctionGenerator.CodegenExpr` | src/Codegen/FunctionCodegen.cpp:236-283 | appends exactly the code the specification has for the expression and yields its operand |
| `FunctionGeneration.FunctionGenerator.CodegenBinaryOperator` | src/Codegen/FunctionCodegen.cpp:285-338 | appends the code of both operands, then their loads, then the operator |
| `FunctionGeneration.FunctionGenerator.CodegenCallOperator` | src/Codegen/FunctionCodegen.cpp:340-352 | appends callee, loaded arguments in order, and the call |
| `FunctionGeneration.FunctionGenerator.LazyGetContinueBlock` | src/Codegen/FunctionCodegen.cpp:358-366 | creates the continue block on first use only |
| `FunctionGeneration.FunctionGenerator.CloseBranch` | src/Codegen/FunctionCodegen.cpp:368-374 | jumps to the continue block exactly when the branch can be left |
| `FunctionGeneration.FunctionGenerator.CodegenBranch` | src/Codegen/FunctionCodegen.cpp:397-411 | generates the condition into the block the structure began in and goes on in the continue block if there is one |
| `FunctionGeneration.FunctionGenerator.CodegenStmt` | src/Codegen/FunctionCodegen.cpp:129-136 | leaves the builder as the specification says, whatever the statement |
| `FunctionGeneration.FunctionGenerator.CodegenChildren` | src/Codegen/FunctionCodegen.cpp:138-174 | generates statements one after the other and never one after a terminated one |
| `FunctionGeneration.FunctionGenerator.CodegenReturnStmt` | src/Codegen/FunctionCodegen.cpp:176-186 | ends the block with the loaded value or without one |
| `FunctionGeneration.FunctionGenerator.CodegenDeclStmt` | src/Codegen/FunctionCodegen.cpp:195-204 | allocates a slot after the code of the value, stores the loaded value and introduces the name |
| `FunctionGeneration.FunctionGenerator.CodegenIfStmt` | src/Codegen/FunctionCodegen.cpp:218-234 | generates both branches before the condition |
| `FunctionGeneration.FunctionGenerator.CodegenStackFrame` | src/Codegen/FunctionCodegen.cpp:85-127 | creates the entry block and frames the named arguments |
| `FunctionGeneration.FunctionGenerator.Codegen` | src/Codegen/FunctionCodegen.cpp:49-57 | generates the whole function; the graph is well formed and acyclic |
| `MetaCodegen.NoReturnNeverReturns` | src/Codegen/MetaCodegen.cpp:106-127 | a calculation without a return runs to its end |
| `MetaCodegen.ExportsHaveValues` | src/Codegen/MetaCodegen.cpp:112-124 | whatever a calculation exports has a value when it ends |
| `MetaCodegen.ExportsAreDeclared` | src/Codegen/MetaCodegen.cpp:112-124 | a calculation exports exactly the names it may leave declared |
| `Staging.MetaRegion` | src/Codegen/MetaCodegen.cpp:71-199 | the staging compiler always leaves the builder in its one unterminated block |
| `Staging.MetaOrder` | src/Codegen/MetaCodegen.cpp:71-199 | the blocks of a compiled meta tree have a topological order |
| `Staging.MetaScopes` | src/Codegen/MetaCodegen.cpp:106-127 | exported declarations still have their slots when they are introduced |
| `Staging.MetaWrites` | src/Codegen/MetaCodegen.cpp:71-199 | running the code of a meta tree writes exactly the layout of the specialised trees, returns early exactly when a calculation does, and gets stuck exactly when nothing is defined |
| `Staging.IntroduceWrites` | src/Codegen/MetaCodegen.cpp:244-261 | every exported value is written as a declaration holding it, in order |
| `MetaCodegen.ExportsInOrder` | src/Codegen/MetaCodegen.cpp:244-261 | one declaration per exported name, in order: a statement inside a function, a constant outside |
| `Instantiation.ParametersComeFirst` | src/Codegen/MetaCodegen.cpp:47-53 | an instantiation begins with exactly one constant per named parameter, each standing behind those of the named parameters before it and holding its argument; the specialised contribution follows |
| `Instantiation.MetaFrameRuns` | src/Codegen/MetaCodegen.cpp:38-53 | the frame writes one constant per named parameter, in order and with its argument, and nothing else |
| `Instantiation.MetaFunctionWellFormed` | src/Codegen/MetaCodegen.cpp:38-63 | compiled meta functions are well formed and acyclic |
| `Instantiation.InstantiationWrites` | src/Codegen/CodeExecutor.cpp:292-375 | for every closed meta declaration and all arguments the run writes the encoding of the specialised unit, ends early exactly when a calculation returns, and gets stuck exactly when nothing is defined; the unit is the constants of the parameters and then the specialised contribution |
| `SpecialisedUnits.SpecialisedMembers` | src/Codegen/MetaCodegen.cpp:71-199 | what the grammar derives is specialised to functions and constants of the right kinds |
| `SpecialisedUnits.CutReads` | src/Codegen/CodeExecutor.cpp:337-357 | a layout left unfinished inside a node cannot be read; one left between declarations reads as what was finished |
| `SpecialisedUnits.StagingIsSpecialisation` | src/Codegen/CodeExecutor.cpp:292-375 | generating, running and re-reading a meta declaration equals direct specialisation of its tree, with the exact conditions under which nothing is read |
| `SpecialisedUnits.MetaBodyExample` | src/Parse/ASTLayout.cpp:164-176 | a meta-if as a whole function body that contributes two statements makes the read fail |
| `Examples.MetaBodyInDecl` | src/Parse/ASTLayout.cpp:164-176 | the same in a declaration that is derived and read without an error |
| `SpecialisedUnits.ReturnLosesTheRest` | src/Codegen/MetaCodegen.cpp:106-127 | a calculation that returns silently drops everything after it from the unit |
| `PlainStaging.DisciplinedStaging` | src/Codegen/MetaCodegen.cpp:84-104 | for disciplined declarations the instantiation is the one with conditions tested by value |
| `MetaGeneration.Cursor.Descend` | src/AST/ASTCursor.cpp:43-113 | moves one level down in both dimensions |
| `MetaGeneration.Cursor.Ascend` | src/AST/ASTCursor.cpp:43-113 | undoes a descent |
| `MetaGeneration.MetaGenerator.CodegenMeta` | src/Codegen/MetaCodegen.cpp:71-127 | leaves builder and cursor as the specification says; the cursor's assertions hold and it ends where it began |
| `MetaGeneration.MetaGenerator.CodegenNode` | src/Codegen/MetaCodegen.cpp:129-161 | contributes the node, its children and its marker |
| `MetaGeneration.MetaGenerator.CodegenChildrenContribution` | src/Codegen/MetaCodegen.cpp:184-199 | threads the current block through the children |
| `MetaGeneration.MetaGenerator.CodegenMetaIf` | src/Codegen/MetaCodegen.cpp:84-104 | compiles a meta-if as an if structure over contributions |
| `MetaGeneration.MetaGenerator.CodegenMetaCalculation` | src/Codegen/MetaCodegen.cpp:106-127 | runs the calculation in a region of its own and exports its declarations |
| `MetaGeneration.MetaGenerator.CreateRegionAfter` | src/Codegen/FunctionCodegen.cpp:76-83 | jumps to a new block and goes on there |
| `MetaGeneration.MetaGenerator.Introduce` | src/Codegen/MetaCodegen.cpp:244-261 | calls back with the slot of every exported name |
| `MetaGeneration.MetaGenerator.Codegen` | src/Codegen/MetaCodegen.cpp:38-63 | compiles a whole meta declaration |
| `NodeContribution.NodeContributor.Contribute` | src/Codegen/CodeExecutor.cpp:93-97 | writes a copy of the node |
| `NodeContribution.NodeContributor.Introduce` | src/Codegen/CodeExecutor.cpp:99-127 | writes a declaration statement or a constant, with the value below it |
| `NodeContribution.NodeContributor.Reduce` | src/Codegen/CodeExecutor.cpp:129-130 | writes a marker |
| `NodeContribution.NodeContributor.Callback` | src/Codegen/CodeExecutor.cpp:583-599 | the callbacks write what the machine says they write |
| `NodeContribution.InstantiateMetaDecl` | src/Codegen/CodeExecutor.cpp:292-375 | opens a meta unit, runs the compiled function, closes the unit and reads it: direct specialisation, behind one constant per named parameter |
| `CalculationExports.ListenerHearsExports` | src/Parse/ASTLayout.cpp:320-331 | the declarations collected while a calculation is read are exactly those lying directly in its block, in source order |
| `CalculationExports.CollectedAreExports` | src/Codegen/MetaCodegen.cpp:101-125 | what the reader has collected for a calculation are the names the staging compiler exports for it |
| `WaysThrough.NeverMissesIff` | src/Parse/ASTLayout.cpp:304-318 | whatever the meta-ifs of a tree decide, no name is met before it is declared, if and only if nothing behind a meta-if refers to a name of its branches: two readings of the tree, whose meaning for its code is in `NeedsDominance` |
| `WaysThrough.RunsTakeWays` | src/Codegen/MetaCodegen.cpp:84-104 | unless one of the ways its meta-ifs allow misses a name, a specialisation that comes to its end has followed one of them, with exactly the names declared on it |
| `NamesSuffice.NamesAreEnough` | src/Codegen/MetaCodegen.cpp:84-104 | a tree that keeps to the branches of its meta-ifs comes to the same trees, or to nothing, from all environments that agree on the names declared around it, whatever else they hold |
| `NamesSuffice.NeverStuckForNames` | src/Codegen/CodeExecutor.cpp:292-375 | the run of such a declaration gets stuck if and only if its specialisation is undefined beside any other names with any values: never for want of a name |
| `Dominance.DominatedRuns` | src/Codegen/FunctionCodegen.cpp:195-204 | no run of a graph in which every path allocates a slot before it uses it ever uses a slot that was not allocated |
| `NeedsDominance.FunctionDominatedIff` | src/Codegen/FunctionCodegen.cpp:195-234 | in the graph of a function every path allocates a slot before it uses it, if and only if the body uses no name a branch may have left undeclared |
| `NeedsDominance.MetaDominatedIff` | src/Codegen/MetaCodegen.cpp:38-199 | in the graph of a compiled meta declaration every path allocates a slot before it uses it, if and only if nothing behind a meta-if refers to a name of its branches |
| `MetaDominance.NeverMeetsUnallocated` | src/Codegen/MetaCodegen.cpp:38-199 | no step of any run of such a declaration uses a slot that was not allocated |
| `DerivedDominance.DerivedFunctionDominated` | src/Codegen/FunctionCodegen.cpp:49-57 | what is generated for a derived function always allocates slots before it uses them, on every path |
| `DerivedDominance.DerivedMetaDominatedIff` | src/Parse/ASTLayout.cpp:304-318 | the exact condition for derived meta declarations that are read without an error, and what it means for their runs |
| `ReadIsClosed.StmtIsClosed` | src/Parse/ASTLayout.cpp:234-302 | a derived statement read without an error is closed if and only if what it refers to has a value, its instantiations have succeeded and nothing follows a return |
| `ReadIsClosed.FunctionIsClosed` | src/Parse/ASTLayout.cpp:164-176 | the same for a whole function, whose named result is in scope but has no value |
| `ReadIsClosed.MetaDeclIsClosed` | src/Parse/ASTLayout.cpp:199-209 | a derived meta declaration read without an error may be staged if and only if what it refers to at compile time has a value and its calculations can be left |
| `ReadIsClosed.UnitIsClosed` | src/Parse/ASTLayout.cpp:123-162 | both for every declaration of a derived unit that is read without an error |
| `ReadIsClosed.DerivedIsResolvable` | src/Codegen/CodegenInstance.cpp:217-225 | a derived function read without an error may be generated once its instantiations succeed, if and only if its references have values and nothing follows a return |
| `ReadIsClosed.DerivedFunctionMeans` | src/Codegen/FunctionCodegen.cpp:49-57 | from the grammar to the machine: calls of what is generated for a derived function return what the function means |
| `ReadIsClosed.DerivedStaging` | src/Codegen/CodeExecutor.cpp:292-375 | from the grammar to the instantiation: running a derived meta declaration and reading back is direct specialisation |
| `ReadIsClosed.NamedResultExample` | src/Parse/GeneratedParser.g4:91-101 | `f() int r -> return r;` is derived and read without an error, and no value is ever generated for its result |
| `LateNames.LateNameExample` | src/Parse/ASTLayout.cpp:304-318 | a name calculated in a branch of a meta-if and used behind it: derived, read without an error, some path uses its slot before it is allocated, and the run is right when the branch is taken and stuck when it is not |
| `ReturnTypes.FunctionFitsIff` | src/Codegen/CodegenBase.cpp:54-61 | all returns of a generated function fit its declared type, if and only if its return statements do and a function with a result always returns |
| `ReturnTypes.MetaFunctionFitsIff` | src/Codegen/CodegenBase.cpp:103-107 | all returns of a compiled meta declaration fit, if and only if no calculation returns a value |
| `Ranges.ResultsAreWords` | src/Codegen/FunctionCodegen.cpp:269-309 | with 32-bit literals, constants and arguments every call of a generated program returns a 32-bit integer, if any |
| `Ranges.InstantiatedFits` | src/Codegen/CodeExecutor.cpp:99-127 | the literals an instantiation writes are 32-bit integers again |
| `BoundUnits.InstantiationBindsIff` | src/Codegen/CodeExecutor.cpp:334-357 | an instantiation is complete, if and only if it can be read back, its names can be told apart and from those outside, and every one of its declarations can be read among them |
| `BoundUnits.LocalOverConstantFails` | src/Parse/BasicASTBuilder.cpp:184-208 | a unit with a constant and a local of the same name in one of its functions does not bind |
| `Examples.LocalOverParameterExample` | src/Codegen/CodeExecutor.cpp:348-352 | a contributed local with the name of a parameter: derived, read without an error, read back for every argument, and never bound |
| `SourceLocation.FromSource` | src/Diag/SourceLocation.cpp:28-56 | finds the offset of a line and a column, or the end of the buffer |
| `SourceLocation.OffsetRoundTrip` | src/Diag/SourceLocation.cpp:28-56 | the line and the column of an offset lead back to it |
| `SourceLocation.LinesEndInTen` | src/Diag/SourceLocation.cpp:28-56 | the byte 10, and no other, ends a line |
| `SourceLocation.PastTheEnd` | src/Diag/SourceLocation.cpp:43-55 | positions behind the end, lines the buffer does not have and line zero give the end of the buffer |
| `SourceLocation.PositionRoundTripIff` | src/Diag/SourceLocation.cpp:43-55 | an offset has the line and the column it was found for if and only if the buffer has that position |
| `DependencyAnalysis.ConsumesInOrder` | src/Sema/DependencyAnalysis.cpp:39-57 | instantiations are handed over in pre-order until one is refused |
| `DependencyAnalysis.MetaConsumesInOrder` | src/Sema/DependencyAnalysis.cpp:59-91 | the same for a meta declaration |
| `DependencyAnalysis.LookupsAreConsumed` | src/Sema/DependencyAnalysis.cpp:94-97 | everything runtime code looks up was handed over |
| `DependencyAnalysis.MetaLookupsAreConsumed` | src/Sema/DependencyAnalysis.cpp:59-102 | the analysis of a meta declaration covers its lookups if and only if no meta statement in a branch of a meta-if looks anything up |
| `DependencyAnalysis.UncoveredExample` | src/Sema/DependencyAnalysis.cpp:59-62 | a calculation in a branch of a meta-if whose call is never handed over |
| `Examples.UncoveredInDecl` | src/Sema/DependencyAnalysis.cpp:59-62 | the same in a declaration that is derived and read without an error |
| `Lookups.StmtDependsOnLookups` | src/Codegen/FunctionCodegen.cpp:261-267 | generated code depends on no instantiation but those it is said to look up |
| `Lookups.MetaDependsOnLookups` | src/Codegen/MetaCodegen.cpp:71-199 | the same for compiled meta trees |
| `Symbols.FunctionRefers` | src/Codegen/FunctionCodegen.cpp:242-267 | generated code refers to no function its source does not mention |
| `Symbols.MentionsAre` | src/Codegen/FunctionCodegen.cpp:242-267 | mentioned is exactly what some reference or instantiation outside other instantiations stands for |
| `CodegenInstances.CodegenInstance.LookupFunction` | src/Codegen/CodegenInstance.cpp:123-134 | a function without a body is put on the worklist, and its source is recorded |
| `CodegenInstances.CodegenInstance.LookupInstantiation` | src/Codegen/CodegenInstance.cpp:136-149 | instantiates and looks up the exported function, or reports an error |
| `CodegenInstances.CodegenInstance.ConsumeAll` | src/Codegen/CodegenInstance.cpp:217-221 | looks up every instantiation of a function before it is generated |
| `CodegenInstances.CodegenInstance.CodegenFunction` | src/Codegen/CodegenInstance.cpp:208-262 | generates a function at most once and puts what it depends on on the worklist |
| `CodegenInstances.CodegenInstance.CodegenUnit` | src/Codegen/CodegenInstance.cpp:185-206 | terminates; succeeds exactly when every needed instantiation does; then exactly the needed functions are generated, once each; the recorded sources are theirs, and the complete instantiations those in their bodies, place by place |
| `CodegenInstances.InstantiatedIsClosed` | src/Codegen/CodegenInstance.cpp:217-225 | once its instantiations are done a function may be generated |
| `CodegenInstances.SelfContainedIsLeast` | src/Codegen/CodegenInstance.cpp:185-206 | the generated functions are the least set closed under dependencies that holds the unit |
| `CodegenInstances.ModulePreserved` | src/Codegen/CodegenInstance.cpp:185-262 | every function of the generated module computes what its source means; nothing it calls is missing |
| `CodeExecution.PulledTwiceIff` | src/Codegen/CodeExecutor.cpp:418-463 | some order of pulling makes the assertion of `setGlobalAsResolved` fail if and only if two waiting keys collide over a chain of references |
| `CodeExecution.PulledTwiceExample` | src/Codegen/CodeExecutor.cpp:499-532 | two functions looked up by declaration, one calling the other, can be pulled twice |
| `CodeExecution.ModuleProvides` | src/Codegen/CodeExecutor.cpp:428-463 | a generated module provides whatever a shipment asks for |
| `CodeExecution.CodeExecutor.LookupFunction` | src/Codegen/CodeExecutor.cpp:248-257 | a function that is not available waits under its declaration |
| `CodeExecution.CodeExecutor.LookupExported` | src/Codegen/CodeExecutor.cpp:259-272 | an exported function that is not available waits under its prototype |
| `CodeExecution.CodeExecutor.SetGlobalAsResolved` | src/Codegen/CodeExecutor.cpp:418-421 | makes a new symbol available |
| `CodeExecution.CodeExecutor.PullFunction` | src/Codegen/CodeExecutor.cpp:499-532 | clones the function and lets what it refers to wait |
| `CodeExecution.CodeExecutor.ResolveDependencies` | src/Codegen/CodeExecutor.cpp:428-463 | terminates and never pulls a symbol twice unless keys collide; on success everything that waited is available, the shipment and what was available are closed under references and hold nothing unasked for |
| `Binding.ReadAdds` | src/Parse/ASTLayout.cpp:287-292 | an error-free read adds exactly the declarations it leaves, under names that were free |
| `Binding.ReadExtends` | src/Parse/BasicASTBuilder.cpp:184-208 | reading never hides a visible name |
| `Binding.ReferenceBinds` | src/Parse/ASTLayout.cpp:333-343 | a reference is bound to what its name means among the declarations read before it in open scopes and those outside; copied code stays unbound |
| `LexicalScope.SeenIsVisible` | src/Parse/BasicASTBuilder.cpp:51-58 | what the reader has in scope is lexically visible by the places of nodes alone |
| `LexicalScope.VisibleIsSeen` | src/Parse/BasicASTBuilder.cpp:51-58 | what is lexically visible is in scope |
| `LexicalScope.BindsLexically` | src/Parse/ASTLayout.cpp:333-343 | every reference outside copied code is bound to the one visible declaration of its name |
| `UnitBinding.UnitIntroduced` | src/Parse/ASTLayout.cpp:373-399 | a unit is introduced without errors exactly when names are unique and free outside, but for the instantiated meta declaration |
| `UnitBinding.ExportsTheLast` | src/Parse/ASTLayout.cpp:384-393 | a meta unit exports its last declaration with the name of the instantiated meta declaration |
| `UnitBinding.ExportsTheOne` | src/Parse/ASTLayout.cpp:384-393 | a meta unit introduced without an error has at most one node of that name, and exports it |
| `UnitBinding.DeclarationsInScope` | src/Parse/ASTLayout.cpp:373-399 | in an error-free read every function, meta declaration and constant of a unit is in scope under its name, and the one named like the instantiated meta declaration is exported |
| `UnitBinding.UnitOpensIff` | src/AST/AST.hpp:163-165 | opening a unit reports no error if and only if its functions, meta declarations and constants have different names, free outside or that of the instantiated meta declaration; nothing else is then in its layer |
| `UnitBinding.UnitKeepsScope` | src/Parse/ASTLayout.cpp:123-162 | after an error-free read the scope of a unit holds what was introduced when it was opened, and nothing else |
| `UnitBinding.OrderDoesNotMatter` | src/Parse/ASTLayout.cpp:123-162 | permuting top-level declarations changes neither errors, nor the exported node, nor bindings |
| `UnitBinding.UnitBindsLexically` | src/Parse/ASTLayout.cpp:123-162 | references bind to locals, then to the unit's declarations wherever they stand, then outside |
| `ASTBuilding.AllocatedScope.Insert` | src/AST/ASTScope.cpp:52-56 | adds a name that is new in this very scope |
| `ASTBuilding.AllocatedScope.LookupIdentifier` | src/AST/ASTScope.cpp:58-67 | finds the innermost declaration of the name along the chain |
| `ASTBuilding.InplaceScope.Insert` | src/AST/ASTScope.cpp:139-142 | inserts into the parent and tells the listener |
| `ASTBuilding.InsertKeepsNoTwice` | src/Parse/BasicASTBuilder.cpp:92-141 | what the builder lets in never meets its name in the same scope, and no name is bound twice but for the exported node over its meta declaration |
| `ASTBuilding.OnlyMetaDeclsAreShadowed` | src/Parse/BasicASTBuilder.cpp:92-141 | of two declarations of a name along a chain the outer one is a meta declaration and the inner one a top-level node of a unit that instantiates one of that name |
| `ASTBuilding.BasicASTBuilder.EnterConsistentScope` | src/Parse/BasicASTBuilder.cpp:60-78 | a unit gets a new layer on top of the scope outside |
| `ASTBuilding.BasicASTBuilder.EnterTemporaryScope` | src/Parse/BasicASTBuilder.cpp:51-58 | adds an empty layer |
| `ASTBuilding.BasicASTBuilder.LeaveScope` | src/Parse/BasicASTBuilder.cpp:35-49 | restores the chain as it was |
| `ASTBuilding.BasicASTBuilder.EnterInplaceScope` | src/Parse/BasicASTBuilder.cpp:80-84 | adds no layer but a listener |
| `ASTBuilding.BasicASTBuilder.EnterMetaDeclMode` | src/Parse/BasicASTBuilder.cpp:147-150 | only from outside a meta declaration |
| `ASTBuilding.BasicASTBuilder.EnterMetaComputationMode` | src/Parse/BasicASTBuilder.cpp:152-155 | only from inside a meta declaration |
| `ASTBuilding.BasicASTBuilder.Introduce` | src/Parse/BasicASTBuilder.cpp:184-208 | inserts, reports an error, or does nothing in copied code; the invariant on the chain holds either way |
| `ScopedReading.ScopedReader.Consume` | src/Parse/ASTLayout.cpp:164-371 | consuming a node binds, introduces and reports exactly what reading the tree says, and leaves scope and mode as they were |
| `ScopedReading.ScopedReader.ResolveReference` | src/Parse/ASTLayout.cpp:333-343 | binds a reference or reports it, unless code is only copied |
| `ScopedReading.ScopedReader.ConsumeKid` | src/Parse/ASTLayout.cpp:199-209 | consumes a child in its mode; the calculations below it and the node itself, if it is one, get exactly what their statements leave in scope, and no other entry changes |
| `ScopedReading.ScopedReader.IntroduceScope` | src/Parse/ASTLayout.cpp:373-399 | introduces the crawled declarations and picks the exported node; without an error every function, meta declaration and constant among them is in scope |
| `ScopedReading.ScopedReader.ConsumeUnit` | src/Parse/ASTLayout.cpp:123-162 | reads a whole unit: errors, bindings, the scope left and the exported node are those of reading its tree, and every calculation of every declaration has its exports |
| `ScopedReading.CalculationsAre` | src/Parse/ASTLayout.cpp:320-331 | reading adds one entry for every place where a calculation stands, with what its statement leaves in scope, and changes no other |
| `Grammar.BasicParser.EnterDepth` | src/Parse/BasicParser.cpp:33 | pushes a depth |
| `Grammar.BasicParser.LeaveDepth` | src/Parse/BasicParser.cpp:35-39 | pops a depth |
| `Grammar.BasicParser.Statement` | src/Parse/GeneratedParser.g4:111-118 | derives statements, with meta statements only where meta nodes may stand |
| `Grammar.BasicParser.MetaStmt` | src/Parse/GeneratedParser.g4:72-89 | calculations and conditions are parsed at no depth |
| `Grammar.BasicParser.Function` | src/Parse/GeneratedParser.g4:41-54 | bodies of contributed functions are parsed at local depth, and the depth assertions hold |
| `Grammar.BasicParser.MetaDecl` | src/Parse/GeneratedParser.g4:56-70 | contributions are parsed at global depth |
| `Grammar.BasicParser.Unit` | src/Parse/GeneratedParser.g4:32-39 | the depth stack starts and ends empty |
| `Grammar.MetaDeclFits` | src/Parse/GeneratedParser.g4:56-89 | a derived meta declaration is well kinded, has meta statements only in lists, fails no mode assertion of the reader and no transition of the cursor, and calculates in blocks without meta statements |
| `Grammar.UnitFits` | src/Parse/GeneratedParser.g4:32-39 | derived units are laid out, read and bound without a failing assertion |
| `Productions.ExpressionProductions` | src/Parse/GeneratedParser.g4:174-214 | every alternative of an expression derives from derived parts |
| `Productions.StatementProductions` | src/Parse/GeneratedParser.g4:111-165 | every alternative of a statement derives, an `if` with and without an `else`, a return with and without a value |
| `Productions.MetaProductions` | src/Parse/GeneratedParser.g4:67-89 | calculations and meta-ifs, with and without an `else`, derive wherever meta nodes may stand |
| `Productions.FunctionProductions` | src/Parse/GeneratedParser.g4:41-54 | functions derive with and without a result, named or not, in a unit and in a contribution |
| `Productions.UnitProductions` | src/Parse/GeneratedParser.g4:32-65 | units of functions and meta declarations derive |

## Left out

- Node identity outside `NodeCloning`: everywhere else heads are values. The reader of `NodeCloning` consumes by the table of kinds instead of one method per kind.
- LLVM: constant folding by the IR builder, optimisation passes, linkage, data layout and the JIT are not part of this model; running code is stepping through its blocks. The order in which blocks are printed is not modelled either.
- Ill-typed returns: the machine takes a return with or without a value as the end of the call; `ReturnTypes` says exactly when the returns fit, LLVM's verifier is not modelled.
- Undefined behaviour, such as a load from a slot that was never allocated: the machine gets stuck there; what LLVM makes of it is not modelled.
- A calculation that always returns: the staging compiler asserts that it does not; such calculations are outside the closed trees (`ReadIsClosed.MetaDeclIsClosed` says exactly which those are).
- Jump pads and their arguments: an instantiation is called with the argument values directly.
- Reentrant instantiation, instantiation caches across requests and cyclic meta dependencies: which instantiations succeed, and with what, is a given map, looked up by expression and not by node.
- CodegenInstances.CodegenInstance.LookupInstantiation: the outcome of an instantiation comes from the given map; instantiating on demand and caching are not modelled.
- CodegenInstances.CodegenInstance.CodegenFunction: the lookups made while a body is generated are performed after it, their order does not matter to the worklist; the cycle check of `enterGeneration` cannot fire without reentrancy and is left out.
- CodeExecution.CodeExecutor.PullFunction: what a function refers to comes from a given map; generating a function on demand during the pull is not modelled.
- CodeExecution.CodeExecutor.ResolveDependencies: pulls from functions that are generated already; generation on demand during a pull is not modelled.
- ScopedReading.ScopedReader.Consume: walks the tree the layout encodes, in the order the layout reader consumes it, instead of the layout itself; `LayoutReading` covers the positions. The `similarTo` suggestions are left out.
- ScopedReading.ScopedReader.ConsumeUnit: walks the tree the layout encodes, like `Consume`.
- Binding.Read: a unit inside a unit is reported as an error; the grammar derives none.
- The payload of a MetaUnit is the name of the instantiated declaration, not the instantiation expression.
- Diagnostics, source ranges and relocation, name mangling, YAML output, token handling and the `SemaAnalysis` checks: text and one-branch checks.
- Integer literals that do not fit: the parse-tree visitor replaces them by an erroneous node after reporting an error; the reader cannot consume such a node, and the grammar model derives none.
- The order of the two operand loads of an arithmetic operator, which C++ leaves open: the left one comes first here; loads do not disturb each other.
- `isReadOnly` stack frames: no caller asks for one.
- The columns the lexer hands to `fromSource` count characters, while `fromSource` counts bytes: they mean the same in lines without multi-byte characters only.
- The step from a unit's declarations to what the generators resolve: `ReadIsClosed.Resolves` takes as given which names have values, and not which value a constant has.
