# A verified model of llvm2c

llvm2c turns LLVM IR into C by a chain of rewriting passes over graphs and trees. This project models
the passes whose correctness is not obvious from their code and proves what they are for: that the
emitted program does what the IR does.

The objects of the program are Dafny values where the C++ only reads them, and classes with fields
where a pass overwrites them (blocks and their statement lists, expression nodes and their child
pointers, the visited set and the order of a depth-first walk, the writer's output). Each method is
proved against a function or a relation, and the theorems are about those, for all inputs.

What instructions, branch conditions, called functions and memory mean is left open everywhere: the
theorems hold for every meaning, given as a `Machine` of functions.

## What is proved

* **Control flow** (`ControlFlow`, `CStatements`, `Structuring`, `Simulation`, `Labels`, `LabelCounts`,
  `EmittedFunction`, `Rewriting`, `PassEffects`, `FunctionPasses`). For every phi-free function whose
  blocks are reachable and whose rotated loops are in simplified form, nested or not, the emitted body
  (do-while loops, a latch label inside, `goto`s inlined or labelled) makes exactly the moves of the
  control-flow graph, in both directions: every run of the graph is a run of the C code with the same
  operations, memory and result, and every run of the C code stays on a run of the graph. Which blocks
  keep their label is read off the graph and its loops; each of these labels is printed, once, and no
  other, and no other is the target of a `goto`. The recursive inlining terminates. The passes are methods
  on classes `Func` and `Block`, and together they emit exactly the code the theorems are about.
  `PassEffects.NestedIsForest` shows that the assumptions can be met.
* **Expression inlining** (`ExpressionInlining`, `InliningStatements`, `InliningPreserves`,
  `InliningExact`). A value waits for its user exactly if it is used once, later in the block, with only
  operations and loads on the way, and for exactly which instructions a variable is declared is proved
  too. A block of instructions and its translation compute the same memory, the same terminator operands
  and the same values at every use, calls included. A call may even be deferred, under a condition on the
  block that is weaker than never deferring calls; two blocks show what goes wrong without it. The
  invariant behind this, that whatever is kept for later still has its instruction's value, holds at every
  point and for all meanings exactly under that condition, in blocks whose selects have a constant
  condition or one of which nothing is known.
* **Rewriting of shared expressions** (`ExprTrees`, `RewritingMeaning`, `ExprGraph`, `SimplifyingVisitor`,
  `RewritingResults`). `refDeref` and `arrowify` overwrite child pointers in an acyclic graph of shared
  nodes. Every node keeps its value, its effects and the location it designates; one traversal reaches the
  normal form; another one changes nothing.
* **Emission order** (`GlobalOrder`, `StructOrder`). Globals come after what they refer to unless a cycle
  of references makes that impossible; structs come after the structs they embed, and printing them
  terminates exactly if embedding is acyclic. Every struct that C needs complete is printed in time, for
  all orders of the list, exactly if it is reached through the items the printer follows.
* **Integers** (`CIntegers`, `SignCasts`, `SignednessLost`, `NarrowArithmetic`, `SignCastVisitor`,
  `IntegerCasts`, `RedundantCasts`, `OverflowHelpers`). For any expression of arithmetic and bitwise
  operations and left shifts of 32 or 64 bits it is proved what C's usual arithmetic conversions make of
  it. With the sign casts C gives LLVM's bits and truth values, and is undefined exactly where LLVM is, if
  the flags are what the propagation of types leaves and no signed shift gets a negative value; no cast is
  added that is not needed; the whole pass is a method on a graph of shared nodes. From the IR's own
  operations through the builder, the propagation and the casts, an expression has the IR's value in all
  its parts exactly if every operation whose signedness got lost on the way, and every signed shift, is
  harmless on its operands. For 8 and 16 bits, where C computes in `int`, it is proved exactly when
  nothing goes wrong. The casts for `sext`, `zext` and `trunc` are right for exactly the widths C has;
  casts around a comparison may be deleted exactly under a stated condition, and no cast below a visited
  expression can be collapsed or dropped any more; the unsigned overflow helpers are exact, and for the
  signed and the narrow ones it is proved exactly when the flag is right.
* **Printing** (`CGrammar`, `ExprPrinting`, `ExprTokens`, `PrintParse`, `RoundTrip`). For every
  expression, what is printed, split into tokens and read by the C grammar, is the expression itself if
  and only if a stated condition on names and literals holds. The tree that is meant names C's operators
  itself, so that the right ones are printed.
* **Phi nodes** (`PhiAssignments`, `EarlyAssignments`). The assignments emitted in sequence are the
  simultaneous update of the phi nodes exactly if no node reads one before it that changes; this is a
  condition on the phi nodes in their order, not on what is emitted. Repeated assignments are included.
  For a latch, the guarded assignments together with the test of the do-while that follows them do what
  the back edge or the exit does, for all meanings, values and memories, exactly if besides the condition
  reads nothing they change and makes no call. Assignments that the loop parser also puts in front of the
  loop body are made again before they can be read (`EarlyAssignments`).

## Where the code does less than one might expect

These are shown by lemmas that give an input, next to the exact condition:

* a call deferred past a load, or into a branch of a conditional expression
  (`InliningPreserves.LoadOvertakesCall`, `InliningPreserves.CallLostInBranch`, exact for the invariant in
  `InliningExact.PlaceExact`);
* children of an aggregate initialiser are not visited, so that `*&g` stays in the address of an element
  of a global (`RewritingResults.InitializerKeepsPair`, exact in `RewritingResults.InitializerNormal`);
* a struct with a pointer to an array of its own kind makes the printing of structs recurse for ever
  (`StructOrder.OwnArrayPointer`, exact in `StructOrder.TerminatesIffAcyclic`), and arrays of pointers
  hide structs that must be complete, so that they may be printed too late (`StructOrder.HiddenIsLate`,
  exact in `StructOrder.InTimeExact`);
* two unary minus signs, two address operators, or a number before a dot are printed so that they are read
  as one token, and a suffix after a negative literal or an address binds too tightly
  (`RoundTrip.PrintedIsParsed`); a name that begins with `&` fails not only under an address operator but
  also before a suffix;
* phi nodes that exchange values (`PhiAssignments.SwapIsLost`, exact in `PhiAssignments.EdgeExact`);
* a loop whose condition reads a phi variable that the latch assigns: C tests the new value
  (`PhiAssignments.ConditionChanges`), and one whose condition holds a call: C makes it once for every phi
  node and once more (`PhiAssignments.CalledTwice`, `InliningPreserves.CallInCondition`, both exact in
  `PhiAssignments.BackEdgeExact`);
* sign extension from a width C lacks, and truncation to one bit (`IntegerCasts.NarrowSignLost`,
  `IntegerCasts.TruncToBool`);
* casts that the deletion of an outer pair brings next to a comparison stay there
  (`RedundantCasts.StrippedOnce`);
* `==` and `!=` drop casts that narrow their operands (`RedundantCasts.DropEqExact`,
  `RedundantCasts.NarrowingDropped`);
* an operation without `nsw`, or an unsigned division, whose left operand is recorded as signed: the
  propagation of types makes it signed (`SignednessLost.VariablesExact`, and for whole expressions
  `SignednessLost.RightExact`, with the harmless operands in `SignednessLost.SignednessExact`);
* `shl nsw` of a negative value, which C does not define (`SignCasts.NegativeShift`, exact in
  `SignCasts.ShiftsExact`);
* conditions of loops get no sign casts (`SignednessLost.LoopConditionExact`), and a bitwise operation on
  a signed and an unsigned operand is recorded as signed (`SignednessLost.MixedBitwise`, exact in
  `SignednessLost.ComparisonExact`);
* sums, differences and products of 8 and 16 bits keep bits that the IR drops
  (`NarrowArithmetic.SumNotWrapped`, exact in `NarrowArithmetic.NarrowRightExact`);
* the overflow helpers for signed and narrow operands (`OverflowHelpers.SignedAdditionMisreported`, exact
  in `OverflowHelpers.SignedExact` and `OverflowHelpers.NarrowExact`).

## Model

| member | source | states |
|---|---|---|
| ControlFlow.SinglePredFarther | parser/identifyInlinableBlocks.cpp:35-38 | A block with a single predecessor is strictly farther from the entry block than that predecessor, on any graph whose blocks are all reachable, cycles included |
| ControlFlow.SinglePredExact | parser/identifyInlinableBlocks.cpp:35-38 | The test for a single predecessor succeeds exactly if one edge, and no second one, leads to the block |
| ControlFlow.PreheaderBeforeHeader | parser/parseBreaks.cpp:151-170 | The preheader of a rotated loop is strictly nearer to entry than the header |
| ControlFlow.ShortLoopLatchPred | parser/parseBreaks.cpp:199-206 | If the header only goes to the latch, nothing else does, so inlining the latch into it loses no entry |
| ControlFlow.LatchDeterminesLoop | parser/inlineBlocks.cpp:114-123 | Distinct rotated loops have distinct latches, so the flags set per latch do not clash |
| ControlFlow.NestedIsWellFormed | parser/parseBreaks.cpp:136-258 | Two nested rotated loops satisfy everything that is assumed of the graph and its loops |
| PassEffects.NestedIsForest | parser/parseBreaks.cpp:136-258 | The same pair, with its tree of loops and an order of the blocks, satisfies everything that is assumed of the passes |
| CStatements.FindLabelIff | writer/ExprWriter.cpp:109-132 | A `goto` finds a label, into do-while bodies and switch arms too, exactly if the label occurs in the code |
| Structuring.InliningLeadsAway | parser/inlineBlocks.cpp:17-45 | Each step of the recursive inlining goes to a block with a smaller measure, so it terminates on every graph |
| Structuring.ExitFarther | parser/parseBreaks.cpp:236-250 | Inlining the `goto` after a loop also moves strictly away from entry |
| Simulation.BlockStep | parser/inlineBlocks.cpp:17-45 | From the emitted code of a block, C reaches what the graph does after the block, with the same operations and memory; without a C step only towards an inlined block |
| Simulation.DoStep | parser/parseBreaks.cpp:171-258 | Entering the emitted do-while is entering the loop's header |
| Simulation.RunFollows | parser/inlineBlocks.cpp:147-169 | Every number of graph steps is matched by a run of the emitted code |
| Simulation.RunReflects | parser/inlineBlocks.cpp:147-169 | After any number of C steps, the operations performed are accounted for by a run of the graph |
| LabelSafety.FindInCode | writer/ExprWriter.cpp:113-132 | Searching a label in the code of a block finds code of the labelled block, in a place where it does what the block does |
| LabelCounts.HolderUnique | parser/identifyInlinableBlocks.cpp:84-102 | A block that is inlined and not return-only is inlined into one block only |
| LabelCounts.RootUnique | parser/inlineBlocks.cpp:21-40 | Chains of inlining end at one printed block |
| LabelCounts.LatchLabelCount | writer/ExprWriter.cpp:113-132 | How often a latch label occurs in a block's code: once if the latch's loop is inlined into the block, otherwise never |
| LabelCounts.NoOtherLabels | writer/Writer.cpp:641-650 | The code of a block holds no label but those of latches |
| EmittedFunction.LabelsExact | writer/Writer.cpp:638-650 | In the emitted function a label occurs exactly once if its block is not inlined, and otherwise not at all |
| EmittedFunction.KeptExact | parser/identifyInlinableBlocks.cpp:35-101 | Which blocks are not inlined, read off the graph and its loops: the entry, latches that need a label, and of the others those that are no header, do more than return, and have not exactly one edge to them |
| EmittedFunction.LabelsKept | writer/Writer.cpp:638-650 | Exactly these blocks have their label in the emitted function, once |
| EmittedFunction.GotosKept | parser/inlineBlocks.cpp:17-45 | Only these blocks are targets of the `goto`s left |
| EmittedFunction.GotosHaveLabels | writer/ExprWriter.cpp:109-132 | Every `goto` left has its label, exactly once |
| EmittedFunction.FunctionLinked | parser/inlineBlocks.cpp:114-166 | What follows any label in the emitted function is code of the labelled block at a place where it does what the block does |
| EmittedFunction.EmittedFollowsGraph | parser/parseBreaks.cpp:136-258 | Whenever the graph returns a value, so does the emitted function, after the same operations and with the same memory |
| EmittedFunction.GraphFollowsEmitted | parser/inlineBlocks.cpp:17-45 | Whenever the emitted function returns, the graph returns the same; until then its operations are a prefix of the graph's |
| Rewriting.RewriteTwice | parser/inlineBlocks.cpp:156-164 | Inlining what has been inlined changes nothing, so the order in which blocks are visited does not matter |
| Rewriting.PrintFinal | writer/Writer.cpp:638-650 | Printing the rewritten block is the code that the theorems are about |
| PassEffects.LoopParsedAt | parser/parseBreaks.cpp:151-258 | What parsing one rotated loop leaves in preheader, header, latch and every other block |
| PassEffects.NestParsedAt | parser/parseBreaks.cpp:136-150 | The same for a loop with its subloops, parsed before it |
| PassEffects.ParsedExactly | parser/parseBreaks.cpp:260-280 | After the pass every block holds exactly the statements that loops and terminators call for |
| PassEffects.SafeMarkedAt | parser/identifyInlinableBlocks.cpp:84-90 | A block is flagged exactly if it was, has a single predecessor, or is a lone return |
| PassEffects.LatchesResetAt | parser/inlineBlocks.cpp:114-129 | The flag of a rotated loop's latch after the reset, and of every other block |
| PassEffects.FlagsExactly | parser/inlineBlocks.cpp:114-129 | When inlining starts, a block is flagged exactly if its code is inlined wherever a `goto` leads to it |
| PassEffects.MarkedIsReady | parser/inlineBlocks.cpp:131-144 | After marking, a block is flagged exactly if it is not printed on its own |
| FunctionPasses.Block.constructor | parser/parseBreaks.cpp:106-134 | A new block holds the given statements and no flags |
| FunctionPasses.Func.ParseBlock | parser/parseBreaks.cpp:106-134 | One block gets its terminator's statements, and no other block changes |
| FunctionPasses.Func.ParseRotated | parser/parseBreaks.cpp:151-250 | Building the do-while changes preheader, header and latch as specified, in place |
| FunctionPasses.Func.ParseLoop | parser/parseBreaks.cpp:136-258 | The recursive parse of a loop has the specified effect on the whole function |
| FunctionPasses.Func.ParseBreaks | parser/parseBreaks.cpp:260-280 | The pass leaves the specified statements and flags in every block |
| FunctionPasses.Func.IdentifyInlinableBlocks | parser/identifyInlinableBlocks.cpp:84-102 | The pass sets exactly the specified flags and never that of the entry block |
| FunctionPasses.Func.DoNotInlineSubloopLatchBlockIntoGotoLatch | parser/inlineBlocks.cpp:114-123 | The latches of a loop and its subloops get the specified flags |
| FunctionPasses.Func.MarkLatchBlockAsInlined | parser/inlineBlocks.cpp:131-138 | The latches of a loop and its subloops are flagged, nothing else changes |
| FunctionPasses.Func.Inlined | parser/inlineBlocks.cpp:17-45 | The recursive replacement returns the specified statement, whatever blocks have been rewritten before |
| FunctionPasses.Func.InlineIntoBlock | parser/inlineBlocks.cpp:156-164 | All statements of a block are overwritten with their rewritten forms, other blocks stay |
| FunctionPasses.Func.InlineIntoBlocks | parser/inlineBlocks.cpp:147-169 | Whatever the order of the blocks, each ends up rewritten from its original statements |
| FunctionPasses.Func.FunctionDefinition | writer/Writer.cpp:626-655 | Entry first, then every block without the flag, is the function body of the theorems |
| FunctionPasses.Func.TranslateFunction | parser/inlineBlocks.cpp:147-169 | The passes in their order emit exactly the body to which the simulation and label theorems apply |
| ExpressionInlining.BlockTranslator.CanInlineNow | parser/createExpressions.cpp:81-106 | The scan answers yes exactly if the value is used once, in this block, with only operations and loads strictly between |
| ExpressionInlining.CanInlineExact | parser/createExpressions.cpp:18-106 | The same of the specification: one use, later in the block, and every instruction on the way is an operation or a load |
| ExpressionInlining.BlockTranslator.InlineOrCreateVariable | parser/createExpressions.cpp:108-137 | Literals and inlinable expressions are bound as they are, others to a fresh variable assigned here |
| ExpressionInlining.BlockTranslator.CreateExpressions | parser/createExpressions.cpp:1565-1627 | The walk over the block has the specified map and statements as its result |
| InliningStatements.BoundToLiteral | parser/createExpressions.cpp:108-119 | An instruction is bound to a literal exactly if it is a frozen one, the number printed with a digit first or the value waiting |
| InliningStatements.StatementsExact | parser/createExpressions.cpp:108-137 | What is written for each instruction: declaration and assignment exactly for those that neither wait nor are literals, an expression statement exactly for unused calls |
| InliningPreserves.OperandLive | parser/createExpressions.cpp:85-101 | What an instruction refers to is in a variable, or has its only use here |
| InliningPreserves.WaitingStops | parser/createExpressions.cpp:89-101 | A deferred call is passed by read-only instructions only |
| InliningPreserves.InstructionEffect | parser/createExpressions.cpp:1494-1563 | An instruction's expression, evaluated now, brings memory up to date and has the instruction's value; or a call goes on waiting and the expression does not depend on memory |
| InliningPreserves.AgreesThroughout | parser/createExpressions.cpp:81-137 | The invariant at every point: each live expression still evaluates to its instruction's value, and a waiting call brings memory to where it should be |
| InliningPreserves.BlockPreserved | parser/createExpressions.cpp:1565-1627 | The whole block: same memory, same terminator operands, and every value used later is in a variable or a literal |
| InliningPreserves.LoadOvertakesCall | parser/createExpressions.cpp:81-106 | A block whose translation reads memory before the deferred call has changed it |
| InliningPreserves.CallLostInBranch | parser/createExpressions.cpp:1387-1396 | A block whose translation never makes a call, because it ended up in a branch not taken |
| InliningExact.PlaceExact | parser/createExpressions.cpp:81-137 | Every expression kept for later has its instruction's value, and memory is brought up to date, at every point and for every machine, exactly if no call is deferred past a load of something else or into a branch |
| InliningExact.MemoryBehind | parser/createExpressions.cpp:81-107 | While a deferred call waits, the C memory lacks it |
| InliningExact.LoadReadsEarly | parser/createExpressions.cpp:81-107 | In any block, the first load that overtakes a waiting call breaks the invariant |
| InliningExact.SelectSkipsCall | parser/createExpressions.cpp:81-107 | In any block, the first select with a waiting call in a branch breaks it |
| ExprTrees.NfNormal | parser/refDeref.cpp:35-49 | Rewriting bottom-up once leaves no pair, although each cancellation may expose one |
| ExprTrees.NormalNf | parser/refDeref.cpp:35-49 | An expression without pairs is its own normal form |
| ExprTrees.PairCancels | parser/refDeref.cpp:35-49 | `&*e` and `*&e` have the normal form of `e` |
| ExprTrees.ArrowReplaces | parser/arrowify.cpp:39-48 | `(*p).f` and `p->f` have one normal form |
| RewritingMeaning.NfKeeps | parser/refDeref.cpp:35-49 | Normal forms have the same value and effect, and designate the same location if the original was an lvalue |
| RewritingMeaning.SameNormalForm | parser/arrowify.cpp:39-48 | Expressions with one normal form denote the same |
| ExprGraph.WithKidEvolves | parser/SimplifyingExprVisitor.cpp:105-113 | Overwriting one child pointer of one node keeps the normal form of every node in the graph, and what is an lvalue |
| ExprGraph.CleanStays | parser/SimplifyingExprVisitor.cpp:85-113 | Overwriting a child of an untidy node leaves all tidy subgraphs tidy |
| SimplifyingVisitor.SimplifiedReplaces | parser/refDeref.cpp:35-49 | What `simplify` returns may stand for the child: same normal form, an lvalue if need be, still below the parent |
| SimplifyingVisitor.SimplifiedClean | parser/refDeref.cpp:35-49 | What `simplify` returns for a tidy child cannot be simplified again |
| SimplifyingVisitor.Visitor.Simplify | parser/refDeref.cpp:35-49 | The method returns the cancelled operand, or for arrowify a new node, and changes nothing else |
| SimplifyingVisitor.Visitor.SimplifyKid | parser/SimplifyingExprVisitor.cpp:105-113 | One child is replaced once, the other children and all nodes below stay as they are |
| SimplifyingVisitor.Visitor.VisitBatch | parser/SimplifyingExprVisitor.cpp:85-103 | Visiting all children before simplifying any leaves everything reached tidy |
| SimplifyingVisitor.Visitor.VisitInTurn | parser/SimplifyingExprVisitor.cpp:22-31 | So does visiting and simplifying child after child |
| SimplifyingVisitor.Visitor.VisitOnly | parser/SimplifyingExprVisitor.cpp:16-20 | The children of an extract-value expression are visited and not replaced |
| SimplifyingVisitor.Visitor.SimplifyOnly | parser/SimplifyingExprVisitor.cpp:231-235 | Each child of an aggregate initialiser is simplified exactly once |
| SimplifyingVisitor.Visitor.Visit | parser/SimplifyingExprVisitor.cpp:3-282 | Every node keeps its normal form, everything reached is tidy, higher nodes are untouched, and a settled graph is not changed |
| SimplifyingVisitor.Visitor.Run | parser/refDeref.cpp:15-33 | The whole pass, over all blocks: all expressions tidy at the end, and nothing changes if all were settled |
| RewritingResults.DenotationKept | parser/refDeref.cpp:15-49 | Every node of the graph, reachable or not, denotes what it denoted before the pass |
| RewritingResults.OneTraversal | parser/SimplifyingExprVisitor.cpp:85-113 | After one visit every child is exactly the normal form of what it was |
| RewritingResults.SecondVisitIdle | parser/refDeref.cpp:15-33 | A second visit changes nothing, in the whole graph |
| RewritingResults.InitializerSettled | parser/SimplifyingExprVisitor.cpp:231-235 | A visited initialiser is left alone by a second visit exactly if no child could be simplified at the top once more |
| RewritingResults.InitializerNormal | parser/SimplifyingExprVisitor.cpp:231-235 | All children of a visited initialiser are in normal form exactly if one simplification at the top makes each of them so |
| RewritingResults.InitializerKeepsPair | parser/constval.cpp:155-168 | The address of an element of a global in an initialiser: the pass changes nothing, a second one would not either, and the pair below stays |
| RewritingResults.ArrowsKeepNormal | parser/arrowify.cpp:39-48 | Arrowify brings back none of the pairs that refDeref removed |
| RewritingResults.BothPasses | parser/ProgramParser.cpp:197-199 | After both passes no `&*e`, `*&e` or `(*p).f` is left below a visited node, and it denotes the same |
| GlobalOrder.FinishGlobal | parser/computeGlobalVarsOrder.cpp:21-23 | A finished global goes after all it refers to, except what leads back to it |
| GlobalOrder.OrderExact | parser/computeGlobalVarsOrder.cpp:56-67 | The order defines everything before its use exactly if no cycle of references makes that impossible |
| GlobalOrder.TopologicalOrder.ComputeTopo | parser/computeGlobalVarsOrder.cpp:8-24 | The walk terminates on cyclic initialisers, enters all that a constant mentions, finishes what it enters, and visits operands in their order |
| GlobalOrder.TopologicalOrder.ComputeGlobalVarsOrder | parser/computeGlobalVarsOrder.cpp:49-67 | Every global exactly once; what its initialiser mentions comes before it or reaches it; the order is that of the walk over the globals in turn |
| GlobalOrder.ListInOrder | parser/computeGlobalVarsOrder.cpp:49-67 | Globals listed later do not change the order of what the earlier ones have led to |
| GlobalOrder.ReferencesFirst | parser/computeGlobalVarsOrder.cpp:8-24 | Three globals: references come first, and the operands of a constant in their order |
| StructOrder.FollowedExact | type/Type.cpp:94-118 | The flags make the printer follow an item exactly if C needs its struct complete and no array of pointers hides it |
| StructOrder.GetStruct | core/Program.cpp:41-55 | The first struct of that name, or nothing exactly if there is none |
| StructOrder.TerminatesIffAcyclic | writer/Writer.cpp:78-96 | The recursion has bounded depth for every struct exactly if the embedding relation is acyclic |
| StructOrder.OwnArrayPointer | writer/Writer.cpp:87-91 | A struct with a pointer to an array of itself: no depth suffices |
| StructOrder.InTimeExact | writer/Writer.cpp:78-131 | For every order of the list, each struct that an item needs complete is printed before it: exactly if each is reached through followed items |
| StructOrder.NotHiddenIsReached | writer/Writer.cpp:79-96 | A struct that an item needs complete is reached, where no array of pointers hides it |
| StructOrder.HiddenIsLate | type/Type.cpp:94-118 | A struct with an array of pointers to arrays of another struct, listed first: the other one is printed too late |
| StructOrder.StructPrinter.StructDefinition | writer/Writer.cpp:78-115 | The struct is printed, after all it embeds, none twice, nothing printed before is disturbed, and the order is the specified one |
| StructOrder.StructPrinter.StructDefinitions | writer/Writer.cpp:117-131 | Every struct exactly once, embedded ones first, for every order of the list |
| StructOrder.ItemsInOrder | writer/Writer.cpp:78-96 | A struct of two other structs comes after them, and they come in the order of its items |
| SignCasts.WithCastsTwice | parser/addSignCasts.cpp:73-98 | Running the pass again adds no cast |
| SignCasts.CComputes | parser/addSignCasts.cpp:88-233 | Whatever is recorded, C computes the bits LLVM would compute if each operation had the signedness that the usual arithmetic conversions give it, shifts the signedness of their left operand |
| SignCasts.CastsGiveFlags | parser/addSignCasts.cpp:73-210 | With the casts, that signedness is the flag of the operation, and the type of every expression the recorded one |
| SignCasts.OperationAgrees | parser/createExpressions.cpp:524-549 | One arithmetic operation on operands of its type: C's result is LLVM's, and undefined exactly when LLVM's is |
| SignCasts.CastsAgree | parser/addSignCasts.cpp:163-233 | For every tree of 32- or 64-bit arithmetic and bitwise operations and left shifts, C's value after the pass is LLVM's bits read in the recorded type, or undefined exactly if LLVM gives poison or undefined behaviour |
| SignCasts.ShiftsExact | parser/addSignCasts.cpp:227-233 | An expression and all its parts agree like this exactly if no signed shift in it shifts a negative value |
| SignCasts.NegativeShift | parser/createExpressions.cpp:673-691 | A signed shift of a negative value is undefined in C, where LLVM gives a value |
| SignCasts.CastsAdded | parser/addSignCasts.cpp:73-86 | As many casts are added as operands have another signedness than their operation |
| SignCasts.ComparisonAgrees | parser/addSignCasts.cpp:88-98 | A comparison of 32 or 64 bits at the root has LLVM's truth value |
| SignCasts.PredicateTables | parser/compare.h:3-62 | Symbol and signedness flag of the two tables together are the predicate |
| SignCasts.FlagExact | parser/compare.h:3-29 | The flag says unsigned exactly if comparing the bit patterns as numbers is what the predicate means |
| SignCasts.IcmpAgrees | parser/compare.h:3-62 | From `icmp` of 32 or 64 bits to the printed comparison: the same truth value |
| SignCasts.CastsAreNeeded | parser/addSignCasts.cpp:73-86 | Without casts, C compares -1 and 1 the other way round than LLVM's unsigned comparison |
| SignednessLost.PropagatedWellTyped | parser/propagateTypes.cpp:64-199 | The propagation leaves exactly the flags that the sign casts need, unless a bitwise operation mixes a signed with an unsigned operand, or a shift is marked otherwise than its left operand |
| SignednessLost.CPerforms | parser/createExpressions.cpp:478-691 | From the IR through builder, propagation and casts: the value and the type C gives, for every expression, visited by the pass or not |
| SignednessLost.SignednessExact | parser/propagateTypes.cpp:167-199 | An operation meant unsigned and done signed has the right bits exactly if it does not overflow, or for divisions if the signs make no difference |
| SignednessLost.ShiftExact | parser/createExpressions.cpp:658-691 | A shift that C does in a signed type has the IR's bits exactly if the value is not negative and no bit is lost |
| SignednessLost.BuiltCasts | parser/createExpressions.cpp:478-691 | The builder puts casts around exactly the operands whose signedness the operation does not want |
| SignednessLost.RightExact | parser/propagateTypes.cpp:64-199 | An expression and all its parts have the IR's values exactly if every operation that lost its signedness, and every shift that C does in a signed type, is harmless on its operands |
| SignednessLost.VariablesExact | parser/propagateTypes.cpp:128-199 | An operation on two variables is right for all values exactly if it is signed or an operand that C does not cast is unsigned |
| SignednessLost.ComparisonExact | parser/createExpressions.cpp:348-356 | A comparison of right operands is right exactly if C compares with the meant signedness or the operands have the same sign or only equality is asked for |
| SignednessLost.MixedBitwise | parser/propagateTypes.cpp:149-165 | A bitwise operation of a signed and an unsigned variable compares as unsigned in C where the IR compares signed |
| SignednessLost.LoopConditionExact | parser/addSignCasts.cpp:48-65 | In a loop condition, which gets no casts, a comparison of variables is right for all values exactly for equality or where the recorded signs give the meant one |
| NarrowArithmetic.ArithExact | parser/addSignCasts.cpp:163-210 | One operation of 8 or 16 bits, done in `int`: the IR's number exactly if it is signed or needs no more bits than its operands |
| NarrowArithmetic.BitwiseExact | parser/addSignCasts.cpp:212-225 | A bitwise operation in `int`: the IR's number exactly if no negative operand stands on the right of an unsigned one, or for `&` |
| NarrowArithmetic.ShiftExact | parser/addSignCasts.cpp:227-233 | A narrow shift, done in `int`, is the IR's number exactly if an unsigned one loses no bit, and a signed one does not shift a negative value |
| NarrowArithmetic.NarrowRightExact | parser/addSignCasts.cpp:163-225 | A narrow expression with its casts and all its parts are the IR's numbers in C exactly if nothing in it wraps or mixes signs |
| NarrowArithmetic.NarrowComparison | parser/addSignCasts.cpp:88-98 | A narrow comparison whose operands are right has the IR's truth value |
| NarrowArithmetic.SumNotWrapped | parser/addSignCasts.cpp:167-173 | Bytes 255 and 1 add up to 0 in the IR and to 256 in C |
| SignCastVisitor.InsertKept | parser/addSignCasts.cpp:73-86 | Putting a cast between a node and its child does not change what the pass makes of any node, and leaves finished expressions alone |
| SignCastVisitor.Visitor.CastIfNeeded | parser/addSignCasts.cpp:73-86 | A new cast of the toggled type exactly if the signedness differs |
| SignCastVisitor.Visitor.Visit | parser/addSignCasts.cpp:67-232 | In place, on shared nodes of every kind: the visited expression is done wherever the visitor goes, nothing it does not reach changes, and a second visit changes nothing |
| SignCastVisitor.Visitor.AddSignCasts | parser/addSignCasts.cpp:48-65 | All statements of all blocks are done, and what no statement leads to is as before |
| SignCastVisitor.PassKeepsMeaning | parser/addSignCasts.cpp:48-233 | After the pass, every integer expression or comparison the visitor comes to has LLVM's value in C, unless a negative value is shifted in a signed type |
| SignCastVisitor.OperandsSigned | parser/addSignCasts.cpp:88-233 | After the pass, both operands of every arithmetic operation, shift and comparison the visitor comes to have the signedness of its flag |
| SignCastVisitor.PassMakesWithCasts | parser/addSignCasts.cpp:48-65 | A statement in which the visitor goes everywhere becomes the tree with casts everywhere |
| SignCastVisitor.UnreachedSame | parser/addSignCasts.cpp:12-45 | An expression of which the visitor reaches no part, such as the condition of a do-while, is unchanged |
| ExprPrinting.ExprWriter.ParensIfNotSimple | writer/ExprWriter.cpp:464-474 | Appends the operand, in parentheses unless it is a value or a call |
| ExprPrinting.BareOperands | writer/ExprWriter.cpp:464-474 | An operand is printed bare exactly if it is a value or a call, and otherwise in one pair of parentheses |
| ExprPrinting.ExprWriter.VisitCall | writer/ExprWriter.cpp:223-263 | Appends callee and parameters, separated by commas |
| ExprPrinting.ExprWriter.VisitShift | writer/ExprWriter.cpp:265-288 | Appends the dereferenced sum, or only the base if the shift is the literal 0 |
| ExprPrinting.ExprWriter.VisitSelect | writer/ExprWriter.cpp:294-304 | Appends the conditional expression, the condition negated if asked for |
| ExprPrinting.ExprWriter.VisitLshr | writer/ExprWriter.cpp:416-427 | Appends the shift with both operands in parentheses, cast to unsigned if the left one is signed |
| ExprPrinting.ExprWriter.Visit | writer/ExprWriter.cpp:58-511 | Appends the text of any expression and keeps what was written |
| ExprTokens.LexText | writer/ExprWriter.cpp:58-511 | The tokens of any printed expression, longest token first, whatever follows it |
| PrintParse.AssignmentAt | writer/ExprWriter.cpp:265-511 | The grammar reads every printed expression without merged tokens, up to a token that ends it |
| PrintParse.OperandAt | writer/ExprWriter.cpp:464-474 | An operand is read whole, whatever suffix follows; a sign in front takes the suffix with it |
| RoundTrip.ExprWeight | writer/ExprWriter.cpp:497-505 | Parsing conserves the number of address operators and bitwise ands, less decrements |
| RoundTrip.PrintingLoses | writer/ExprWriter.cpp:306-309 | Printing conserves it exactly if no two tokens merge |
| RoundTrip.RegroupIsTree | writer/ExprWriter.cpp:58-76 | What the grammar reads is what was meant exactly if no suffix follows an operand with an operator in front |
| RoundTrip.OperatorIsRead | writer/ExprWriter.cpp:343-433 | The operator read back is the one of the expression; `&&` is read exactly if both operands of a conjunction are boolean, and otherwise `&` |
| RoundTrip.PrintedIsParsed | writer/ExprWriter.cpp:58-511 | For every expression: printed, split into tokens and parsed it is itself, with the same operators, if and only if no tokens merge and no suffix is regrouped |
| PhiAssignments.GeneratePhiAssignments | parser/parseBreaks.cpp:20-46 | The loops over phi nodes and incoming values emit exactly the assignments for the edge; that their order is the right one is in the rows below |
| PhiAssignments.SafePhisExact | parser/parseBreaks.cpp:20-46 | The emitted assignments are safe exactly if no phi node reads one that stands before it and changes, and no repeated value reads its own variable |
| PhiAssignments.ShiftedValues | parser/parseBreaks.cpp:20-46 | `prev = cur; cur = next;` comes out in this order and gives both the right values |
| PhiAssignments.SafeIsAtOnce | parser/parseBreaks.cpp:20-46 | Safe assignments in sequence are the simultaneous update, for every meaning of the operations, and leave memory alone |
| PhiAssignments.EdgeUpdate | parser/parseBreaks.cpp:20-46 | If no phi node reads one that stands before it and changes: on an edge, or several from one block, each phi node gets its incoming value as evaluated before the edge, and nothing else changes |
| PhiAssignments.EdgeExact | parser/parseBreaks.cpp:20-46 | For all meanings, values and memories this is so exactly if no phi node reads one before it that changes |
| PhiAssignments.InOrderExact | parser/parseBreaks.cpp:20-46 | Sequence and simultaneous update agree for all meanings exactly if no incoming value reads a phi variable that an earlier assignment changes, repeated assignments included |
| PhiAssignments.SwapIsLost | parser/parseBreaks.cpp:20-46 | Two phi nodes exchanging values lose one of them |
| PhiAssignments.RepeatedSafe | parser/parseBreaks.cpp:29-40 | The assignment that several edges from one block repeat is safe exactly if it reads its own variable only as a copy, as all variables and literals do |
| PhiAssignments.NothingWhenLeaving | parser/parseBreaks.cpp:34-39 | When a guard without calls does not hold, the guarded assignments change nothing, whatever variables it reads |
| PhiAssignments.UpdateWhenStaying | parser/parseBreaks.cpp:34-39 | When a safe guard holds, the guarded assignments are the simultaneous update |
| PhiAssignments.GuardExact | parser/parseBreaks.cpp:34-39 | The guarded assignments alone are the update and leave memory alone exactly if, besides, the guard makes no call and reads nothing changed before an assignment that matters |
| PhiAssignments.LatchExact | parser/parseBreaks.cpp:171-231 | Guarded assignments and the test of the do-while together do what one evaluation of the condition, and then back edge or exit, do, for all meanings, values and memories, exactly if the assignments are safe, the condition reads nothing they change, and makes no call if there are any |
| PhiAssignments.BackEdge | parser/parseBreaks.cpp:226-231 | On the back edge each phi node of the header has its incoming value when the loop repeats, the loop repeats when it should, and memory is what one evaluation of the condition makes it; asked only of the phi nodes and the condition |
| PhiAssignments.BackEdgeExact | parser/parseBreaks.cpp:171-231 | For all meanings, values and memories this is so exactly if no phi node reads one before it that changes, the condition reads none that changes, and makes no call if any is assigned |
| PhiAssignments.ConditionChanges | parser/parseBreaks.cpp:171-231 | A condition that reads the phi variable: LLVM repeats the loop, C leaves it |
| PhiAssignments.CalledTwice | parser/parseBreaks.cpp:171-231 | A condition that is a call, and one phi variable: C calls twice where LLVM calls once, and may leave a loop that LLVM repeats |
| InliningPreserves.CallInCondition | parser/createExpressions.cpp:81-106 | A call that only the branch uses becomes the condition itself |
| EarlyAssignments.AssignedAgain | parser/parseBreaks.cpp:212-225 | From the header, every block that may read the latch's phi variables is reached only over an edge into the latch, on which they are assigned again |
| IntegerCasts.SExtAgrees | parser/createExpressions.cpp:1322-1355 | The double cast for `sext` gives LLVM's bits, whatever signedness is recorded for the operand |
| IntegerCasts.ZExtAgrees | parser/createExpressions.cpp:1357-1372 | The double cast for `zext` likewise |
| IntegerCasts.TruncAgrees | parser/createExpressions.cpp:1373-1384 | The cast for `trunc` is reduction modulo a power of two |
| IntegerCasts.BoolExtends | parser/createExpressions.cpp:1326-1340 | A boolean extends to all ones or zero, and to one or zero |
| IntegerCasts.TruncAfterSExt | parser/createExpressions.cpp:1322-1384 | Truncating a sign-extended value gives back its bits |
| IntegerCasts.TruncAfterZExt | parser/createExpressions.cpp:1357-1384 | Truncating a zero-extended value gives back its bits |
| IntegerCasts.SExtExact | type/TypeHandler.cpp:31-56 | `sext` is right for all operands exactly if the width is 1 or one that C has |
| IntegerCasts.NarrowSignLost | type/TypeHandler.cpp:31-56 | For any other width the sign bit is an ordinary bit of the wider C type |
| IntegerCasts.TruncToBool | parser/createExpressions.cpp:1373-1384 | Truncation to one bit, from any width and either recorded sign, is right exactly for zero and odd values |
| OverflowHelpers.Generated | writer/Writer.cpp:511-568 | For 32 and 64 bits: the wrapped result, and a flag that is set exactly if the true sum, difference or product does not fit |
| OverflowHelpers.ProductWraps | writer/Writer.cpp:514-519 | Dividing the wrapped product by the first factor detects the overflow, for every modulus |
| OverflowHelpers.SumWraps | writer/Writer.cpp:520-523 | The wrapped sum is smaller than a summand exactly if it wrapped |
| OverflowHelpers.SignedExact | writer/Writer.cpp:505-568 | The code generated for signed intrinsics of 32 and 64 bits: the result always has the right bits, and the flag is right exactly in the ranges given for each operation |
| OverflowHelpers.SignedAdditionMisreported | writer/Writer.cpp:520-523 | Signed addition of -1 and 1 is reported as an overflow |
| OverflowHelpers.NarrowFlag | writer/Writer.cpp:324-329 | For operands of 8 and 16 bits, recorded with either sign and converted to 64 bits, exactly when the flag is set |
| OverflowHelpers.NarrowExact | writer/Writer.cpp:324-329 | Unsigned and signed intrinsics of 8 and 16 bits: the result has the right bits, and the flag is right exactly in the ranges given for each operation |
| RedundantCasts.SimplifyCastKeeps | parser/deleteRedundantCasts.cpp:36-77 | Collapsing and dropping casts in a chain keeps the number; the type stays or becomes boolean |
| RedundantCasts.SimplifiedLean | parser/deleteRedundantCasts.cpp:36-77 | After visit and simplification no cast in the expression holds a cast to its own type, and no integer or boolean cast holds a truth value |
| RedundantCasts.VisitedLean | parser/SimplifyingExprVisitor.cpp:199-205 | The same of all children of a visited expression |
| RedundantCasts.CastOfCast | parser/deleteRedundantCasts.cpp:38-75 | A cast repeated counts once, and a cast of a truth value not at all |
| RedundantCasts.DropEqExact | parser/deleteRedundantCasts.cpp:95-103 | `==` and `!=` keep their outcome for all operands exactly if no two values of the source types are as far apart as the narrower width wraps, or both widths agree |
| RedundantCasts.OneSourceType | parser/deleteRedundantCasts.cpp:95-103 | For one source type this means that the casts do not narrow |
| RedundantCasts.DropOrderedExact | parser/deleteRedundantCasts.cpp:105-127 | Ordered comparisons, unsigned throughout, keep their outcome exactly if the casts do not narrow |
| RedundantCasts.StrippedOnce | parser/deleteRedundantCasts.cpp:82-130 | Equal casts around a comparison are dropped exactly once, and which comparisons still have two that might be dropped |
| RedundantCasts.TypesKeepExact | parser/deleteRedundantCasts.cpp:46-77 | Operands of a comparison may become boolean without changing any outcome exactly if it is an equality, was not unsigned, or neither operand can be negative |
| RedundantCasts.PassKeeps | parser/deleteRedundantCasts.cpp:35-132 | The pass keeps the number of every expression and the truth value of every comparison, of matching signs or not, if operands become boolean and casts are dropped only where they may |
| RedundantCasts.NarrowingDropped | parser/deleteRedundantCasts.cpp:95-103 | Bytes of 0 and 256 are equal before the pass and differ after it |
| RedundantCasts.SimplifyNode | parser/deleteRedundantCasts.cpp:35-132 | The in-place step on a tree of nodes is the specified one |
| RedundantCasts.VisitNode | parser/SimplifyingExprVisitor.cpp:199-205 | The in-place visit of casts and comparisons is the specified one; variables may be shared |

## Left out

- LLVM's own passes and analyses: loop simplification, rotation, LoopInfo and the single-predecessor query are assumed to do what they are documented to do; the assumptions are `WellFormed` and the forest of loops in `PassEffects.IsForest`.
- Functions with blocks that cannot be reached, `unreachable` terminators, `asm` and exceptions.
- Statement nodes are values in the control-flow part: that an inlined block's statement list is itself rewritten in place while another block is visited is covered only through `Rewriting.RewriteTwice`.
- The empty phi lists that the loop parser puts into do-while bodies of phi-free functions; phi assignments are treated on their own in `PhiAssignments` and `EarlyAssignments`, not inside the control-flow theorems.
- Switch edges into blocks with phi nodes get no assignments in the source; such functions are outside `PhiAssignments`.
- Switch labels are integers: truncation of 64-bit case values by the map of cases is not modelled.
- The flag `isFirst`, which nothing reads.
- InliningPreserves.BlockPreserved: the condition on deferred calls is sufficient for what the block computes in the end, not necessary, because a value read too early may never matter, and because C leaves the order of operands open; for the invariant it is necessary too, by `InliningExact.PlaceExact`.
- InliningExact.PlaceExact: conditions of selects are constants, parameters or results of operations, loads and calls, perhaps frozen; whether a condition that is itself a select can go either way is a question about all its inputs.
- Evaluation order of C operands is fixed from left to right; in the translated blocks at most one operand depends on memory, so any other order gives the same.
- Statement nodes of the rewriting passes keep kind and children, and each child keeps its denotation; statements as such are given no meaning in `ExprTrees`.
- RewritingResults.OneTraversal: claims nothing below aggregate initialisers and extract-value expressions, whose children the source does not visit or does not simplify; what happens to an initialiser is in `RewritingResults.InitializerNormal`.
- RedundantCasts.VisitNode: the two operands of a comparison share no casts or comparisons here; a comparison shared by several statements is simplified once for each, and every such step is covered by `RedundantCasts.SimplifyCmpKeeps`.
- PhiAssignments.EdgeExact: no incoming value is a conditional expression of its own here, because whether C reads a branch of it is a question about the values; `PhiAssignments.EdgeUpdate` has them.
- PhiAssignments.BackEdgeExact: likewise.
- PhiAssignments.GuardExact: says nothing of the test that follows the guarded assignments, which is in `PhiAssignments.LatchExact`.
- ExpressionInlining.BlockTranslator.CreateExpressions: covers side-effect-free operations, loads, stores, calls, selects, freezes and the terminator; `alloca`, `insertvalue`, `extractvalue`, `asm` and the intrinsics with translations of their own are left out.
- ExprPrinting.ExprWriter.VisitCall: the option that strips the casts of a called function and the form for `va_start` are left out.
- ExprPrinting.ExprWriter.Visit: prints expressions only; statements, `asm`, aggregate initialisers and declarations in the cited lines are left out.
- SignednessLost.RightExact: constants and casts between widths count as operands here, with the type recorded for them; that the propagation also changes the recorded types of assigned variables is left out, so the types are those it leaves.
- SignednessLost.CPerforms: 32 and 64 bits only; what the sign casts make of narrower operations is in `NarrowArithmetic`, for the flags that the propagation leaves.
- SignCasts.CastsAgree: 32 and 64 bits only, narrower operations are in `NarrowArithmetic`; and no negative value shifted in a signed type, which is exact in `SignCasts.ShiftsExact`.
- SignCasts.ComparisonAgrees: 32 and 64 bits only, narrower comparisons are in `NarrowArithmetic.NarrowComparison`; for shifts as `SignCasts.CastsAgree`.
- SignCasts.IcmpAgrees: 32 and 64 bits only, and shifts likewise.
- SignCastVisitor.PassKeepsMeaning: for shifts as `SignCasts.CastsAgree`.
- The types `long` and 128-bit integers, floating point, right shifts, and the shifts by constants that become a multiplication or a comparison.
- Unions, `typedef`s and anonymous declarations in the order of emission.
- Statement printing, indentation, variable arguments, inline assembly, aggregate initialisers and the option to omit casts of called functions in the printing part; type names are single tokens.
- Memory ownership, debug metadata, naming and include files.
