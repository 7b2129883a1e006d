# Icarus Verilog: elaboration and netlist optimisation, verified in Dafny

This project models four parts of the Icarus Verilog compiler in which the code does real arithmetic, graph
rewriting or bounded recursion, and proves what each of them is for.

* **Constant propagation** (`cprop.cc`). A netlist is a set of nodes joined by nexuses; its meaning is the set of
  *solutions* of the node equations, so feedback loops are covered, with the four-value resolution of IEEE 1364-2005
  section 4.6.1 on every bit. Nodes that the pass does not look into stand for arbitrary behaviour, over which every
  theorem quantifies. `Cprop` is the pass as the source performs it, on a mutable design (`Design`): it folds
  concatenations, reduces muxes, merges part drivers, scans in arbitrary order until a scan finds nothing, and sweeps
  constants. `CpropRules`, `CpropMerge`, `CpropLayout`, `CpropSteps` and `CpropSweep` say what each rewrite is and
  prove what it keeps; `CpropResult` says of the nodes and nexuses alone what there is to do and what is left; `FourState` and `Netlist` hold the semantics.
* **Expression width inference** (`elab_expr.cc`, with the contract in `PExpr.h`). `ExprWidth` is the inference with
  its mode threaded through the tree, `ExprNodes` the mutable expression nodes whose methods compute it, `ExprModes`
  what the threading and the single retest amount to, `ExprEval` an evaluator at a chosen width, `ExprPruning` and
  `ExprLossless` the two guarantees, `ExprOperands` what the operands contribute. `PowersOfTwo` is the arithmetic they share.
* **Scopes** (`elab_scope.cc`, `HName.cc`, `elaborate.cc`, `netenum.cc`). `HName` is the order of names;
  `ScopePaths`, `ScopeTree`, `ScopeContents`, `ScopeNames` and `Instantiation` are module instances, generate schemes and the
  elaboration work list, for every value that the conditions, cases, loops and ranges of the design can have;
  `GenerateLoop` the scopes of a generate loop; `Enumeration`, over the constants of `Verinum`, the values of an
  enumeration.
* **Addressing** (`elab_lval.cc`, `elab_net.cc`, `elab_expr.cc`, `netlist.cc`). `Lvalues` and `LvalueNets` are
  concatenations as procedural and structural l-values; `Selects` and `ParamSelects` constant selects of packed
  vectors and of parameters.

Code that changes things step by step is a class or a method with loops, proved against a function or a predicate;
the theorems are lemmas about those functions and predicates.

## Where the code does not do what is expected of it

Each of these is a lemma or a two-way contract; the code is modelled as it is.

* Merging the parts of a two-state target that leaves some bit undriven is seen: those bits change from z to 0, unless
  the target has another source. That is what the source intends, but it is not a rewrite that keeps the netlist's
  meaning: as long as no flip-flop is removed and the result has a solution, the propagation keeps the meaning if and
  only if the netlist has no such target (`CpropSteps.RunExact`, `Cprop.Design.Propagate`).
* A flip-flop that feeds itself is removed without being counted, so that a first scan that removes one and rewrites
  nothing is also the last, whatever the removal has made constant (`Cprop.Design.Propagate`).
* The operators that elaborate to minimum and maximum do not set `min_width` to "no pruning", and pruning them is
  unsound (`ExprPruning.MinBreaksPruning`), unless what they choose from fits `min_width`, as the values of nets,
  literals and flags do, and bitwise combinations of them (`ExprPruning.PruningSound`).
* A shift or power whose right operand varies is cut to integer width once its formula exceeds that and its left operand;
  a shifted value then no longer fits (`ExprLossless.VariableShiftWidth`, and `ExprLossless.VariablePowerWidth` for
  powers). A product of an unsigned bit is inferred one bit wider than it needs (`ExprOperands.GrowsByNeed`).
* A shift or power can be given fewer bits than its own left operand (`ExprPruning.NarrowsExactly` says exactly when);
  `x ** 0` with unsigned `x` is inferred 0 bits wide, and the width of a power of a long base wraps around at 2^32,
  after which it no longer holds every power (`ExprLossless.PowerWidth`).
* Which operand of a binary operator is written first never matters once the mode is above SIZED
  (`ExprModes.OrderNeverMattersAbove`), nor without shifts and powers (`ExprModes.OrderDoesNotMatter`). In SIZED mode
  it matters exactly when a shift or power reacts differently to the mode in which it is tested, as
  `ExprModes.OrderMattersExactly` spells out: it can decide between UNSIZED and LOSSLESS, and so the width
  (`ExprModes.OrderMattersWithShift`), or between LOSSLESS and UPSIZE (`ExprModes.OrderMattersWithSigns`).
* The comment in `PEBComp::test_width` asks whether one extra bit is enough. For sums, products, selections and
  differences of one signedness no extra bit is ever called for, and the comparison is of the exact values if and only
  if they are signed, of equal sign, or far enough apart (`ExprLossless.ComparisonIsExact`). It is only an unsigned
  operand that is negative as a whole that comes out too large, by 2 to the width
  (`ExprLossless.InferredWidthIsLossless`), and so at every width a comparison with it can go wrong
  (`ExprLossless.UnsignedDifferenceIsNotExact`).
* `PExpr.h` says that an unsized literal changes the mode to LOSSLESS. The code does so only for a literal that is at
  least as wide as an integer; a narrower one changes SIZED to UNSIZED (`ExprModes.ModeIsDescribed`).
* A new scope is entered under its name in its parent without a look at what is there, and a comment asks whether there
  should be one (net_scope.cc:131-132). As long as the text of the parent calls for no name twice, none is ever given
  twice, whatever the order of the work list brings (`Instantiation.Design.RunWorkList`).
* In a signed enumeration of one bit the increment is -1 and the largest value is computed as 2, so that the name
  after 0 silently gets -1 (`Enumeration.ImplicitIsNext`, `Enumeration.OneBitWraps`).
* A generate loop that would end after exactly 500001 iterations is rejected, and the binding of the genvar stays in
  place when the loop fails after it has created a scope (`GenerateLoop.NetScope.GenerateScopeLoop`).
* For an innermost dimension with equal ends (`[n:n]`) and a width above 1, the address of an indexed select is wrong
  in expressions for both directions and in procedural l-values for `-:`; net l-values are right, and so are all
  selects of whole sub-arrays (`Selects.RvalueSelect`, `Selects.LvalueSelect`, `Selects.NetSelect`).

## Model

| member | source | states |
|---|---|---|
| FourState.ResolveIsTheTable | vvp/resolv.cc:139-161 | resolving the drivers of a wire group by group, in any grouping and with z left out, is resolving them two at a time by the truth table of the standard: equal bits stay, z gives way, and all else is x |
| Netlist.ConstantNexus | link_const.cc:32-137 | when the drivers of a nexus count as constant, every solution gives that nexus the driven vector |
| CpropResult.OutsideWins | link_const.cc:42-87 | a nexus with a tran, a signal that procedural code assigns, or an input or inout port of a root module is never constant, and no equation restricts its value |
| CpropRules.ConcatFoldedSound | cprop.cc:82-124 | folding a concatenation of constants keeps well-formedness and exactly the solution values of all nexuses |
| CpropRules.MuxReducedSound | cprop.cc:152-193 | replacing a two-way mux with a constant select by a buffer keeps exactly the solution values of all nexuses |
| CpropMerge.PartsResolve | cprop.cc:265-283 | parts that do not overlap resolve, bit by bit, to the input of the one part that covers the bit, and to z elsewhere |
| CpropMerge.MergedSound | cprop.cc:310-343 | merging the parts of a four-state target, of one without gaps, or of one with another source keeps exactly the solution values of all nexuses there were |
| CpropMerge.MergedTargetValue | cprop.cc:310-343 | after a merge every driven bit has the value its parts would have resolved to and every undriven bit has the fill, 0 for a two-state target |
| CpropMerge.FillIsSeen | cprop.cc:252-256 | if the result has a solution, a merge keeps the meaning if and only if the fill is z, the parts drive every bit, or the target has another source |
| CpropLayout.TiledIsMergeable | cprop.cc:268-283 | sorted parts that lie one after the other inside the target are exactly what may be merged: disjoint and in range |
| CpropLayout.MergeableIsTiled | cprop.cc:265-283 | conversely, disjoint in-range parts sorted by base lie one after the other |
| CpropLayout.PiecesFill | cprop.cc:295-339 | the widths of parts and gaps add up to the width of the target |
| CpropLayout.CoveredBit | cprop.cc:318-321 | the joined pieces show, on each bit a part covers, the bit of that part's input |
| CpropLayout.UncoveredBit | cprop.cc:320-328 | and the fill on every other bit |
| CpropLayout.CarriedPins | cprop.cc:316-339 | pins that carry the pieces make the concatenation that the merge calls for |
| CpropSteps.RewriteProgress | cprop.cc:445-457 | 2 * parts + concatenations + muxes strictly drops with every rewrite, and no nexus disappears |
| CpropSteps.RewriteSound | cprop.cc:82-346 | any one rewrite but the filling of a visible gap keeps exactly the solution values of the nexuses there were |
| CpropSteps.RewriteTracked | cprop.cc:82-346 | nothing becomes mergeable by a rewrite; a target that could be merged at the start is as it was, or shows its fill on the bits that were not driven, also after its concatenation has been folded |
| CpropSteps.RunSound | functor.h:27-32 | any run of rewrites in any order over safe targets keeps them, and is no longer than the initial potential |
| CpropSteps.RunExact | cprop.cc:445-457 | a run that leaves nothing to merge, and whose result has a solution, keeps them if and only if every mergeable target was safe |
| CpropResult.FoldableExactly | cprop.cc:82-110 | a concatenation is folded exactly if every input is a nexus without an outside source that one constant or pull drives, or nothing |
| CpropResult.ReducibleExactly | cprop.cc:152-172 | a mux is reduced exactly if it has two inputs and a one-bit select without an outside source that is driven by one constant, 0 or 1 |
| CpropResult.MergeableExactly | cprop.cc:211-293 | a nexus is merged exactly if only parts drive it, they drive bits that it has, no two of them the same bit, and there are two of them or a two-state signal |
| CpropResult.SafeTargetsExactly | cprop.cc:252-256 | all targets are safe exactly if the parts of every two-state one without an outside source drive all of its bits |
| CpropResult.RunFills | cprop.cc:318-338 | after a run that leaves nothing to merge, every bit that no part of a target drove is 0 in every solution if the target had a two-state signal, and z if not |
| CpropResult.FlopRemoved | cprop.cc:126-141 | removing a flip-flop that feeds itself and is not controlled adds no solution, if such flip-flops settle on the value at their data input |
| CpropResult.SweepableExactly | cprop.cc:365-442 | a constant is swept exactly if all its bits are z, or no node has an input on its nexus and every signal there is local, read by no expression, and no port of a root module |
| CpropSweep.SweptSound | cprop.cc:365-442 | deleting one constant that the sweep accepts changes nothing that is observable: node inputs, non-local signals, referenced signals, root ports |
| CpropSweep.SweepRunSound | cprop.cc:365-442 | nor does deleting any number of them in any order |
| Cprop.Design.FoldInputs | cprop.cc:82-110 | finds that all inputs are constant exactly when they are, and then their concatenation |
| Cprop.Design.LpmConcat | cprop.cc:82-124 | folds and counts exactly the concatenations all of whose inputs are constant or undriven, and leaves every other alone |
| Cprop.Design.LpmMux | cprop.cc:152-193 | reduces and counts exactly the two-input muxes whose one-bit select is constantly 0 or 1 |
| Cprop.Design.LpmFF | cprop.cc:126-141 | removes, uncounted, exactly the flip-flops that feed themselves and are not controlled |
| Cprop.Design.CollectParts | cprop.cc:222-250 | lists all drivers of a nexus when all of them are parts, and only then |
| Cprop.Design.SortByBase | cprop.cc:195-198 | the same parts in order of base |
| Cprop.Design.CheckLayout | cprop.cc:268-293 | accepts sorted parts exactly when they lie one after the other inside the target, and a refusal means they overlap or stick out |
| Cprop.FitsOneAfterTheOther | cprop.cc:270-293 | the overlap loop and the tail check accept exactly the tilings |
| Cprop.CountPieces | cprop.cc:295-308 | counts exactly the parts and gaps that the building loop will connect |
| Cprop.Design.ConnectParts | cprop.cc:316-321 | connects the pieces of all parts, with a new constant on a nexus of its own for each gap |
| Cprop.Design.BuildPins | cprop.cc:316-339 | connects all pieces; the counted and the connected pins agree, so the assertion at line 339 holds |
| Cprop.Design.MergeParts | cprop.cc:310-345 | replaces the sorted parts of a target by one concatenation, counted once |
| Cprop.Design.LpmPartSelect | cprop.cc:211-346 | merges, and counts, exactly where only parts drive the target, in range and no two of them the same bit, and there are two of them or a two-state signal |
| Cprop.Design.Visit | functor.h:27-32 | one visit performs the rewrite that applies, counts it, and otherwise changes nothing but a removable flip-flop |
| Cprop.Design.Scan | functor.cc:141-185 | a scan in any order counts no more than the potential drops by, is a run of rewrites unless a flip-flop goes, and counts nothing only if nothing was eligible |
| Cprop.Design.Propagate | cprop.cc:445-457 | the do-while ends after at most potential + 1 scans; unless the last scan was the only one and removed a flip-flop, no target of disjoint parts, mux with constant select or concatenation of constants is left; the self-fed uncontrolled flip-flops are gone, and no others; if there were none, it is a run of rewrites, which fills every gap and keeps the meaning exactly when all targets are safe, if the result has a solution |
| Cprop.Design.LpmConst | cprop.cc:365-442 | deletes exactly the constants that are all z, or on whose nexus no node has an input and every signal is local, unread by expressions, and no port of a root module |
| Cprop.Design.Sweep | cprop.cc:463-464 | deletes exactly those constants and keeps the values of every nexus that an expression reads, that has a signal from the source or a root port, or that a node has an input on |
| Cprop.Design.Run | cprop.cc:445-469 | the whole pass ends; over safe targets and without self-fed flip-flops every nexus there was keeps its solution values if an expression reads it, it has a signal from the source or a root port, or a node still has an input on it; of the constants that the pass has made only those are left that some node reads |
| ExprNodes.PExpr.TestWidth | elab_expr.cc:757-851 | the mutable node tree computes, in its fields, returned width and mode, exactly the threaded inference |
| ExprNodes.PExpr.FixWidth | elab_expr.cc:475-483 | returns the calculated width and leaves at least integer width in the node in UPSIZE mode |
| ExprNodes.PExpr.TestBoth | elab_expr.cc:762-778 | tests both operands and the first again exactly when the second made the context lossless, leaving each with the fields of its last test |
| ExprNodes.PExpr.TestBinary | elab_expr.cc:757-851 | width, min_width, sign and mode of a binary operator |
| ExprNodes.PExpr.GuessRight | elab_expr.cc:1341-1386 | the guess at the right operand of a shift or power: the largest value within width_cap that it can have, and if it is constant its value, clipped to 0 .. width_cap |
| ExprWidth.GuessIsLargest | elab_expr.cc:1347-1386 | the guess at a right operand that varies is the largest value of its width within the cap, signed for a power of a signed one; a constant of 63 bits, or 64 signed ones, is taken as it is within 0 .. width_cap |
| ExprNodes.PExpr.TestLeftWidth | elab_expr.cc:1295-1450 | width, min_width, sign and mode of a shift or power, with its arithmetic modulo 2^32, whose right operand is left with its own width |
| ExprNodes.PExpr.TestComparison | elab_expr.cc:1075-1136 | a one-bit result, and the widths at which the operands are evaluated |
| ExprNodes.PExpr.TestNumber | elab_expr.cc:8138-8168 | width and mode of a literal: an unsized one has integer width at least, and makes the context lossless if it is as wide as an integer as it is written |
| ExprNodes.PExpr.TestTernary | elab_expr.cc:8326-8384 | width, min_width, sign and mode of a conditional |
| ExprNodes.PExpr.TestUnary | elab_expr.cc:8558-8603 | width, min_width, sign and mode of a unary operator with a context-determined operand |
| ExprNodes.PExpr.TestReduction | elab_expr.cc:8572-8596 | a one-bit result whose operand keeps the width of its own test |
| ExprModes.TwoPass | elab_expr.cc:762-778 | the threaded inference with its retest gives every expression the width that its final mode calls for, and the mode never decreases |
| ExprModes.RetestChangesNothing | elab_expr.cc:774-778 | testing again from the mode it ended in changes nothing at all, so that one retest is enough |
| ExprModes.UpsizeReturnsLossless | PExpr.h:123-127 | LOSSLESS and UPSIZE return the same width; the width left in the node is that, or integer width if that is larger and the mode UPSIZE |
| ExprModes.InfoFromMode | PExpr.h:82-129 | the whole outcome follows from the expression and the final mode |
| ExprModes.ModeIsDescribed | PExpr.h:96-122 | without shifts and powers the final mode depends only on whether there is a wide or a narrow unsized literal and a change of sign |
| ExprModes.OrderNeverMattersAbove | elab_expr.cc:757-851 | from any mode above SIZED swapping the operands changes nothing at all, whatever they are |
| ExprModes.OrderMattersExactly | elab_expr.cc:757-851 | from SIZED it changes the outcome if and only if the modes that the operands alone make of SIZED, UNSIZED and LOSSLESS disagree in one of the listed ways |
| ExprModes.OrderDoesNotMatter | elab_expr.cc:757-851 | without shifts and powers swapping the operands changes nothing from any mode |
| ExprModes.OrderMattersWithShift | elab_expr.cc:1330-1331 | a wide literal shifted left, beside a narrow literal: inferred lossless in one order, unsized and narrower in the other |
| ExprModes.OrderMattersWithSigns | elab_expr.cc:1330-1331 | a shifted sum with a change of sign, beside a wide literal: UPSIZE in one order, LOSSLESS in the other |
| ExprOperands.SignedExactly | elab_expr.cc:804 | an expression is signed exactly if it is made of signed literals and signals only, comparisons and reductions counting as unsigned |
| ExprOperands.MinIsLargest | elab_expr.cc:803 | min_width, where it allows pruning, is the width of the largest literal, signal or flag that the expression is made of |
| ExprOperands.WidestOperand | elab_expr.cc:802-851 | an expression that stays SIZED or UNSIZED is as wide as its widest operand, unsized literals with integer width; in every mode without sums, differences, products, powers and shifts to the left |
| ExprOperands.ComparedPlainly | elab_expr.cc:1103-1118 | a comparison that is not inferred lossless is made at the width of the widest operand on both of its sides |
| ExprOperands.GrowsByNeed | elab_expr.cc:813-829 | from EXPAND up a sum, difference or product is given the least width that holds every result of operands of the widths given to these, except that a product of an unsigned bit is given one more |
| ExprOperands.ShiftMode | elab_expr.cc:1330-1409 | a shift or power takes the mode of its left operand in SIZED mode only; a signed right shift turns LOSSLESS into UPSIZE; the right operand has no say |
| ExprOperands.LeftWidthKept | elab_expr.cc:1339-1411 | the width of the left operand is kept below EXPAND, by right shifts, and by left shifts of sized operands |
| ExprPruning.PruningSound | PExpr.h:84-87 | at any two widths not below min_width an expression has the same value modulo 2 to the smaller one, minimum and maximum of operands that min_width holds, bitwise ones among them, included |
| ExprPruning.PruningDisabled | elab_expr.cc:1445-1448 | min_width forbids pruning exactly above a division, remainder, right shift or power, however far above |
| ExprPruning.PruningKeepsAssignment | netmisc.cc:869-886 | pruning a right-hand side to the width of its target, and then capping it, does not change what is assigned whenever the unpruned value is defined, on all bits that there are without pruning: all of the target unless it is wider than the cap; nor whether it is defined, unless a shift or power narrows or the cap cuts what min_width holds |
| ExprPruning.PrunedToLeast | netmisc.cc:869-886 | pruning leaves the larger of target width and min_width, and happens only above a target that is narrower than the expression, where min_width allows it |
| ExprPruning.CappedExactly | netmisc.cc:869-886 | only a lossless width that exceeds both the cap and the target is cut, to the cap |
| ExprPruning.MinBreaksPruning | elab_expr.cc:822-846 | not so for a minimum: two widths at and above min_width with different low bits |
| ExprPruning.NarrowsExactly | elab_expr.cc:1394-1442 | exactly when a shift or power gets a lossless width below that of its left operand: cut to integer width, a power of zero, or wrapped around at 2^32 |
| ExprPruning.WidthCovers | elab_expr.cc:757-851 | unless that happens the inferred width is at least min_width and the width of every operand |
| ExprLossless.EvalIsModular | elab_expr.cc:858-895 | at any width that cuts no operand, evaluation gives the exact integer value modulo 2^width |
| ExprLossless.InferredWidthIsLossless | elab_expr.cc:757-851 | from EXPAND, or when inference ends in LOSSLESS or above, evaluation at the inferred width or any larger one gives the exact integer if and only if it is signed or not negative, and otherwise 2 to the width more |
| ExprLossless.ComparisonIsExact | elab_expr.cc:1093-1124 | a comparison inferred lossless gets equal operand widths of at least integer width, and answers for the exact integers if and only if they are signed, of equal sign, or far enough apart for the operator |
| ExprLossless.UnsignedDifferenceIsNotExact | elab_expr.cc:1112-1118 | an unsigned 0 - 1 equals an all-ones literal of any width, so no number of extra bits is enough for operands of different sign |
| ExprLossless.PowerFits | elab_expr.cc:1411-1420 | v**r fits (w-1)*r+2 signed or w*r unsigned bits for every w-bit v and r >= 1 |
| ExprLossless.PowerWidth | elab_expr.cc:1411-1420 | the inferred width of anything but a literal to a constant power k is (w-1)*k+2 signed or w*k unsigned bits, and holds every result, if and only if that stays below 2^32 and the base is signed or the power is not 0 |
| ExprLossless.LiteralPowerWidth | elab_expr.cc:1412-1414 | a power of literals has the width of the folded power, or of the base literal if that is larger |
| ExprLossless.ShiftWidth | elab_expr.cc:1396-1399 | the inferred width of anything unsized shifted left by a constant k is k bits more, and holds every shifted value, if and only if it stays below 2^32 |
| ExprLossless.VariablePowerWidth | elab_expr.cc:1347-1436 | with an exponent that varies the inferred width holds every power up to the largest exponent reckoned with, if it neither wraps around at 2^32 nor is cut to integer width; if it wraps around, or is cut by more bits than that exponent, it does not |
| ExprLossless.VariableShiftWidth | elab_expr.cc:1347-1436 | with a distance that varies the inferred width of anything unsized holds every shifted value if and only if it neither wraps around nor is cut to integer width |
| HName.Strcmp | HName.cc:62-64 | negative exactly when the first text precedes, zero exactly when they are equal |
| HName.HName.LessThan | HName.cc:60-91 | compares by text and then by indices, a prefix first |
| HName.WhatDecides | HName.cc:60-91 | a text that is a prefix comes first and otherwise the first difference decides, whatever the indices are; with equal texts the same holds for the indices |
| HName.HName.EqualTo | HName.cc:93-107 | equal exactly when text and all indices are |
| HName.HName.Assign | HName.cc:53-58 | copies the whole name |
| HName.LessTransitive | HName.cc:60-91 | the order is transitive |
| HName.LessTrichotomy | HName.cc:60-107 | of any two names exactly one of less, equal and greater holds |
| ScopePaths.AcceptedExactly | elab_scope.cc:1426-1469 | over a path that keeps the bound, the check accepts a module exactly when the longer path keeps it too |
| ScopePaths.AcceptedMeans | elab_scope.cc:1426-1469 | accepted exactly if at most limit scopes of the module are above, and on the way up to each of them a generate block |
| ScopePaths.BlockKeepsSound | elab_scope.cc:1276-1291 | any other scope can be added to a path |
| ScopePaths.ModulesBounded | elab_scope.cc:1426-1469 | a path that keeps the bound has at most modules * (limit + 1) module scopes |
| ScopePaths.DepthBounded | elab_scope.cc:1426-1469 | and at most modules * (limit + 1) * (1 + block nesting) scopes in all |
| ScopeTree.CompleteCarried | elaborate.cc:8512-8541 | a scope with everything in it up to pending work stays so as scopes and work are added and as work that is done is taken away |
| ScopeTree.CompleteMeans | elaborate.cc:8512-8541 | with no work pending a complete scope has in it a scope for everything that its text calls for |
| ScopeTree.IndicesNamed | elab_scope.cc:1514-1527 | an array names an instance for exactly the indices between the two ends of its range, both included, or 0 .. n - 1 for a size n; a gate without a range names one, one with more than one range none |
| ScopeContents.SchemeCalls | elab_scope.cc:1124-1310 | a scheme calls for the blocks of the schemes that are in force because of it, through alternatives that are directly nested to any depth |
| ScopeContents.ContentsOf | elab_scope.cc:764-920 | a scope that has what its text calls for has exactly these children: a module for each index of each accepted instance, a scope for each task, function and block, and for each scheme in force its block, one for each value of a loop |
| ScopeNames.ModuleSettled | elab_scope.cc:764-890 | the items of a module bring distinct names, at once or by way of work, beside those that are there and those that its schemes will bring |
| ScopeNames.WorkSettled | elab_scope.cc:1398-1406 | the run of a work item brings names that nothing in its scope has and no other work can bring |
| Instantiation.Design.CheckRecursion | elab_scope.cc:1426-1469 | the climb through the parents accepts exactly the allowed instances; the one error means that a scope of the same module is above without a generate block in between, the other that there are too many |
| Instantiation.Design.ElaborateInstance | elab_scope.cc:1414-1493 | a refused instance only adds an error, an array only goes on the work list, any other gets its scope with everything in it |
| Instantiation.Design.EvaluateRange | netmisc.cc:1081-1154 | the two ends, or 0 and the size less one, between which exactly the indices lie, with one error for each end that has no value |
| Instantiation.Design.ArraySize | elaborate.cc:76-109 | the number of indices of the range, whichever end is larger; none for several ranges, with one error, or for a range with an end without a value |
| Instantiation.Design.ElaborateInstances | elab_scope.cc:1499-1632 | a new complete scope for exactly the indices between the ends of the range, both included, one each, and no other; nothing changes when there is no range to evaluate |
| Instantiation.Design.ElaborateModule | elab_scope.cc:764-890 | every allowed instance and every block of the module gets its scope, recursively, and its generate schemes go on the work list; names stay distinct |
| Instantiation.Design.ElaborateItems | elab_scope.cc:1349-1366 | the same for the contents of a scope, with an error for every refused instance |
| Instantiation.Design.MakeBlock | elab_scope.cc:1276-1376 | the scope of a block is created, once, with everything that its text calls for in it, and nothing else is created in its parent |
| Instantiation.Design.GenerateScope | elab_scope.cc:892-920 | a scheme creates, with their contents, the scopes that its condition, case or loop calls for and no others, with distinct names if it calls for distinct ones; a scheme that calls for nothing changes nothing |
| Instantiation.Design.RunItem | elab_scope.cc:1398-1406 | a work item is done when it has run, what it puts on the list has a smaller measure, and the names in its scope stay distinct |
| Instantiation.Design.RunBatch | elaborate.cc:8521-8536 | a pass over the list does all its items, and leaves only items of smaller measure than the largest it took over |
| Instantiation.Design.AddRoots | elaborate.cc:8461-8507 | a scope, put on the work list, for every root module that there is, an error for every other, and nothing else |
| Instantiation.Design.RunWorkList | elaborate.cc:8512-8541 | for all conditions, ranges and loops the work list becomes empty; then the children of every scope are exactly the instances with their indices, the blocks, and the generate blocks of the schemes in force in its text, no two of one name if the text calls for none twice, and every scope keeps the bounds on recursion and depth |
| Instantiation.Design.Elaborate | elaborate.cc:8461-8541 | from an empty design: the tree has the given roots at its top and below them exactly those children, one scope for each call where the text calls for no name twice |
| GenerateLoop.NetScope.FindGenvar | elab_scope.cc:939-961 | succeeds exactly when the nearest scope that knows the name knows it as a genvar |
| GenerateLoop.DeclaredFromInside | elab_scope.cc:942-953 | a name is found in the innermost scope, or in its parents if that scope does not know it at all |
| GenerateLoop.NetScope.GenerateScopeLoop | elab_scope.cc:937-1122 | succeeds exactly when the orbit of the genvar ends within 500000 steps with defined values and fresh names; on any run the new children are those of the first n values, n at most 500001, each named [v] after its value v while the values fit an int, as a scope with this loop in its text calls for |
| GenerateLoop.NetScope.Pass | elab_scope.cc:1010-1115 | one iteration passes, or the loop can never end properly |
| GenerateLoop.CountingLoop | elab_scope.cc:1009-1115 | for (i = first; i < end; i = i + 1) over free names succeeds exactly if it makes at most 500000 scopes, for first .. end - 1 |
| GenerateLoop.AfterSize | elab_scope.cc:1016-1030 | n iterations with fresh names add exactly n children |
| GenerateLoop.AfterValue | elab_scope.cc:1037-1056 | each child keeps the value of the genvar it was made for |
| GenerateLoop.EndsOnce | elab_scope.cc:1009-1115 | a loop ends after one number of iterations only |
| GenerateLoop.NamesFollowValues | elab_scope.cc:1012-1017 | the index of a scope is the value of the genvar if that fits an int, and otherwise the int that is equal to it modulo 2^32; names differ exactly when values do, for values that fit |
| Enumeration.ElaborateEnumeration | elab_scope.cc:182-376 | the loop over the names leaves exactly the names, values and errors that the entries call for one after the other |
| Enumeration.CheckUpper | elab_scope.cc:273-310 | the bit loop accepts exactly the values whose upper bits repeat the top bit or, unsigned, are zero |
| Enumeration.SizeValue | elab_scope.cc:217-329 | brings an explicit value to the width of the enumeration and counts exactly the errors it has |
| Enumeration.FilledBits | elab_scope.cc:258-262 | '0, '1, 'x and 'z fill the enumeration, a signed value is extended by its top bit, and so is an unsized one whose top bit is not 1 |
| Enumeration.DistinctWhenClean | elab_scope.cc:347-367 | no error: all names and all values are pairwise distinct |
| Enumeration.FirstIsZero | elab_scope.cc:197-199 | an implicit first value is 0 |
| Enumeration.CountedValue | elab_scope.cc:197-212 | in an enumeration of names without values name i has the value i |
| Enumeration.NamesFitExactly | elab_scope.cc:339-372 | such an enumeration of distinct names passes if and only if it has no more names than there are values from 0 up |
| Enumeration.ImplicitIsNext | elab_scope.cc:339-372 | no error: an implicit value is its predecessor plus one if and only if the enumeration is not a signed bit whose predecessor is 0 |
| Enumeration.OneBitWraps | elab_scope.cc:199-212 | a signed one-bit enumeration of two names passes with the values 0 and -1 |
| Enumeration.ExplicitKeepsValue | elab_scope.cc:258-325 | no error: a defined explicit value of another width keeps its integer value when it is padded or cut |
| Enumeration.FitsExactly | elab_scope.cc:223-329 | a defined value of another width, if no length is written with it, has no error if and only if its integer is one that the enumeration can hold |
| Enumeration.OnlyEntered | elab_scope.cc:347-367 | a name is entered only by an entry that gives it a value, and with that value |
| Enumeration.LeftOut | elab_scope.cc:219-327 | an entry without a constant adds an error and nothing else; an unsigned value with a one just above the enumeration ends it |
| Enumeration.NetEnum.FindValue | netenum.cc:119-130 | finds a value exactly when some name has it |
| Enumeration.NetEnum.InsertName | netenum.cc:64-80 | enters a name once and keeps the first value |
| Enumeration.NetScope.AddEnumerationName | net_scope.cc:55-68 | enters a name in the scope, and says whether it is new |
| Lvalues.ElaborateLval | elab_lval.cc:106-161 | the chain lists the targets of an arbitrarily nested concatenation in reverse, all unsigned, with an error for each operand left out |
| Lvalues.LinkBefore | elab_lval.cc:149-157 | the relinking loop appends the earlier chain to the new one |
| Lvalues.NoFaultsExactly | elab_lval.cc:106-161 | no error exactly if every operand is there, elaborates and is packed, and nothing is repeated |
| Lvalues.VariablesInOrder | elab_lval.cc:106-161 | the targets of a concatenation of variables are these, from left to right |
| Lvalues.RoundTrip | elab_lval.cc:93-105 | a value assigned through the chain of distinct variables is read back modulo 2 to the total width, and each of them has the bits above those of all variables to its right |
| LvalueNets.ElaborateLnet | elab_net.cc:44-171 | succeeds exactly without faults, with the nested part selects of the l-value |
| LvalueNets.MakeSelects | elab_net.cc:150-169 | the running width places each operand above all later ones and ends at 0 |
| LvalueNets.SelectsTile | elab_net.cc:150-169 | the part selects tile the input net from the top bit to bit 0 |
| LvalueNets.SelectsAgreeWithChain | elab_net.cc:150-169 | driving a net through the part selects gives every target the bits that the assignment chain gives it |
| Selects.SbToIdx | netlist.cc:782-818 | the loop from the innermost dimension outward computes the mixed-radix number of the indices |
| Selects.SbToSlice | nettypes.cc:132-194 | offset and width of the sub-array that an index names, refused exactly when the index is outside its dimension |
| Selects.CanonicalInside | netlist.cc:782-818 | indices inside their dimensions name bits of the vector |
| Selects.CanonicalInjective | netlist.cc:782-818 | different indices name different bits |
| Selects.CanonicalEnds | netlist.cc:782-818 | the right ends of all dimensions name bit 0, the left ends the top bit |
| Selects.InsideExactly | nettypes.cc:157-160 | an index is inside its dimension exactly if it names one of the bits 0 .. width - 1 |
| Selects.BitDiffers | netlist.cc:782-818 | one index further is one sub-array higher in a descending dimension, and lower in an ascending one |
| Selects.IndicesOf | elab_expr.cc:7340-7345 | [b +: w] names b .. b + w - 1, and [b -: w] names b - w + 1 .. b |
| Selects.RvalueSelect | elab_expr.cc:7307-7373 | an unsigned base whose low 32 bits are a negative int is always outside; else the base of a constant indexed select is its lowest canonical bit if and only if sub-arrays are selected, the dimension has different ends, or the width is 1; a select of sub-arrays is refused exactly when an end is outside |
| Selects.LvalueSelect | elab_lval.cc:945-1027 | the same for a procedural l-value, which is right for `+:` in any case |
| Selects.NetSelect | elab_net.cc:243-380 | a net l-value always covers exactly the selected bits; it is skipped exactly when all of them are outside the vector, or an end of a select of sub-arrays is |
| Selects.LvaluePart | elab_lval.cc:840-888 | a part select is refused exactly when it is reversed, or names a sub-array outside its dimension, and otherwise covers its bits |
| Selects.SelectRoundTrip | elab_lval.cc:1006-1015 | what is written through a select that covers its indices is read back through any other that does, bits outside the vector are lost, and every bit that is not selected is unchanged |
| ParamSelects.PartSelectBits | elab_expr.cc:6517-6542 | x below the parameter and above a sized one, extension above an unsized one |
| ParamSelects.BitSelect | elab_expr.cc:6600-6631 | the bit at the canonical index, with the same rules outside the parameter |
| ParamSelects.PartSelect | elab_expr.cc:6673-6729 | refused exactly when out of order, and otherwise the bits of its indices |
| ParamSelects.IndexedSelect | elab_expr.cc:6811-6847 | the bits of its indices, for both directions and both orders of the range |
| ParamSelects.PartIsBitByBit | elab_expr.cc:6645-6734 | bit k of a part select is the bit select of the k-th index from the right: the bit of the parameter, x, or its extension |
| ParamSelects.IndexedIsPart | elab_expr.cc:6769-6862 | [b +: w] is the part select of b .. b + w - 1 and [b -: w] that of b - w + 1 .. b, in the direction of the parameter, so that neither is ever out of order |

## Left out

* Drive strengths, delays and simulation time in the netlist, and drivers that come from behavioural code other than
  as free nexuses.
- CpropResult.FlopRemoved: that no solution is added says nothing of those that are lost, namely the other values that such a flip-flop could hold; so the theorems about a whole run are about netlists without one.
- Netlist.ConstantNexus: drivers that replace some bits of a vector (NetSubstitute), which the source also accepts as constant when both of their inputs are, count as devices that are not looked at; the cache of the result is not modelled.
- Cprop.Design.SortByBase: an insertion sort stands for the library's sort, which may order parts of equal base differently; such parts overlap.
* Overflow of `unsigned` in the widths of sums, products and concatenations: only the arithmetic of shifts and powers,
  where a width is multiplied, wraps around.
* Real, string and class operands, function calls, casts and system functions in expressions; a net is an operand of
  known width, and constants among right operands and lengths of folded powers are parameters of the tree.
* The strict width flag, which can lower the mode.
- ExprPruning.PruningSound: all operand values are defined, because an x that is shifted out can differ between widths; minimum and maximum are admitted over operands that fit min_width by their form, and refuted in general.
- ExprPruning.PruningKeepsAssignment: with minimum or maximum in it the right-hand side must narrow nowhere, and the cap must not cut what min_width holds.
- ExprLossless.InferredWidthIsLossless: unary minus, division and shifts are not part of it; their widths are not extended, or their operands are tested from SIZED.
- ExprLossless.PowerWidth: the exponent is within the cap on widths and of at most 63 bits, or 64 signed ones; a larger one is clipped.
* Elaboration of expressions is represented by an evaluator at the width and sign that elaboration hands down, not by
  the nodes it builds.
- Instantiation.Design.GenerateScope: what expressions evaluate to is a parameter of the design; a condition that cannot be evaluated is one that is not met, without its error message.
- Instantiation.Design.ElaborateModule: parameters, defparams, signals, events and attributes create no scopes and are left out; nested modules are looked up by name like others.
- GenerateLoop.NetScope.GenerateScopeLoop: the contents of the loop's scopes are elaborated in Instantiation, which is given the values, and not here; and a later test that is no constant, which the source asserts cannot happen, counts as a failure.
- Enumeration.ElaborateEnumeration: values given as strings, and the text of error messages, are left out.
- Selects.RvalueSelect: the base is a defined constant; selects with a variable or undefined base are left out, here and for l-values.
* Symbol search, diagnostics, debug output, memory management and line information throughout.
