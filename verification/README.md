# Symbolic expressions, degree reduction and prover bookkeeping

This project models, in Dafny, the parts of the Linea prover with the most branching and state.

* `prover/symbolic`: expression trees that carry a hash (the value of the expression at a random point), the simplifying
  constructors, the board that shares nodes by hash, the compiler with its slot allocator, the base-field and the
  extension-field virtual machines, chunked evaluation, replay, and the reduction of the degree of a list of expressions
  by eliminating common sub-expressions.
* `prover/zkevm`: the four goroutines that assign the modules, their gate and their overflow reports, and the loop that
  rescales the bootstrapper after an overflow.
* `prover/config`: the limits of the traces, found by longest prefix.
* `prover/public-input`: the compression chain and the checksum of the execution data, native and in the circuit.

Field arithmetic is a commutative ring given as a record of operations (`Ring`), and the base field inside the extension
is a `Tower`; every result holds for all of them. `Nary(Sum, coefficients)` is a linear combination and
`Nary(Prod, exponents)` a product, so both simplifiers are one function. An assignment of values to variables is a map
that reads as zero outside its keys.

The modules follow the pipeline: `Algebra`, `Expressions`, `Simplification`, `NormalForm`, `Simplifier` (construction);
`Boards`, `VariableOrder`, `Allocation`, `Compiler` (boards and code); `Vectors`, `SmartVectors`, `Machine`,
`BaseMachine`, `MixedKernels`, `ExtMachine`, `Chunks`, `Evaluation`, `Pipeline` (evaluation); `Replaying`, `Factoring`,
`Substitution`, `Sizes`, `SubMultisets`, `SubProducts`, `FoundFactors`, `Offers`, `OfferMeaning`, `Candidates`,
`EliminatedVars`, `DegreeReduction` (degree reduction); `BoardDegrees`, `DegreeCache`, `Polynomials`,
`PolynomialDegrees`, `DegreeGrowth` (degrees and what they mean); `Assignment`, `AssignmentOrder`, `AssignmentEnds`,
`PowersOfTwo`, `TraceLimits`, `Rescaling`, `CompressionChain`, `Checksum`. `DualNumbers`, `CubeReduction` and
`EndlessReduction` hold concrete instances. Loops and objects that the
program updates in place are methods and classes, each proved against a function of its inputs or of its old state; the
theorems are about those functions.

Hashes are compared in place of expressions throughout the program. Results that depend on this say which expressions
are compared and assume only that equal hashes among these finitely many belong to expressions that agree in the respect
that matters: in value at the assignment (`Faithful`), in being constants (`Separated`), in size (`Sized`), in variables
(`SameVars`) or in degree (`SameDegree`). At the hash point itself `Faithful` is proved, not assumed.

## Model

| member | source | states |
|---|---|---|
| Expressions.HashIsEval | prover/symbolic/expression.go:28-52 | a correctly hashed expression has as hash its value at the assignment that gives every variable its own hash |
| Expressions.FaithfulAtHashPoint | prover/symbolic/expression.go:28-52 | for correctly hashed expressions, equal hashes mean equal values at the hash point, with no further assumption |
| Expressions.ValidateExact | prover/symbolic/expression.go:150-179 | for expressions whose leaves are hashed and whose combinations are not empty, Validate accepts exactly the well-formed, correctly hashed ones |
| Expressions.EmptyCombinationPasses | prover/symbolic/lincomb.go:102-112 | an empty linear combination or product passes Validate with any hash |
| Simplification.SimplifyValue | prover/symbolic/simplification.go:11-138 | zero detection, flattening, merging by hash, constant folding and dropping of zero terms preserve the value of the combination at every faithful assignment |
| Simplification.NewNaryValue | prover/symbolic/product.go:50-67 | the constructor's expression has the value of the combination it was asked for |
| Simplification.NewPolyEvalValue | prover/symbolic/polyeval.go:21-52 | the constructor's expression is the polynomial with these coefficients at the point |
| NormalForm.SimplifyNormal | prover/symbolic/simplification.go:142-265 | simplified terms are flat, have non-zero weights and pairwise distinct hashes, and at most one constant, last, which is not the unit |
| NormalForm.SimplifyTerms | prover/symbolic/simplification.go:11-138 | every simplified term is a sub-expression of an argument or a plain constant, with a non-zero weight |
| NormalForm.SimplifyFirst | prover/symbolic/simplification.go:32-86 | of the flattened arguments with one hash the simplified terms keep the first that is no constant and has a weight, and stand in the order of the arguments, before the constant |
| NormalForm.NewNaryNormal | prover/symbolic/lincomb.go:40-58 | constructors keep all levels of an expression in normal form, where combinations are flat, merged and not of a single term with weight one, and polynomial evaluations have at least two coefficients |
| NormalForm.NewNaryHash | prover/symbolic/lincomb.go:62-80 | constructors keep hashes correct at all levels, and the new hash is the combination of the argument hashes although simplification merged and dropped terms |
| NormalForm.NewPolyEvalHash | prover/symbolic/polyeval.go:21-52 | the same for polynomial evaluation |
| NormalForm.NewNaryWellFormed | prover/symbolic/product.go:71-86 | constructors of well-formed arguments are well-formed |
| Simplifier.Collector.BuildIndex | prover/symbolic/simplification.go:53-60 | after sixteen entries the linear scan is replaced by a map that finds the same positions |
| Simplifier.Collector.AddTerm | prover/symbolic/simplification.go:32-86 | scan and map alike merge a term with the first entry of its hash or append it, as the specification does |
| Simplifier.CollectItems | prover/symbolic/simplification.go:210-245 | the loop over arguments and nested arguments computes the specified grouping unless it meets a zero factor, and panics exactly on a negative exponent before any zero factor |
| Simplifier.SimplifyItems | prover/symbolic/simplification.go:142-265 | panics exactly on lists of different lengths or a negative exponent before any zero factor, and otherwise returns the terms of the specification |
| Simplifier.RemoveZeros | prover/symbolic/simplification.go:125-135 | compacting in place keeps exactly the terms of non-zero weight, in order |
| Simplifier.HashOfTerms | prover/symbolic/product.go:71-86 | the hash loop computes the combination of the hashes |
| Simplifier.HashOfPolyEval | prover/symbolic/polyeval.go:21-52 | the hash loop computes Horner evaluation of the hashes |
| Boards.AnchorGood | prover/symbolic/expression.go:116-146 | anchoring only appends, every node represents an expression of its hash with its children at smaller positions, and each hash has one node |
| Boards.AnchorUses | prover/symbolic/expression.go:116-146 | every node that anchoring adds, except the one it returns, is a child of a later node |
| Boards.BoardShape | prover/symbolic/expression.go:82-86 | the board of an expression is topologically sorted, has distinct hashes and ends in the root |
| Boards.NodeMeaning | prover/symbolic/expression_board.go:82-97 | at every row each node evaluates to the value of every expression with its hash: sharing by hash does not change meaning |
| VariableOrder.VariableCollector.Collect | prover/symbolic/expression.go:91-113 | the recursive closure collects variables in order of first visit |
| VariableOrder.ListBoardVariables | prover/symbolic/expression.go:91-113 | the variables in order of first visit, none twice |
| VariableOrder.ListsAgree | prover/symbolic/evaluation.go:17-25 | the tree walk and the board list the same variables in the same order, so inputs are matched to the right nodes |
| VariableOrder.BoardListsOnce | prover/symbolic/evaluation.go:17-25 | the board lists no variable twice |
| Allocation.AllocInvariant | prover/symbolic/compiler.go:180-246 | after each node the slots held by live values and the free slots partition the slots handed out |
| Allocation.AllocSafe | prover/symbolic/compiler.go:180-246 | two values that are live together never share a slot |
| Allocation.OperandsDiffer | prover/symbolic/compiler.go:200-246 | no instruction writes a slot it still has to read |
| Allocation.AllocIsPeak | prover/symbolic/compiler.go:180-197 | the number of slots is the largest number of values live at once |
| Allocation.PeakIsNeeded | prover/symbolic/compiler.go:163-177 | no allocation that keeps live values apart uses fewer slots than that |
| Allocation.AllocOptimal | prover/symbolic/compiler.go:154-248 | on the board of any expression the compiler's number of slots is minimal among all safe allocations |
| Compiler.Liveness | prover/symbolic/compiler.go:163-177 | the pass over the nodes finds the last reader of every node, and keeps the root to the end |
| Compiler.FreeChildren | prover/symbolic/compiler.go:231-240 | exactly the slots last read here are freed, each once although operands may repeat |
| Compiler.Generate | prover/symbolic/compiler.go:180-248 | code, constants and slots are those of the specification |
| Compiler.CodeAt | prover/symbolic/compiler.go:200-228 | the words of node k stand at its start in the program |
| Compiler.ProgramEnds | prover/symbolic/compiler.go:200-228 | the start after the last node is the end of the program |
| Compiler.ExpressionBoard.Anchor | prover/symbolic/expression.go:116-146 | the anchoring method extends the board as specified |
| Compiler.ExpressionBoard.Compile | prover/symbolic/compiler.go:154-248 | the fields of the board hold the specified program, whatever was compiled before |
| Compiler.ExpressionBoard.BytecodeStats | prover/symbolic/expression_board.go:34-62 | decoding the program counts the nodes of each kind |
| Compiler.CountExactly | prover/symbolic/expression_board.go:34-62 | each count is the number of positions of the board whose node is of that kind |
| Vectors.VPowerSumIsHorner | prover/symbolic/compiler.go:783-827 | the sum of coefficients times powers equals Horner evaluation on vectors |
| BaseMachine.VmBase.Combine | prover/symbolic/compiler.go:300-376 | with the special cases for the first operand and for small weights, the slot receives the weighted combination of its operands and nothing else changes |
| BaseMachine.VmBase.PolyEval | prover/symbolic/compiler.go:377-401 | the slot receives the Horner evaluation of its operands and nothing else changes |
| BaseMachine.VmBase.Step | prover/symbolic/compiler.go:267-403 | decoding one instruction computes its node from the slots of its operands |
| BaseMachine.VmBase.Execute | prover/symbolic/compiler.go:267-403 | with slots reused, the result slot ends with the rows of the root over the chunk |
| ExtMachine.VmExt.FastPath | prover/symbolic/compiler.go:530-548 | the two-operand base kernels give the general combination, or leave the machine as it was |
| ExtMachine.VmExt.Combine | prover/symbolic/compiler.go:526-770 | across base and extension operands in any order, the slot and its tag hold the combination |
| ExtMachine.VmExt.Accumulate | prover/symbolic/compiler.go:549-770 | the accumulator moves from base to extension at the first extension operand without changing its value |
| ExtMachine.VmExt.Horner | prover/symbolic/compiler.go:829-889 | mixed Horner evaluation, with the tag of the result |
| ExtMachine.VmExt.PowerSum | prover/symbolic/compiler.go:783-827 | the batched path for base coefficients computes the sum of coefficients times powers |
| ExtMachine.VmExt.PolyEval | prover/symbolic/compiler.go:771-889 | whichever path is taken the slot holds the Horner evaluation and the right tag |
| ExtMachine.VmExt.Step | prover/symbolic/compiler.go:448-893 | one instruction keeps every live slot and its tag right |
| ExtMachine.VmExt.Execute | prover/symbolic/compiler.go:448-893 | the result slot ends with the rows of the root and its tag is the one fixed by the code and the input kinds, whatever the data |
| Chunks.RoundDown | prover/symbolic/compiler.go:66-80 | clearing low bits leaves the largest power of two not above the number |
| Chunks.MaxChunkPow2 | prover/symbolic/compiler.go:66-80 | the cap on the chunk size is a power of two between 16 and the maximum |
| Chunks.CapExactly | prover/symbolic/compiler.go:60-80 | the slots of a chunk at the cap fit into the intended memory if and only if at least sixteen rows do, and then the cap is within a factor of two of what fits or the maximum; with fewer rows the cap is the maximum |
| Chunks.ChunkSize | prover/symbolic/compiler.go:81-87 | the chunk size divides the total and no admissible power of two cuts it into larger chunks |
| Chunks.Locate | prover/symbolic/compiler.go:86-102 | every row lies in exactly one chunk |
| Evaluation.EvaluateBase | prover/symbolic/compiler.go:88-107 | the chunks together hold the rows of the root over the base field |
| Evaluation.Probe | prover/symbolic/compiler.go:108-114 | the tag found on the first chunk is that of every chunk |
| Evaluation.EvaluateExt | prover/symbolic/compiler.go:136-150 | the chunks together hold the rows of the root over the extension |
| Evaluation.EvaluateExtToBase | prover/symbolic/compiler.go:115-134 | when the tag says base, the base rows lift to the rows over the extension: nothing is lost |
| Evaluation.CommutesExactly | prover/symbolic/compiler.go:88-107 | on base inputs, evaluating in the base field and lifting equals evaluating in the extension at every node and row if and only if all constants are base |
| Evaluation.RowLifts | prover/symbolic/compiler.go:267-403 | with base constants, each base row lifts to the extension row |
| Evaluation.ConstantLost | prover/symbolic/compiler.go:282-288 | a constant outside the base field is not the lift of what the base machine loads |
| Evaluation.BaseResult | prover/symbolic/compiler.go:88-107 | with base inputs only, the result is in the base field whatever the constants |
| Evaluation.ConstantResult | prover/symbolic/compiler.go:30-41 | with constant inputs all rows are equal, so one row may stand for all |
| DualNumbers.ConstantIsLost | prover/symbolic/compiler.go:282-288 | integers inside dual numbers: on the board of the constructed sum of the constant e and a base column, at 0 the value is e in the extension and not on the base path |
| Pipeline.Evaluate | prover/symbolic/compiler.go:43-151 | given at least as many inputs as variables, panics exactly on no input, empty inputs or differing lengths; otherwise the rows are those of the nodes, in a constant vector exactly when all inputs are constant and a base vector exactly when all are base |
| Pipeline.EvaluateExpression | prover/symbolic/compiler.go:43-151 | board, compile and evaluate any expression: in spite of sharing by hash, slot reuse, chunks and two memories, every row is the value of the tree at the assignment of that row |
| Pipeline.InputsAssign | prover/symbolic/evaluation.go:17-25 | for every expression and inputs of one length there are assignments that describe the rows, so the premise above can be met |
| BoardDegrees.BoardDegree | prover/symbolic/evaluation.go:30-53 | the pass over the nodes computes the degree of the root node |
| BoardDegrees.BoardDegreeIsDegree | prover/symbolic/evaluation.go:30-53 | the degree of the board is the degree of the tree, whose meaning as a polynomial degree is stated below |
| PolynomialDegrees.MaxDegree | prover/symbolic/lincomb.go:84-86 | the degree of a linear combination, and of a polynomial evaluation, is the degree of one of its children and no child exceeds it |
| PolynomialDegrees.CoeffsValue | prover/symbolic/expression.go:28-52 | with a polynomial in one variable for each column, the value of an expression at a point is that of the polynomial obtained by adding, multiplying and composing coefficient lists |
| PolynomialDegrees.DegreeMeaning | prover/symbolic/product.go:90-97 | if every column is a polynomial of at most its degree and the points of polynomial evaluations have degree zero, the expression is a polynomial of at most its degree |
| PolynomialDegrees.PolyEvalExactly | prover/symbolic/polyeval.go:57-59 | for a polynomial evaluation over children whose own points have degree zero, the computed degree covers the degree of the composed polynomial if and only if for every i the degree of coefficient i plus i times that of the point is at most the maximum over the children |
| DegreeGrowth.DegreeReached | prover/symbolic/lincomb.go:84-86 | with every column a power of its degree and no subtraction, the value at x is at least x to the degree: the degree is attained |
| DegreeGrowth.DegreeExactly | prover/symbolic/polyeval.go:57-59 | for expressions without subtraction, with every column the power of its degree: some polynomial of at most the computed degree has the values of the expression if and only if the degree counted with composition at polynomial evaluations is at most the computed one |
| DegreeGrowth.DegreeTooSmall | prover/symbolic/polyeval.go:57-59 | the polynomial evaluation of x with coefficients 0, 0, 1 has degree 1 and differs from every polynomial of degree 1 at some x |
| DegreeCache.ExpressionNodes.KeepDegree | prover/symbolic/expression.go:362-385 | on any graph of expressions, answers what the cache as found implies, and remembers only such answers below the expression |
| DegreeCache.ExpressionNodes.Uncache | prover/symbolic/expression.go:388-393 | forgets the expression and all below it, and nothing else |
| DegreeCache.ExpressionNodes.Degree | prover/symbolic/expression.go:354-358 | answers from the cache as found and leaves nothing cached below |
| DegreeCache.ExpressionNodes.FindOverDegree | prover/symbolic/degree_reduction.go:151-160 | selects exactly the expressions whose answer exceeds the bound, in order, and leaves answers in the cache |
| DegreeCache.GrownSeen | prover/symbolic/expression.go:362-385 | remembering answers changes no later answer |
| DegreeCache.RightExactly | prover/symbolic/expression.go:354-385 | the degrees of an expression and all below it are right if and only if no cached degree below disagrees with the getter |
| DegreeCache.StaleExactly | prover/symbolic/expression.go:354-385 | after one getter has filled the cache, another getter is answered with the first one's degree, which is right if and only if the two agree on the expression |
| DegreeCache.StaleVariable | prover/symbolic/expression.go:362-373 | a variable cached with degree 1 answers 1 to a getter that says 2 |
| DegreeCache.ClearedRight | prover/symbolic/expression.go:388-393 | once cleared, the degree is right whatever was cached before |
| DegreeCache.GrownAgrees | prover/symbolic/degree_reduction.go:151-160 | under one getter no cached degree ever becomes stale, and every answer is the degree |
| Replaying.RebuildValue | prover/symbolic/degree_reduction.go:484-500 | rebuilding a node over new children of equal values keeps its value |
| Replaying.ReplayHash | prover/symbolic/expression.go:190-245 | replay keeps hashes correct at all levels |
| Replaying.ReplayValue | prover/symbolic/expression.go:190-245 | the replayed expression is the original evaluated with the translated variables |
| Replaying.ReplayHashValue | prover/symbolic/expression.go:190-245 | the hash of the replay is the original at the hashes of the translations |
| Replaying.ReplayNormal | prover/symbolic/expression.go:190-245 | replay keeps normal form |
| Factoring.FactorOutSubProduct | prover/symbolic/degree_reduction.go:335-375 | the map loops compute the specified remaining factors or fail |
| Factoring.FactorOutFold | prover/symbolic/degree_reduction.go:335-375 | the product is the target times the remaining factors |
| Factoring.FactorOutFound | prover/symbolic/degree_reduction.go:335-375 | among distinct hashes it succeeds exactly when each factor of the target occurs with a sufficient exponent |
| FoundFactors.SubtractExactly | prover/symbolic/degree_reduction.go:353-362 | for any lists, taking out the target succeeds exactly when the map holds, hash by hash, all that the target asks for |
| FoundFactors.TermsFound | prover/symbolic/degree_reduction.go:347-362 | a sub-product of a normal product is found in it if and only if the choice does not take more than one in all from the last factor and a factor of the same hash |
| FoundFactors.SubProductFound | prover/symbolic/degree_reduction.go:504-523 | the same for the substitution of a candidate in the product it came from |
| FoundFactors.AllFoundExactly | prover/symbolic/degree_reduction.go:335-375 | every sub-product of a product is found in it if and only if no constant factor is the hash of another factor |
| FoundFactors.ClearExactly | prover/symbolic/degree_reduction.go:335-375 | the same for all products below an expression |
| FoundFactors.MissedUnchanged | prover/symbolic/degree_reduction.go:434-462 | where the target is not found the substitution changes nothing |
| Substitution.SubstituteBuilt | prover/symbolic/degree_reduction.go:434-462 | substitution yields well-formed, normal, correctly hashed expressions |
| Substitution.FactorOutValue | prover/symbolic/degree_reduction.go:504-523 | taking a sub-product out of a product divides its value out |
| Substitution.SubstituteValue | prover/symbolic/degree_reduction.go:434-547 | replacing an expression or a sub-product by one of equal value keeps the value |
| Sizes.NewNarySize | prover/symbolic/lincomb.go:40-58 | constructors never make an expression larger than its terms |
| Sizes.SubstituteSize | prover/symbolic/degree_reduction.go:434-547 | substituting a variable for a larger expression never makes an expression larger |
| Sizes.OccursShrinks | prover/symbolic/degree_reduction.go:434-547 | and makes it strictly smaller wherever the expression occurs, also as a factor |
| SubMultisets.SubMultisetIterator.Next | prover/symbolic/degree_reduction.go:588-630 | moves to the nearest admissible vector above, or stops when there is none |
| SubMultisets.SubMultisetIterator.CurrentTotalWeight | prover/symbolic/degree_reduction.go:653-659 | the weight of the current vector |
| SubMultisets.Enumerate | prover/symbolic/degree_reduction.go:552-659 | the iterator yields every non-empty, non-full exponent vector within the weight window on the eligible positions, exactly once, in increasing order; SubMultisets.EligibleExactly says which positions these are |
| SubMultisets.EligibleExactly | prover/symbolic/degree_reduction.go:597-612 | without a limit on the number of factors all heavy positions are eligible; with one the last of them are, as many as the limit or as there are, and light positions use up nothing |
| SubProducts.SimplifyIdentity | prover/symbolic/simplification.go:142-265 | simplifying a product in normal form changes nothing |
| SubProducts.SubProductForm | prover/symbolic/degree_reduction.go:315-331 | a sub-product is the node with the chosen factors and exponents, or the zero constant when the product is zero |
| SubProducts.SubProductDegree | prover/symbolic/product.go:90-97 | the degree of a sub-product is the weight of its exponent vector, or zero for the zero constant |
| FoundFactors.SubProductOccurs | prover/symbolic/degree_reduction.go:315-331 | substitution finds a sub-product in the product it came from when no product has two factors of one hash |
| Offers.OfferMembers | prover/symbolic/degree_reduction.go:212-311 | the offers of an expression, in the order of the descent, are exactly its candidates |
| Offers.OfferCount | prover/symbolic/degree_reduction.go:212-311 | the offers that hash to h are as many as a count by recursion over the expression finds: one for the node itself, one for each admissible exponent vector of a product, and those of its children, with multiplicity |
| OfferMeaning.OfferedExactly | prover/symbolic/degree_reduction.go:212-311 | a normal expression offers exactly the compound sub-expressions of degree between one and the bound and, of each product below it, the products of some but not all of its heavy factors whose degree is within the window, where the sub-expression reaches the minimal degree: cutting the descent at the minimal degree loses nothing |
| Candidates.CandidateMap.Add | prover/symbolic/degree_reduction.go:259-265 | counts the hash or adds a new entry with count one |
| Candidates.Tally | prover/symbolic/degree_reduction.go:259-265 | after any offers each hash has one entry, the first expression offered with it, and the number of offers with it |
| Candidates.HasOnlyASingleOne | prover/symbolic/degree_reduction.go:663-673 | true exactly when the vector keeps one factor with exponent one |
| Candidates.CollectSubProducts | prover/symbolic/degree_reduction.go:269-311 | offers the sub-products of exactly the admissible exponent vectors, each once, in increasing order of the vectors |
| Candidates.CollectFromExpr | prover/symbolic/degree_reduction.go:212-246 | offers the expression itself if suitable, then what its children offer in turn, then its sub-products, each as often as it is found |
| Candidates.FindOverDegree | prover/symbolic/degree_reduction.go:151-160 | all expressions above the bound and no others, in order |
| Candidates.CollectCandidates | prover/symbolic/degree_reduction.go:175-209 | tallies the offers of the expressions above the bound in order, visiting one more exactly as long as the number of candidates is below the cap per round |
| Candidates.SelectMostFrequent | prover/symbolic/degree_reduction.go:409-418 | no candidate is more frequent, or as frequent with more children |
| Candidates.BestIsMostFrequent | prover/symbolic/degree_reduction.go:409-418 | among tallied offers the selected expression is the first of its hash and no first expression of another hash was offered more often, or as often with more children |
| Candidates.VisitedCount | prover/symbolic/degree_reduction.go:175-209 | the number of offers of a hash in a round is the sum of its counts in the expressions visited |
| Candidates.SelectedCount | prover/symbolic/degree_reduction.go:95-108 | the target of a round is a candidate of a visited expression, and by the recursive counts over the visited expressions no candidate occurs more often, or as often with more children |
| EliminatedVars.SubstituteVars | prover/symbolic/degree_reduction.go:434-547 | substitution adds no variable but the replacement's |
| EliminatedVars.EvalVars | prover/symbolic/expression.go:28-52 | the value depends only on the variables that occur |
| EliminatedVars.CheckIsExact | prover/symbolic/degree_reduction.go:138-148 | the check on the board's variables finds an eliminated variable exactly when one occurs in the tree |
| DegreeReduction.OfferedProperties | prover/symbolic/degree_reduction.go:212-311 | a candidate is a proper expression within the degree bound over the variables of its source |
| DegreeReduction.OfferedOccurs | prover/symbolic/degree_reduction.go:212-311 | a candidate occurs where it was found when no product there has two factors of one hash |
| DegreeReduction.CandidateFound | prover/symbolic/degree_reduction.go:95-112 | on expressions whose products have no constant factor equal to the hash of another factor, every round finds its target |
| DegreeReduction.FindTarget | prover/symbolic/degree_reduction.go:95-108 | yields a target that is selected in this sense, or none when there is nothing to select |
| DegreeReduction.NothingOffered | prover/symbolic/degree_reduction.go:95-108 | if the visited expressions offer nothing then no expression above the bound has a candidate, or the cap per round is not positive and the first of them has none |
| DegreeReduction.RoundsNeeded | prover/symbolic/degree_reduction.go:89-108 | every round of a run has its target from an expression whose degree exceeds the bound, so none takes place once all are within it |
| DegreeReduction.MissedRound | prover/symbolic/degree_reduction.go:111-112 | a round that does not find its target leaves all expressions as they are |
| DegreeReduction.EndlessRun | prover/symbolic/degree_reduction.go:82-125 | if some candidate of the input is missed everywhere there are runs of every length |
| DegreeReduction.AgreeingRunEnds | prover/symbolic/degree_reduction.go:82-125 | a run whose compared expressions agree in size and in being constants has at most as many rounds as the size of the input |
| DegreeReduction.ChainTargets | prover/symbolic/degree_reduction.go:66-134 | in every run the k-th eliminated expression is within the bound and mentions only input variables and earlier new variables, so the new variables can be computed in order |
| DegreeReduction.EliminatedValue | prover/symbolic/degree_reduction.go:66-134 | with the new variables computed in order, each has the value of its expression also at the end of the run |
| DegreeReduction.ReductionMeaning | prover/symbolic/degree_reduction.go:66-134 | after any number of rounds, every reduced expression has the value of the original, for every assignment extended by the eliminated expressions |
| DegreeReduction.RunBounded | prover/symbolic/degree_reduction.go:82-125 | where the compared expressions agree every round lowers the total size |
| DegreeReduction.SubstituteExpr | prover/symbolic/degree_reduction.go:434-462 | the recursive method computes the specified substitution |
| DegreeReduction.ReduceDegree | prover/symbolic/degree_reduction.go:66-134 | for all built inputs and any number of rounds: panics exactly when the bound is at most one or an expression lists an eliminated variable; otherwise yields the output of a run, each of whose rounds eliminates a most frequent candidate, that has met a stopping condition, or is unfinished, which a cap excludes from the cap on and agreement of the compared expressions from the size of the input on |
| DegreeReduction.CheckedSound | prover/symbolic/degree_reduction.go:138-148 | expressions that pass the check contain no eliminated variable |
| DegreeReduction.ReducedMeaning | prover/symbolic/degree_reduction.go:66-134 | the returned expressions keep the values of the inputs and each returned eliminated expression uses only earlier new variables |
| DegreeReduction.WithinBoundAgrees | prover/symbolic/degree_reduction.go:89-93 | inputs within the bound have no rounds |
| CubeReduction.RunsExactly | prover/symbolic/degree_reduction.go:66-134 | on the cube of a variable with bound 2 there is one run with a round, which replaces the square |
| CubeReduction.CubeAgrees | prover/symbolic/degree_reduction.go:66-134 | every run on that input, which is above the bound, compares agreeing expressions, so the premise of termination holds |
| EndlessReduction.ScaledNotClear | prover/symbolic/degree_reduction.go:347-351 | the cube of x times a constant equal to the hash of x is a properly built expression that violates the condition |
| EndlessReduction.CandidateMissed | prover/symbolic/degree_reduction.go:353-362 | every candidate of that product is missed in it |
| EndlessReduction.NoRunEnds | prover/symbolic/degree_reduction.go:82-125 | every uncapped run on it, whatever it picks, is back at its input after every round and may not stop |
| EndlessReduction.RunsOfEveryLength | prover/symbolic/degree_reduction.go:82-125 | and there are such runs of every length |
| Assignment.RunInv | prover/zkevm/zkevm.go:279-348 | the invariant of threads, gate, report and log holds in every reachable state of every interleaving |
| Assignment.NormalReturn | prover/zkevm/zkevm.go:279-348 | after a normal return every module of the prover has finished, nothing was raised and Keccak started after Ecdsa finished |
| Assignment.PlaceExactly | prover/zkevm/zkevm.go:304-345 | every module is called at exactly one place of one goroutine |
| AssignmentOrder.ModuleOrder | prover/zkevm/zkevm.go:304-345 | in every interleaving each module starts and finishes at most once, finishes after it started, and starts after the module before it in its goroutine finished, such as PublicInput after StateManager |
| AssignmentOrder.ReturnedOnce | prover/zkevm/zkevm.go:304-348 | before a normal return each module has started and finished exactly once |
| AssignmentEnds.Completes | prover/zkevm/zkevm.go:304-348 | as long as no module has panicked every run can be completed to a normal return |
| AssignmentEnds.CrashCause | prover/zkevm/zkevm.go:289-302 | a run crashes only by a panic that is no overflow, handled while no overflow has been recorded |
| AssignmentEnds.RecordedEnds | prover/zkevm/zkevm.go:289-348 | once an overflow is recorded, a run that can make no more steps has ended by raising that report again |
| Assignment.NeverLost | prover/zkevm/zkevm.go:289-302 | a run in which an overflow was raised never returns normally, and what it re-raises was raised and recorded |
| Assignment.EarlyGate | prover/zkevm/zkevm.go:288-302 | the gate opens before Ecdsa has finished only after a report was recorded, and such a run neither returns nor crashes |
| Assignment.EarlyGateEnds | prover/zkevm/zkevm.go:288-348 | when such a run can make no more steps it has re-raised a report that was raised and recorded |
| Assignment.GateOnce | prover/zkevm/zkevm.go:284-288 | the channel is closed at most once, and it is closed or being closed once the first goroutine is done |
| Assignment.Progress | prover/zkevm/zkevm.go:304-348 | while the step has not ended some goroutine can move: no interleaving deadlocks |
| Assignment.StuckMeansEnded | prover/zkevm/zkevm.go:304-348 | a state with no step left has an outcome |
| Assignment.RunsEnd | prover/zkevm/zkevm.go:279-348 | every run has at most 56 states |
| PowersOfTwo.NextPowerOfTwo | prover/utils/utils.go:85-99 | the least power of two not below a positive input, zero for zero, and a panic exactly outside the supported range |
| PowersOfTwo.DivCeilIsCeiling | prover/utils/utils.go:37-43 | the quotient rounded up, also for a negative dividend |
| PowersOfTwo.DivCeilExactly | prover/utils/utils.go:37-43 | the result is the quotient rounded up if and only if the divisor is positive or the division is exact |
| TraceLimits.TracesLimits.NormalizeToLowercase | prover/config/traces_limit.go:98-102 | lower-cases every name and changes nothing else |
| TraceLimits.LowerExactly | prover/config/traces_limit.go:98-102 | lower-casing identifies exactly the strings that are equal up to case, leaves no upper-case letter and changes no string without one |
| TraceLimits.CaseIgnored | prover/config/traces_limit.go:149-158 | names equal up to case find the same entry |
| TraceLimits.TracesLimits.SortReverseAlphabetical | prover/config/traces_limit.go:107-119 | panics exactly on duplicate names; otherwise a descending permutation |
| TraceLimits.LessExactly | prover/config/traces_limit.go:107-119 | the order is alphabetical: a string is less exactly if it is a proper prefix or smaller at the first difference |
| TraceLimits.FirstIsLongest | prover/config/traces_limit.go:149-158 | in a descending list the first name that is a prefix of the query is the longest one |
| TraceLimits.TracesLimits.FindModuleLimits | prover/config/traces_limit.go:149-158 | on sorted limits returns the entry with the longest prefix of the lower-cased query, or none exactly when there is no prefix |
| TraceLimits.TracesLimits.GetLimit | prover/config/traces_limit.go:170-186 | on sorted limits the limit of the entry with the longest prefix: its large limit exactly in large mode and else its plain one, times the factor exactly if it is scalable and the factor is above one |
| TraceLimits.ScaleUpLimits | prover/config/traces_limit.go:161-167 | scaling up multiplies every scalable limit and no other, also from the unset factor zero |
| TraceLimits.TracesLimits.ScaleUp | prover/config/traces_limit.go:161-167 | the new factor, and its effect on every limit |
| Rescaling.Handle | prover/zkevm/limitless.go:1052-1063 | the new factor is a power of two, at least twice the old one and below four times the request |
| Rescaling.RunWithRescaling | prover/zkevm/limitless.go:1030-1097 | starting at factor 1 and multiplying by the extra factor of each overflow in turn, the loop ends at the first attempt that does not overflow, after at most logarithmically many retries; that attempt succeeds, or crashes for another reason |
| Rescaling.LimitScales | prover/zkevm/limitless.go:535-546 | at factor f a scalable limit is f times its base and any other limit is unchanged |
| Rescaling.NextLimitCovers | prover/zkevm/limitless.go:1052-1063 | after one retry the module that overflowed fits |
| Rescaling.ConvergesExactly | prover/zkevm/limitless.go:1030-1097 | some attempt succeeds if and only if every module that does not scale fits its limit from the start |
| Rescaling.FixedNeverSucceeds | prover/zkevm/limitless.go:1030-1097 | a single module that does not scale, with limit 1 and demand 2, overflows at every attempt |
| CompressionChain.CompressionChain.Write | prover/public-input/execution.go:205-226 | buffering and compressing consume the buffered bytes followed by the data |
| CompressionChain.FeedIsChain | prover/public-input/execution.go:199-226 | feeding a stream is the chain of its full blocks, with the rest buffered |
| CompressionChain.SplitIndependent | prover/public-input/execution.go:205-226 | the state depends only on the concatenation of the writes, not on how they were split |
| Checksum.PackLoose | prover/utils/gnarkutil/loose_packing.go:9-36 | the writes amount to the data in 31-byte pieces, each behind a zero byte, the last one padded with zeros |
| Checksum.PiecesCover | prover/utils/gnarkutil/loose_packing.go:9-36 | the pieces are the fewest that hold the data |
| Checksum.ElementsExactly | prover/utils/gnarkutil/loose_packing.go:9-36 | every byte of the data stands at its place behind a leading zero, and zeros fill the rest, so packing loses nothing |
| Checksum.LengthBlockNumber | prover/public-input/execution.go:238-242 | the length block is the number of the length, for lengths of at most eight bytes |
| Checksum.HashNumber | prover/public-input/execution.go:238-242 | compressing with the length block is the field compression with the length |
| Checksum.NewExecDataChecksum | prover/public-input/execution.go:231-247 | for non-empty data the chain of the packed pieces, and its compression with the length; as numbers, the field compression of the partial hash and the length; for empty data both are zero; the documented equation between them holds if and only if the data is not empty or the compressor fixes zero |
| Checksum.ChecksumSnark | prover/public-input/execution.go:252-297 | the circuit yields the chain over as many blocks as the length needs, and is unsatisfiable outside the supported lengths |
| Checksum.CircuitRefinesNative | prover/public-input/execution.go:252-297 | on zero-padded data of any length the circuit's chain is the number of the native chain of the unpadded data |
| Checksum.CompareChecksums | prover/public-input/execution.go:231-297 | computed side by side, the circuit's checksum is the native partial hash |

## Findings

Where the code does not do what its documentation or a caller would expect, the model follows the code.

- Board.Evaluate takes the base path when all inputs are base vectors and does not look at the constants. A constant outside the base field is then truncated (`Evaluation.ConstantLost`, `DualNumbers.ConstantIsLost`); `Evaluation.CommutesExactly` gives the exact condition.
- factorOutSubProduct keeps one exponent per hash, and a later factor overwrites an earlier one. In a product with a constant factor equal to the hash of another factor it therefore misses sub-products that collectSubProducts offers, the round changes nothing, and without a cap on eliminations ReduceDegreeOfExpressions does not end (`EndlessReduction.NoRunEnds`). `FoundFactors.TermsFound` and `FoundFactors.AllFoundExactly` give the exact condition, `DegreeReduction.CandidateFound` what it means for a round, and `DegreeReduction.AgreeingRunEnds` when whole runs end.
- findOverDegreeIndices leaves degrees cached on the caller's expressions. A later Degree call with another getter first answers with the old degree (`DegreeCache.StaleExactly`, `DegreeCache.StaleVariable`); `DegreeCache.RightExactly` gives the exact condition and `DegreeCache.ClearedRight` shows that the second call is right.
- Validate accepts an empty linear combination or product with any hash (`Expressions.EmptyCombinationPasses`); without empty combinations it is exact (`Expressions.ValidateExact`).
- ExecDataChecksum documents Hash as the compression of PartialHash and Length. For empty data no block precedes the length, so Hash is the length block itself, which is zero (`Checksum.NewExecDataChecksum`, with the exact condition).
- The rescaling loop multiplies only scalable limits. If a module that does not scale exceeds its limit it overflows again at every factor (`Rescaling.ConvergesExactly`, `Rescaling.FixedNeverSucceeds`).
- PolyEval.Degree is the maximum over the point and the coefficients. For a point that is not of degree zero it can be below the degree of the polynomial (`DegreeGrowth.DegreeTooSmall`); `PolynomialDegrees.PolyEvalExactly` and `DegreeGrowth.DegreeExactly` give the exact condition.
- The cap on the chunk size is meant to bound the memory of a machine. For boards so large that fewer than sixteen rows fit, the cap is not lowered at all (`Chunks.CapExactly`, with the exact condition).
- DivCeil with a negative divisor rounds up only exact quotients (`PowersOfTwo.DivCeilExactly`).

## Left out

- Circuit evaluation of expressions (GnarkEval, GnarkEvalExt), serialization, the IsBase flags on expressions, nil expressions, and the constructors that take untyped arguments.
- ReconstructBottomUp and SameWithNewChildren, which map over a tree as Replay does.
- Rotated, windowed and pooled smart vectors: an input is a regular or constant vector over the base field or the extension.
- Vectorised field kernels, and the addressing of memory by offset: a slot holds a vector of rows.
- Parallel execution: chunks are evaluated one after the other, and the goroutines of the assignment step are interleaved by steps of a state machine in which a whole module call is one start and one end.
- Identity of pointers: two expressions are the same when they are equal trees, except in `DegreeCache`, where nodes of a graph have identities.
- A source column whose name is that of an eliminated variable.
- Machine-integer overflow of coefficients, exponents, degrees, trace limits and scaling factors; unbounded integers are used, and only the range of NextPowerOfTwo is modelled.
- Logging, timing and profiling; the modules that the assignment step calls; the zkEVM that a bootstrapper is built from.
- The order of candidates that tie in selectMostFrequentCandidate, whose sort is not stable: any one that no other precedes may be chosen.
- Errors of the Poseidon2 compressor, byte conversions and range checks in the circuit; the compressor is any function on blocks, and the circuit's compressor any function on numbers that agrees with it.
- The probability of hash collisions; the hypotheses above take its place.
- Checksum and the accessors of single limits in traces_limit.go, and GetTestTracesLimits.
- Simplification.SimplifyValue: assumes `Faithful` for the sub-expressions of the arguments, since terms are merged by hash. The same holds for Simplification.NewNaryValue and Replaying.ReplayValue.
- Simplification.NewPolyEvalValue: is stated for at least one coefficient, since the constructor panics on none; Simplification.NewNaryValue for exponents that are not negative, since it panics on others.
- Boards.NodeMeaning: assumes `Faithful` at every row, and that the point of a polynomial evaluation has the same value at all rows of a chunk, because the machines read it from the first row only.
- Pipeline.EvaluateExpression: states the value of the rows under the same two assumptions and, when all inputs are base vectors, for base constants only; see Findings.
- VariableOrder.ListsAgree: assumes that equal hashes below the expression belong to expressions with the same variables (`SameVars`), since the board drops a repeated hash.
- BoardDegrees.BoardDegreeIsDegree: assumes that equal hashes below the expression belong to expressions of equal degree (`SameDegree`).
- DegreeReduction.ReductionMeaning: assumes `Faithful` and `Separated` for the expressions that the run compares, at the extended assignment.
- DegreeReduction.ReduceDegree: takes a number of rounds after which it reports that it is unfinished, since the loop of the source need not end without a cap; see Findings.
- DegreeReduction.AgreeingRunEnds: is a sufficient condition for whole runs, not an exact one. It asks that expressions of equal hash compared in the run have equal sizes (`Sized`) and are constants together (`Separated`). `Sized` also excludes inputs without any collision, in which equal polynomials occur as trees of different shape, such as a(b+c) and ab+ac. DegreeReduction.RunBounded carries the same assumption.
- DegreeReduction.CheckedSound: assumes `SameVars`, since the check reads the board and not the tree.
- Expressions.ValidateExact: a panic inside Validate counts as a rejection.
- Evaluation.CommutesExactly: is exact for all nodes together; for the result alone base constants are sufficient, since a constant may be multiplied by zero.
- PolynomialDegrees.DegreeMeaning: asks for points of degree zero; see Findings. DegreeGrowth.DegreeExactly is exact without that, over the integers and for expressions without subtraction, in which no terms cancel.
- Candidates.SelectedCount: compares the number of children with the first candidate of each hash, as the source does, which is the one kept in the map; expressions of one hash may differ in it.
- Checksum.LengthBlockNumber: is stated for lengths below 2^64, which a length always is.
- Candidates.FindOverDegree: computes degrees afresh; DegreeCache.ExpressionNodes.FindOverDegree is the same step on cached degrees.
- DegreeReduction.SubstituteExpr: compares children as trees where the source compares pointers, so it keeps a node that the source rebuilds over equal children.
- TraceLimits.TracesLimits.NormalizeToLowercase: lower-cases ASCII letters only, and so do TraceLimits.TracesLimits.FindModuleLimits and TraceLimits.TracesLimits.GetLimit.
- CompressionChain.CompressionChain.Write: leaves out errors of the compressor, and so does Checksum.NewExecDataChecksum.
- Checksum.PackLoose: is fixed to 32-byte elements with one element per block, as the checksum uses it.
- Pipeline.Evaluate: requires at least as many inputs as variables; with fewer the source panics on an index out of range.
- Rescaling.Handle: is stated for a positive limit below the request and not below the current factor, which is what an overflow report of a scaled prover holds; Rescaling.RunWithRescaling assumes this of every report of the prover.
- Checksum.CompareChecksums: assumes a non-empty length and zero bytes after it, which the circuit is given by its callers.
