# Verified models of Xolver's checkers and indexes

Xolver is an SMT solver. Its answers pass through small, self-contained
algorithms: evaluators that check a candidate model, checkers that replay a
certificate, a prover that reconstructs congruence refutations, indexes that
follow a changing set of assertions, and walks over the shared expression DAG.
This project models those algorithms in Dafny, branch for branch, and proves
what each is relied on for.

The modules follow the program's own division.

* **Separation logic** (`SeparationLogic`, `SeparationStabilisation`,
  `Odometer`, `SeparationFormula`, `SeparationRepresentatives`,
  `SeparationChecker`). Truth is the textbook one: star over all splits of the
  heap, wand over all finite typed extensions. Width stabilisation shows which
  heaps a subformula cannot tell apart. From it follows that the finite search
  of `Checker` (partition flags for star, representative extensions for wand)
  decides truth. An evaluation may stop early; a stop carries no truth value, and
  the contract says what it takes.
* **Certificates.** `Rationals`, `SparsePolynomials`, `PolynomialIdentity`,
  `RationalLattice`, `ConeFacts` and `PolynomialConeCertificate` model the cone
  checker. Within its limits it accepts a certificate exactly when it is valid;
  that rests on the fact that a polynomial is determined by its values.
  `PresburgerCertificate` has the exact integer checkers over
  `IntegerArithmetic`, and `Farkas` the linear verifier with its search for
  equality signs.
* **Equality proofs** (`Congruence`, `UnionFind`, `EqualityGraph`,
  `ClosureHistory`, `CongruenceClosure`, `ClosureModel`, `EufProver`,
  `TransitivityConflict`, `EqualityConflict`). Arbitrary interpretations of the
  function symbols induce congruences; the closure computes the least one, the
  prover's output is valid in all of them, and every refutation that is built
  for a conflict closes. The order of the merges shows that the recursive
  search finds a proof of every entailed equality whose terms are at most half
  of all terms, in spite of its depth cap.
* **Stateful indexes** (`ActiveTermUses`, `IncrementalContext`,
  `ReadOnlyArrayTables`, `EliminatedReads`, `ReadOnlyArrayReads`,
  `ReadOnlyArrayModel`). Classes whose methods change the tables as the
  program does, each tied to a simple specification: reachability from the
  current roots, the level filter, first-match search, a table from index
  paths to values.
* **Walks over the DAG** (`NativeTerms`, `PostOrder`,
  `PartialBooleanEvaluation`, `KleeneExactness`, `ResolvedConjunction`,
  `RequiredFacts`, `FirstOccurrences`). Explicit stacks and memo tables against
  recursive meaning, on every shared DAG.
* **Model validation** (`ArithModelTables`, `ArithModelSemantics`,
  `ArithModelValidator`, `ArithModelSorts`, `ArithModelArrays`,
  `ArithModelExtensions`, `ArithModelSoundness`, `ArithModelVerdicts`,
  `ArithModelNested`, `ArithModelCoverage`). The tables of a model, with arrays
  behind handles, and the total interpretations that extend what the tables say.
  Evaluation stays within the sorts; its definite answers are compared with the
  meaning in every extension, and where the tables say enough it answers.
* **Concurrency and numeric loops** (`ThreadPool`, `FiniteObjectives`,
  `RealIsolation`, `RationalText`, `Decimals`). The pool is a state machine
  over the steps taken under its lock, for every interleaving and with
  spurious wakeups.

`Basics` and `Terms` hold the shared vocabulary: optional values, early stops,
the work budget, and the DAG itself.

Three places where the code does not do what a reader may expect are stated
with their exact condition:

* The validator compares arrays whose elements are arrays by the handles of
  those elements. A definite equality is always right. A definite difference is
  right exactly when the tables hold one
  (`ArithModelArrays.EqualArraysReal`), and a term is evaluated right, together
  with all its subterms, exactly when the differences found below it are real
  (`ArithModelVerdicts.RightExactly`). Arrays of scalars always meet the
  condition (`ArithModelVerdicts.FlatVerdictSound`). Two handles of equal inner
  arrays do not: `ArithModelNested.NestedVerdictWrong` is a model that is
  reported as satisfying an assertion false in all its extensions.
* In partial Boolean evaluation only a callback that contradicts the structure
  of the formula can flip a known result. Learning atoms never does
  (`PartialBooleanEvaluation.LearningAtomsNeverFlips`), nor does learning
  values that some valuation satisfies
  (`PartialBooleanEvaluation.ConsistentLearningNeverFlips`). An arbitrary
  callback may, and `PartialBooleanEvaluation.LearningNeverFlips` says which.
* As a function on its own, `proofEufCongruence` would not close a refutation
  of a pair that is itself a leaf written the other way round
  (`EufProver.ProofEufCongruence`). Its one caller never passes such a pair
  (`EqualityConflict.PairIsNoLeaf`), so that every congruence refutation that is
  built closes propositionally (`EqualityConflict.Build`), as the comment at
  `src/runtime/Solver.cpp:393-395` says.

## Model

| member | source | states |
|---|---|---|
| SeparationStabilisation.Stabilisation | src/contracts/SeparationFormula.cpp:80-119 | two heaps that agree on mentioned addresses up to record class, and on the number of unmentioned cells up to the subformula's width, satisfy the same subformula, for every connective including nested wand |
| SeparationStabilisation.MatchSplit | src/contracts/SeparationFormula.cpp:112-117 | any split of one heap is answered by a split of a similar one, the widths of the parts adding up |
| SeparationStabilisation.MatchExtension | src/evidence/SeparationChecker.cpp:58-64 | any typed extension of one heap is answered by a similar extension of any other heap |
| SeparationStabilisation.SimilarUnion | src/contracts/SeparationFormula.cpp:112-118 | similarity survives disjoint union |
| Odometer.Carry | src/evidence/SeparationChecker.cpp:51-54 | carrying past saturated digits reaches the immediate successor, so the counter skips no vector |
| SeparationFormula.Widths | src/contracts/SeparationFormula.cpp:71-120 | the width of every node is its defining recursion; it stops only for an ill-formed node, a refused charge, nesting over the limit, or a width over the machine's |
| SeparationFormula.Sweep | src/contracts/SeparationFormula.cpp:121-136 | the downward sweep marks exactly the nodes below the root and collects exactly their symbols |
| SeparationFormula.Prepare | src/contracts/SeparationFormula.cpp:68-138 | a prepared formula is well formed with true widths, reachability and symbols |
| SeparationFormula.Other | src/contracts/SeparationFormula.cpp:165-183 | the extra record has the signature and differs from every mentioned record unless the signature is empty; it is missed only for a refused charge or more records than addresses |
| SeparationFormula.RepresentsAll | src/contracts/SeparationFormula.cpp:170-185 | mentioned records stand for themselves and the extra record for all others |
| SeparationFormula.BuildVocabulary | src/contracts/SeparationFormula.cpp:149-186 | addresses are exactly the non-nil values of the symbols, and the records represent every typed record |
| SeparationFormula.CanonicalHeap | src/contracts/SeparationFormula.cpp:188-204 | on literals given as integers, a heap is accepted only if typed, refused as malformed only if not, and returned unchanged |
| SeparationFormula.FreshAddresses | src/contracts/SeparationFormula.cpp:206-219 | exactly the requested number of distinct positive addresses outside heap and vocabulary; an overflow stop only when too few are left |
| SeparationRepresentatives.EverySplit | src/evidence/SeparationChecker.cpp:39-56 | every split of a heap is given by some flag vector |
| SeparationRepresentatives.EveryExtension | src/evidence/SeparationChecker.cpp:57-94 | every finite typed extension is similar, up to the bound, to an enumerated one |
| SeparationRepresentatives.RepresentativeExtends | src/evidence/SeparationChecker.cpp:73-86 | every enumerated extension is a typed disjoint extension |
| SeparationChecker.NextPartition | src/evidence/SeparationChecker.cpp:51-54 | the next flag vector in the order, or none when all were visited |
| SeparationChecker.NextChoice | src/evidence/SeparationChecker.cpp:88-92 | the next choice vector in the order, or none when all were visited |
| SeparationChecker.Checker.StarByPartitions | src/evidence/SeparationChecker.cpp:38-56 | star is true exactly when some flag vector separates the heap |
| SeparationChecker.Checker.WandByRepresentatives | src/evidence/SeparationChecker.cpp:57-94 | wand is true exactly when every enumerated and padded extension respects it |
| SeparationChecker.Checker.Holds | src/evidence/SeparationChecker.cpp:20-97 | an answer for a subformula is its textbook truth on the heap; it stops only for a refused charge or when addresses may run out |
| SeparationChecker.Checker.HoldsStar | src/evidence/SeparationChecker.cpp:38-56 | an answer of the partition loop is the truth of the star |
| SeparationChecker.Checker.HoldsWand | src/evidence/SeparationChecker.cpp:57-94 | an answer of the representative loop is the truth of the wand over all finite extensions |
| SeparationChecker.Evaluate | src/evidence/SeparationChecker.cpp:101-112 | an evaluation that answers gives the textbook truth value; every interpreted, well-formed input is answered unless a charge is refused, it is nested deeper than the limit, or its widths, records or cells exceed the machine's addresses |
| SparsePolynomials.PartRemove | src/evidence/PolynomialConeCertificate.cpp:52-67 | the value of a sparse polynomial does not depend on the order in which its terms are summed |
| SparsePolynomials.BumpValue | src/evidence/PolynomialConeCertificate.cpp:66-66 | adding to one coefficient adds that term's value |
| SparsePolynomials.WithoutZerosValue | src/evidence/PolynomialConeCertificate.cpp:11-15 | dropping zero coefficients preserves the value |
| SparsePolynomials.MergeMonomials | src/evidence/PolynomialConeCertificate.cpp:54-65 | merging two sorted monomials denotes their product in every assignment |
| PolynomialConeCertificate.MultiplyPolynomials | src/evidence/PolynomialConeCertificate.cpp:47-70 | the sparse product evaluates to the product of the values in every assignment |
| RationalLattice.RationalLatticeStep | src/base/RationalLattice.h:12-31 | a step is returned exactly when all variables are integers and some coefficient is not zero; it is positive, every value under an integral assignment is a multiple of it, and it is the coarsest such lattice |
| RationalLattice.PositiveMultiple | src/evidence/PolynomialConeCertificate.cpp:96-109 | a positive multiple of the step is at least the step, which is the integer gap |
| PolynomialConeCertificate.ApplyGap | src/evidence/PolynomialConeCertificate.cpp:96-109 | a strict fact loses its strictness and a positive gap of which every integral value of its polynomial is a multiple; the result holds in every integral model of the cited premises |
| ConeFacts.PremiseFactExact | src/evidence/PolynomialConeCertificate.cpp:82-95 | the fact built for a premise holds in exactly the assignments in which the premise does, strictness included |
| ConeFacts.DerivesUnique | src/evidence/PolynomialConeCertificate.cpp:18-139 | a step derives at most one fact from the preceding ones, coefficients included |
| PolynomialIdentity.VanishingSum | src/evidence/PolynomialConeCertificate.cpp:11-15 | a combination of different canonical monomials that vanishes in every assignment has only zero coefficients |
| PolynomialIdentity.SamePolynomial | src/evidence/PolynomialConeCertificate.cpp:132-138 | polynomials in normal form with the same value in every assignment are the same map |
| PolynomialConeCertificate.ApplyPremise | src/evidence/PolynomialConeCertificate.cpp:82-95 | builds that fact, and is refused only for a missing source, a disequality or an improper polynomial |
| PolynomialConeCertificate.ApplyProduct | src/evidence/PolynomialConeCertificate.cpp:113-123 | the fact's polynomial is the product in every assignment, strict exactly when both factors are, and it holds in all models of the sources |
| PolynomialConeCertificate.DeriveStep | src/evidence/PolynomialConeCertificate.cpp:18-139 | an accepted step yields the fact that its rule derives, which holds in all models of its sources; a refused step derives none |
| PolynomialConeCertificate.ScaleSound | src/evidence/PolynomialConeCertificate.cpp:132-138 | positive scaling and trimming keep a fact |
| PolynomialConeCertificate.CheckCertificate | src/evidence/PolynomialConeCertificate.cpp:141-176 | only valid certificates are accepted: facts derived step by step, weights that are negative on equalities only, a weighted sum that vanishes, a strict fact that counts and a cited premise; all of them within the size limits are, unless a charge is refused; the returned premises have no common model in the declared domain |
| PolynomialConeCertificate.SummedRefutes | src/evidence/PolynomialConeCertificate.cpp:162-172 | the final test on coefficients passes exactly when the facts refute as functions of the variables |
| PresburgerCertificate.CoefficientGcd | src/evidence/PresburgerCertificate.cpp:10-17 | the greatest common divisor of the coefficients, which the form attains at an integer point |
| PresburgerCertificate.ReachesMultiples | src/evidence/PresburgerCertificate.cpp:51-57 | over the integers a form takes exactly the multiples of its gcd (Bezout in n variables) |
| PresburgerCertificate.CheckEqualityContradiction | src/evidence/PresburgerCertificate.cpp:51-57 | on canonical coefficients, true exactly when the equation has no integer solution |
| PresburgerCertificate.CheckGcdTightening | src/evidence/PresburgerCertificate.cpp:37-49 | accepted exactly when the conclusion is the premise divided by the positive gcd of its coefficients, with the bound rounded; both then have the same integer solutions |
| PresburgerCertificate.CheckLinearContradiction | src/evidence/PresburgerCertificate.cpp:20-35 | accepted exactly when the weighted sum has no variable left and a negative bound; the premises then have no common integer solution |
| Farkas.AddTerm | src/runtime/Solver.cpp:70-114 | accepted exactly for linear terms, adding scale times the term's value through nested differences, negations and folded products |
| Farkas.AtomForm | src/runtime/Solver.cpp:123-144 | the normalised atom holds in exactly the assignments in which the comparison does |
| Farkas.Contradicts | src/runtime/Solver.cpp:149-162 | true exactly when the combination is one constant on all assignments, and a contradictory one |
| Farkas.FarkasSound | src/runtime/Solver.cpp:146-162 | a contradictory combination with directed multipliers leaves no assignment that satisfies all atoms |
| Farkas.SearchSigns | src/runtime/Solver.cpp:1279-1295 | signs are found exactly when some choice of equality signs refutes |
| Farkas.Certify | src/runtime/Solver.cpp:1235-1303 | checked multipliers prove that the asserted atoms have no common real solution; they keep the given magnitudes and are missed only when no sign choice works or there are more than twelve equalities |
| Congruence.KernelIsCongruence | src/runtime/Solver.cpp:579-597 | equality under any interpretation of the symbols is a congruence |
| UnionFind.Forest.Union | src/runtime/Solver.cpp:450-451 | merging joins exactly the two classes |
| UnionFind.Hang | src/runtime/Solver.cpp:451-451 | hanging one root below another keeps the forest acyclic |
| EqualityGraph.Bfs | src/runtime/Solver.cpp:478-495 | a shortest path, or nothing exactly when the terms are not connected |
| CongruenceClosure.ComponentsAreClasses | src/runtime/Solver.cpp:435-475 | union-find classes are the connected components of the graph |
| CongruenceClosure.AugmentCongruenceEdges | src/runtime/Solver.cpp:435-475 | terminates, and at exit the classes are the components of the graph and the least congruence over the collected terms that contains the leaves |
| EufProver.PremisesHold | src/runtime/Solver.cpp:497-572 | replaying the recorded premises in order, each conclusion holds wherever the assumptions do |
| EufProver.CongruentClauseValid | src/runtime/Solver.cpp:524-547 | an emitted congruence clause holds in every congruence |
| EufProver.TransitiveClauseValid | src/runtime/Solver.cpp:550-569 | an emitted chain clause holds in every congruence |
| EufProver.Prover.Prove | src/runtime/Solver.cpp:499-572 | a produced literal speaks of the pair and is the conclusion of a recorded premise whose negated literals are leaves or earlier conclusions |
| EufProver.Prover.ProveByCongruence | src/runtime/Solver.cpp:523-548 | the congruence case keeps every recorded premise justified, and succeeds for a pair merged early enough, or with arguments that are equal or leaves |
| EufProver.Prover.ProveByTransitivity | src/runtime/Solver.cpp:549-570 | the chain case keeps every recorded premise justified, and succeeds for a pair in one class early enough that no single edge joins |
| EufProver.ClosedIffProduced | src/runtime/Solver.cpp:589-595 | the recorded premises with the negated goal are propositionally unsatisfiable if and only if the goal literal itself was produced |
| EufProver.ProofEufCongruence | src/runtime/Solver.cpp:579-597 | success gives a justified refutation and entailment by the leaves, and it comes for every entailed pair over at most half of all terms; it closes propositionally if and only if the pair is trivial, no leaf, or a leaf as written |
| ClosureHistory.PathWasThere | src/runtime/Solver.cpp:478-495 | a simple path between terms that were in one class at some merge uses only edges that were there by then |
| ClosureModel.EntailedIsMerged | src/runtime/Solver.cpp:435-475 | collected terms that every congruence with the leaves relates have been merged |
| EufProver.NoCommonModel | src/runtime/Solver.cpp:575-597 | no interpretation satisfies the leaves and the disequality |
| EqualityConflict.PairIsNoLeaf | src/runtime/Solver.cpp:1305-1358 | when the transitivity check refuses a conflict with one disequality, the pair is no leaf in either orientation, or its sides are one term |
| EqualityConflict.Build | src/runtime/Solver.cpp:1304-1360 | transitivity alone is used exactly for usable literals whose equalities connect the one disequality; every congruence refutation built is justified and closes; a difference of a term from itself, or one refuted over at most half of all terms, always gets a proof |
| EqualityConflict.BuiltHasNoModel | src/runtime/Solver.cpp:1304-1360 | whichever proof is built, no interpretation of the function symbols satisfies the literals |
| TransitivityConflict.TransitivityOk | src/runtime/Solver.cpp:171-210 | accepted exactly when all literals are usable and the one disequality separates two different terms connected by the asserted equalities |
| TransitivityConflict.ConflictHasNoModel | src/runtime/Solver.cpp:164-210 | no values of the terms satisfy the literals of an accepted conflict |
| ActiveTermUses.ActiveIffRooted | src/ir/ActiveTermUses.cpp:16-52 | with exact accounts, a count is positive exactly for terms below a current root |
| ActiveTermUses.RetainStep | src/ir/ActiveTermUses.cpp:18-36 | one pop of the retain stack keeps counts, pending increments and owed holds in balance |
| ActiveTermUses.ReleaseStep | src/ir/ActiveTermUses.cpp:41-51 | one pop of the release stack keeps the balance, and the popped count is positive |
| ActiveTermUses.ClosureExact | src/ir/ActiveTermUses.cpp:70-88 | a finished upward search holds exactly the active ancestors and the slots that reach them |
| ActiveTermUses.Uses.CountsExact | src/ir/ActiveTermUses.cpp:16-68 | each count is the root slots at the term plus its active uses with multiplicity |
| ActiveTermUses.Uses.Retain | src/ir/ActiveTermUses.cpp:16-37 | terminates and adds one hold of the root |
| ActiveTermUses.Uses.Release | src/ir/ActiveTermUses.cpp:39-52 | terminates and removes one hold of the root |
| ActiveTermUses.Uses.SetRoot | src/ir/ActiveTermUses.cpp:54-68 | replaces one slot, keeping counts, parents, slots and variables exact |
| ActiveTermUses.Uses.VariableClosure | src/ir/ActiveTermUses.cpp:70-88 | exactly the active ancestors of the name's variables and the sorted distinct slots above them |
| IncrementalContext.UnchangedRevisionKeepsPrefix | src/base/IncrementalContext.h:59-65 | over any run, an unchanged usable revision means the earlier entries are a prefix of the later ones |
| IncrementalContext.Context.Append | src/base/IncrementalContext.h:90-95 | appends one entry and keeps the order flag truthful |
| IncrementalContext.Context.Replace | src/base/IncrementalContext.h:96-105 | replaces one entry in range, advances the revision so that no earlier one is usable, and keeps the order flag truthful |
| IncrementalContext.Context.Truncate | src/base/IncrementalContext.h:110-114 | keeps a prefix, and the revision exactly when nothing is removed |
| IncrementalContext.Context.Restore | src/base/IncrementalContext.h:119-123 | installs the snapshot under a revision not usable with any earlier one |
| IncrementalContext.Context.FirstWithdrawn | src/base/IncrementalContext.h:131-136 | the first entry above the target, by binary search when ordered |
| IncrementalContext.Context.Backtrack | src/base/IncrementalContext.h:130-152 | leaves exactly the stable filter of the levels up to the target; reports nothing, a suffix undone in reverse order, or a filtering, exactly as the withdrawn entries lie |
| IncrementalContext.FirstMatchExact | src/base/IncrementalContext.h:158-161 | first match is the least position with the key, or none |
| IncrementalContext.IndexedContext.Find | src/base/IncrementalContext.h:206-211 | equals first-match linear search, with duplicate keys |
| IncrementalContext.IndexedContext.Append | src/base/IncrementalContext.h:213-222 | keeps a built index equal to first-match search |
| IncrementalContext.IndexedContext.Replace | src/base/IncrementalContext.h:224-235 | keeps a built index equal to first-match search, or drops it |
| IncrementalContext.IndexedContext.Truncate | src/base/IncrementalContext.h:237-241 | withdraws exactly the index entries of the removed suffix |
| IncrementalContext.IndexedContext.Backtrack | src/base/IncrementalContext.h:252-259 | leaves the level filter, with the kind, the first changed position, the count and the undone entries determined by it, and an index that still answers first-match search |
| ReadOnlyArrayTables.HandleInjective | src/runtime/ReadOnlyArrayModel.cpp:64-70 | different counters spell different handles |
| ReadOnlyArrayModel.Reconstruction.SaveArray | src/runtime/ReadOnlyArrayModel.cpp:64-70 | terminates with a handle that no array had, and changes no other |
| ReadOnlyArrayModel.Reconstruction.EmptyArray | src/runtime/ReadOnlyArrayModel.cpp:72-82 | an array of the sort with no entry and a default of the element sort, inner defaults included |
| ReadOnlyArrayModel.Reconstruction.Insert | src/runtime/ReadOnlyArrayModel.cpp:89-107 | accepted exactly for a path of the right length that holds no other value; only that path's value changes |
| ReadOnlyArrayTables.FollowExact | src/runtime/ReadOnlyArrayModel.cpp:84-107 | following any full path through the handles gives the scalar stored there, or the default of the sort |
| ReadOnlyArrayTables.GrowNode | src/runtime/ReadOnlyArrayModel.cpp:101-106 | opening an inner array under a fresh handle keeps all locations unshared and all earlier arrays untouched |
| ReadOnlyArrayTables.GrowLeaf | src/runtime/ReadOnlyArrayModel.cpp:94-98 | storing a scalar keeps every other location's contents |
| EliminatedReads.EvaluateFollows | src/runtime/ReadOnlyArrayModel.cpp:111-127 | evaluating a chain of selects in the tables is following its path of index tokens from the variable's array |
| EliminatedReads.SamePlaceExact | src/runtime/ReadOnlyArrayModel.cpp:111-127 | two chains of selects are at one place exactly when their variables and paths of tokens are the same |
| ReadOnlyArrayReads.AcceptableIsServable | src/runtime/ReadOnlyArrayModel.cpp:109-134 | every read has a location and no two clash if and only if every base is a variable, every token is known, and no two reads of one place have different values |
| ReadOnlyArrayModel.Reconstruction.Rebuild | src/runtime/ReadOnlyArrayModel.cpp:109-134 | accepted exactly for such reads; then the operand of every read, evaluated in the rebuilt tables, holds the value of the read's variable at the read's index, every other path of a rebuilt array holds the default, and arrays that were there before are unchanged |
| PostOrder.Expand | src/ir/PartialBooleanEvaluation.cpp:41-48 | pushing the open children keeps every processed frame above its children and uses up work |
| PartialBooleanEvaluation.KleeneSound | src/ir/PartialBooleanEvaluation.cpp:10-120 | a known result holds under every completion of the unknown atoms |
| PartialBooleanEvaluation.CombineMonotone | src/ir/PartialBooleanEvaluation.cpp:54-115 | a known combination survives when more children become known |
| PartialBooleanEvaluation.LearningAtomsNeverFlips | src/ir/PartialBooleanEvaluation.cpp:36-40 | learning values for atoms flips no known result |
| PartialBooleanEvaluation.ConsistentLearningNeverFlips | src/ir/PartialBooleanEvaluation.cpp:36-40 | learning values, composites included, that some valuation of the formula satisfies flips no known result |
| PartialBooleanEvaluation.LearningNeverFlips | src/ir/PartialBooleanEvaluation.cpp:36-40 | for an arbitrary callback: no result is flipped if and only if every learned composite value agrees with what is known for it |
| PartialBooleanEvaluation.LearningCanFlip | src/ir/PartialBooleanEvaluation.cpp:36-40 | an input on which learning flips a result |
| PartialBooleanEvaluation.ComputeImplication | src/ir/PartialBooleanEvaluation.cpp:73-83 | the scan of an implication is its three-valued definition |
| PartialBooleanEvaluation.ComputeChain | src/ir/PartialBooleanEvaluation.cpp:99-115 | the pairwise scan of an equality or disequality chain is its three-valued definition |
| KleeneExactness.CombineExact | src/ir/PartialBooleanEvaluation.cpp:54-115 | a connective with the right number of operands is known to be a value if and only if every completion of the unknown operands gives it |
| KleeneExactness.LongDistinctExact | src/ir/PartialBooleanEvaluation.cpp:99-115 | three or more truth values are never distinct; that is known exactly when two known operands are equal |
| KleeneExactness.KleeneExact | src/ir/PartialBooleanEvaluation.cpp:36-115 | a term's value is the callback's if it has one, and otherwise is known exactly when what is known of its operands determines it |
| KleeneExactness.ReadOnceExact | src/ir/PartialBooleanEvaluation.cpp:10-120 | on terms that use each opaque term once, a value is known if and only if every completion of the callback gives it |
| PartialBooleanEvaluation.Evaluator.Evaluate | src/ir/PartialBooleanEvaluation.cpp:10-120 | the memoised stack evaluation equals the recursive three-valued definition on any shared DAG |
| FirstOccurrences.GatherExact | src/ir/RequiredFacts.h:16-19 | gathering first occurrences loses, adds and repeats nothing |
| ResolvedConjunction.Conjuncts | src/ir/ResolvedConjunction.h:17-57 | nothing exactly on a reachable cycle; otherwise the leaves of the unfolded roots, each once, in input order |
| ResolvedConjunction.ExpansionEquivalent | src/ir/ResolvedConjunction.h:13-16 | the list is equivalent to the roots whenever each resolution step preserves truth |
| ResolvedConjunction.ExpansionExact | src/ir/ResolvedConjunction.h:37-55 | nothing exactly when a chain of substitutions and operands from a root meets a term twice; otherwise exactly the reached terms that are neither substituted nor conjunctions |
| ResolvedConjunction.UnfoldedAcyclic | src/ir/ResolvedConjunction.h:37-40 | what unfolds within some depth lies on no cycle |
| ResolvedConjunction.ReentryIsCycle | src/ir/ResolvedConjunction.h:37-38 | meeting an entered term again exhibits a cycle from a root |
| RequiredFacts.PartsEquivalent | src/ir/RequiredFacts.h:33-42 | a decomposed signed fact is equivalent to its signed parts |
| RequiredFacts.RequiredExact | src/ir/RequiredFacts.h:33-47 | exactly the signed facts that the roots need in some number of steps and that cannot be taken apart are reported |
| RequiredFacts.RequiredEquivalent | src/ir/RequiredFacts.h:16-19 | the extracted facts are together equivalent to the roots, and none is repeated |
| RequiredFacts.Extract | src/ir/RequiredFacts.h:20-48 | the worklist with polarity marks returns the first occurrences of the full unfolding, in order |
| NativeTerms.ResolveExact | src/ir/NativeTerms.cpp:14-26 | a let chain resolves to the node it stands for, and to nothing exactly when it stands for none |
| NativeTerms.NumberedWellFormed | src/ir/NativeTerms.cpp:170-191 | nothing numbered lies above a cycle or an unresolvable let |
| NativeTerms.Index.Add | src/ir/NativeTerms.cpp:170-191 | numbers everything below a node after its children, keeping earlier numbers; refused exactly for cyclic or unresolvable graphs |
| NativeTerms.Index.Children | src/ir/NativeTerms.cpp:306-307 | the children handles are the resolved children and are smaller than their parent's |
| ArithModelSorts.EvaluateSorted | src/evidence/ArithModelValidator.cpp:208-697 | with well-sorted terms and tables, every value is of its term's sort: integers stay integral, keys stay in their index domain, stored elements and handles in their sort |
| ArithModelArrays.TokensDifferExact | src/evidence/ArithModelValidator.cpp:529-538 | the difference of two tokens read off the tables, through any depth of handles, is the difference of what they denote |
| ArithModelArrays.EqualArraysReal | src/evidence/ArithModelValidator.cpp:150-169 | a definite equality is right; a definite difference is right if and only if the tables hold one, which arrays of scalars always do; Bool, Int and Real indices always get an answer |
| ArithModelNested.NestedVerdictWrong | src/evidence/ArithModelValidator.cpp:436-459 | two arrays of arrays with different handles for equal elements are reported distinct: the verdict is Satisfied, the tables have an extension, and the assertion is false in every one |
| ArithModelSoundness.ArithmeticSound | src/evidence/ArithModelValidator.cpp:292-401 | a definite arithmetic value is the meaning: quotient and remainder by magnitude are those of the Ints theory of SMT-LIB Version 2.6 for every nonzero divisor, and the tables' values at zero |
| ArithModelSoundness.ApplySound | src/evidence/ArithModelValidator.cpp:587-680 | a definite function application, with array arguments and results behind handles, is the table's value in every interpretation that extends it |
| ArithModelSoundness.JunctionSound | src/evidence/ArithModelValidator.cpp:460-479 | a definite conjunction or disjunction is right for all meanings of its unknown operands |
| ArithModelSoundness.JunctionExact | src/evidence/ArithModelValidator.cpp:460-479 | a deciding operand decides whatever else is unknown, and only an unknown operand without a deciding one leaves the value open |
| ArithModelSorts.LookupExact | src/evidence/ArithModelValidator.cpp:248-291 | a variable is looked up to what the tables say of it: its array, or its truth value, real, rational or token in that precedence, and to nothing exactly when they say nothing |
| ArithModelSorts.OverrideStored | src/evidence/ArithModelValidator.cpp:253-258 | the value read at an index is that of the last entry for the index, or the default |
| ArithModelVerdicts.StepExact | src/evidence/ArithModelValidator.cpp:208-697 | a node evaluated from right operands is right if and only if the array differences it reports are real |
| ArithModelVerdicts.RightExactly | src/evidence/ArithModelValidator.cpp:208-697 | in every extension of the tables, a term and all below it evaluate to their meanings if and only if the array differences found below it are real |
| ArithModelVerdicts.FlatReliable | src/evidence/ArithModelValidator.cpp:150-169 | when what is compared or passed to functions are scalars and arrays of scalars, every difference found is real |
| ArithModelVerdicts.VerdictSound | src/evidence/ArithModelValidator.cpp:39-112 | Satisfied: every assertion is true in every extension in which its comparisons are real; Violated: one is false in all of them |
| ArithModelVerdicts.FlatVerdictSound | src/evidence/ArithModelValidator.cpp:39-112 | without nested arrays in comparisons and arguments, Satisfied and Violated hold in every extension |
| ArithModelCoverage.EvaluateDefinite | src/evidence/ArithModelValidator.cpp:208-697 | a term whose symbols and zero divisors the tables cover, over arrays of scalars, always gets a value |
| ArithModelCoverage.VerdictExact | src/evidence/ArithModelValidator.cpp:39-112 | for covered assertions the verdict is never open: Satisfied exactly when all of them hold in an extension of the tables, Violated exactly when one is false, whichever the extension |
| ArithModelExtensions.ExtensionExists | src/evidence/ArithModelValidator.cpp:39-112 | coherent tables of the right sorts have an extension over any elements that contain theirs, so the verdicts are not vacuous |
| ArithModelValidator.Validator.EvalImpl | src/evidence/ArithModelValidator.cpp:208-210 | agrees with direct recursion, and evaluates nothing else when the children are cached |
| ArithModelValidator.Validator.WarmEval | src/evidence/ArithModelValidator.cpp:185-206 | fills the cache bottom-up with the values of direct recursion and never recurses |
| ArithModelValidator.Validator.Validate | src/evidence/ArithModelValidator.cpp:39-112 | the verdict is violated if some assertion is false, satisfied if all are true, and open otherwise, whatever the caches held |
| ThreadPool.Pool.Enqueue | src/parallel/ThreadPool.cpp:61-68 | refuses exactly when closed, and otherwise appends |
| ThreadPool.Pool.Take | src/parallel/ThreadPool.cpp:31-37 | takes the oldest task and counts it active, or reports an empty queue |
| ThreadPool.InvariantAlways | src/parallel/ThreadPool.cpp:25-84 | after every interleaving: tasks start in order of acceptance, once, and none is lost; workers exit only when closed and empty; no notification that matters is lost |
| ThreadPool.ExactlyOnePlace | src/parallel/ThreadPool.cpp:25-68 | each accepted task is in exactly one of queued, running and finished |
| ThreadPool.WaitIdlePasses | src/parallel/ThreadPool.cpp:78-84 | after any run, a thread that looks at its wait for idleness is let go if and only if every task accepted so far has finished, that is, none is queued or running |
| ThreadPool.SleepersAwaitWork | src/parallel/ThreadPool.cpp:41-45 | while a thread sleeps in that wait, some task is queued or running, so that its end will wake the thread |
| ThreadPool.ClosedForGood | src/parallel/ThreadPool.cpp:61-76 | along any run, from a moment at which the pool is closed, it stays closed and nothing more is accepted |
| ThreadPool.ClosingCloses | src/parallel/ThreadPool.cpp:70-76 | after the step that closes the pool, no continuation of the run accepts anything |
| ThreadPool.QueueIsNoticed | src/parallel/ThreadPool.cpp:61-68 | a nonempty queue with all workers asleep is owed at least as many notifications as it has tasks |
| ThreadPool.JoinedMeansDrained | src/parallel/ThreadPool.cpp:54-57 | once all workers have exited, every accepted task has finished |
| ThreadPool.ClosedPoolDrains | src/parallel/ThreadPool.cpp:54-76 | in a closed pool every step of a worker or an owed notification uses up a finite measure |
| ThreadPool.ClosedPoolProgresses | src/parallel/ThreadPool.cpp:54-76 | in a closed pool such a step is possible, without spurious wakeups, until every worker has exited |
| FiniteObjectives.RankIsValue | src/quantifiers/FiniteFormula.cpp:373-377 | preferring bits by sign and direction orders models as their two's complement or unsigned values do |
| FiniteObjectives.Optimise | src/quantifiers/FiniteFormula.cpp:370-383 | the bit loop keeps exactly the models with the best value, and all of them share it |
| FiniteObjectives.SurvivorsAreOptima | src/quantifiers/FiniteFormula.cpp:370-384 | the surviving models are exactly the lexicographic optima |
| FiniteObjectives.SurvivorsExist | src/quantifiers/FiniteFormula.cpp:370-384 | optimisation preserves satisfiability |
| FiniteObjectives.Analyze | src/quantifiers/FiniteFormula.cpp:370-384 | each reported value bounds all models optimal for the earlier objectives and is shared by all survivors |
| RealIsolation.HornerSplits | src/base/RealValue.cpp:258-263 | Horner's scheme is the sum of coefficients times powers |
| RealIsolation.IsolatedIsNonzero | src/base/RealValue.cpp:255-257 | an isolating interval never meets the guard against zero polynomials and empty intervals |
| RealIsolation.Serialise | src/base/RealValue.cpp:241-285 | terminates with the exact rational for degree one or a degenerate interval, with the interval itself when no end is a root, and otherwise with the exact rational or a subinterval whose closed ends are no roots and which contains exactly the isolated root |
| Decimals.NumberOfDecimal | src/base/RealValue.cpp:199-208 | reading a decimal spelling gives the number back |
| RationalText.ParsePrint | src/base/RealValue.cpp:61-93 | reading a printed rational gives the same rational, for every sign and denominator |
| RationalText.ParseSignedPlain | src/base/RealValue.cpp:84-92 | the plain forms n and n/d, with a sign, are read as the numbers they spell |
| RationalText.PrintInjective | src/base/RealValue.cpp:199-208 | distinct rationals are printed differently |

## Left out

- Wall-clock deadlines: any charge to a budget may also be refused, which the contracts tell apart from other stops.
- SeparationFormula.CanonicalHeap: rewriting integer-literal text to its canonical form is not stated, as literals are integers here.
- Integer-literal spellings of separation-logic fields: literals are integers, and the reader in src/base/IntegerLiteral.h is not part of this model.
- Formula builder methods of src/contracts/SeparationFormula.cpp: formulas are given as node sequences; ordering and arity are checked as `prepare` does.
- Enumerators outside the declared kinds and sorts: ruled out by the datatypes.
- Iteration order of the ordered containers: a set or map is listed in some duplicate-free order, and results that do not depend on it are proved for every order.
- EufProver.Prover.Prove: complete for pairs over at most half of all terms; beyond that the depth cap may give up on an entailed pair, and when it does is not stated.
- Lemma mode and the Boolean assembly of congruence proofs: they record the same clauses for another consumer.
- Printed terms in equality proofs: a literal is an oriented pair of handles rather than its text.
- ActiveTermUses.Uses.SetRoot: the DAG is fixed during a history; growth of the expression index is not modelled.
- Moving from a context and the exception paths of IncrementalContext: operations succeed; assignment from another context is modelled by copy.
- ReadOnlyArrayModel.Reconstruction.Rebuild: completion of unconstrained scalars before the loop and the final validation after it are separate steps; tokens of indices and values are given per read.
- Arrays indexed by arrays in the validator: an array index has no token, so that the code answers indeterminate there, and the soundness results are stated for terms without such sorts.
- Select and selector overrides, integer powers, datatypes and diagnostics of the validator.
- ArithModelVerdicts.RightExactly: functions applied to nested arrays are covered when different handles of the element sort stand for different arrays; a row set aside by mistake may still leave the right result, so the converse is stated for comparisons alone.
- Numeral text in validator tables: a cell carries its numeric and Boolean readings, and canonical tokens are structured values.
- Unknown sort kinds in partial Boolean evaluation: every node has a sort.
- ThreadPool.InvariantAlways: failure while threads are created, and refusal of `waitIdle` on a worker thread, are not steps of the machine.
- Decision diagrams and bit-vector circuits: a diagram is the set of assignments it accepts.
- Binder and cache handling and the operator cases of the finite-formula compiler.
- Algebraic arithmetic beyond exact comparison with a rational.
- RationalText.ParsePrint: parsing covers decimal integers without superfluous zeros; the octal and hexadecimal spellings that GMP also accepts are not read.
- Sort registration, payload decoding and term construction in NativeTerms.
- The dispatch pipeline, preprocessing passes, model text output, bindings and distributed executors.
