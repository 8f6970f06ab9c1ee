# Verified model of the memory-model checker and the trace-completion solver

This project models two parts of the repository in Dafny and proves what they promise.

The first part is the RVWMO execution-graph checker. `rvwmo.dfy` states the axioms of RVWMO 2.0 (chapter 17 of the
RISC-V Unprivileged ISA manual, "Preserved Program Order" and "Memory Model Axioms") on candidate executions: the
thirteen rules of preserved program order, the load value axiom, and the atomicity axiom for LR/SC pairs.
`rvwmo_checker.dfy` and `topological.dfy` follow the checker's loops: validation, derived relations, one global memory
order by Kahn's algorithm, a separate depth-first cycle search (`relation.dfy`), and offence lists that are read
against that single order. The main result is that this decides the existential definition, up to two conditions on
annotations: a graph that raises no error is accepted exactly when some global memory order satisfies every axiom,
operations annotated as AMOs are AMOs, and each SC stores to the location of its LR. The last condition is not part of
the standard (`mismatched_pair.dfy`). Each reported outcome is characterised on its own. `footprints.dfy` says which
bytes an operation touches. `builder.dfy` and `checker.dfy` lift the result from graphs to traces, where the candidate
rf and co relations are enumerated and counted, and `hints.dfy` says, by the names of the hints, what a front-end can
order. `renaming.dfy`, `trace_errors.dfy` and `renamed_traces.dfy` show that the outcome of a check, errors included,
does not depend on names. `bounded_search.dfy` concludes that the bounded program generator loses no forbidden program
when it skips programs that are not canonical.

The second part is the bounded solver. Role-based rules are compiled to ground constraints and state effects
(`rules.dfy`, `rule_compiler.dfy`), with their meaning in `rule_meaning.dfy` and `problem_theory.dfy`;
`solution_meaning.dfy` says what a solution of a built problem is in terms of its rules. A three-valued evaluator
(`evaluator.dfy`, with the laws of its operators in `outcomes.dfy`) prunes a depth-first search (`finite.dfy`), whose
answer, node count and errors are stated exactly. Persistent state has one meaning (`state.dfy`) and three
implementations: a simulation (`simulator.dfy`), a transition relation for an SMT solver (`state_encoding.dfy`,
`state_constraints.dfy`), and a replay of sparse steps (`completion.dfy`, `reports.dfy`). They are proved to agree.
`script.dfy` and `decision.dfy` conclude exactly when models of the SMT script are the solutions of the finite search
(always with state variables), and `smt_backend.dfy` what the loop around the SMT solver then answers. `sexpr.dfy` and
`literals.dfy` cover the text that is exchanged with the solver. `matcher.dfy` covers the backtracking search of trace
abstraction.

Where the source mutates state, so does the model: the cycle search, the finite search, the role matcher and the
S-expression reader are classes, and the loops of the checker, the builder, the simulation and the compilers are
methods. Everything else is functions and lemmas.

Five observations about the code came out of the proofs. Each is stated with its exact condition.

- The LR/SC test asks that coherence orders the source of the LR before the SC, so it rejects pairs whose SC stores to
  another location (`src/umcm/graph/rvwmo.py:530-532`). The atomicity axiom of the standard allows them.
  `MismatchedPair.MismatchedPairIsRejected` gives an execution that every axiom allows;
  `RvwmoCoherence.LrScByCoherenceIsAtomic` states the test as the axiom together with a shared location, and
  `RvwmoChecker.CheckGraph` and `Checker.CheckTraceMemoryModel` carry the condition.
- Candidate enumeration leaves AMOs out of the coherence orders (`src/umcm/graph/builder.py:320-322`), while every
  graph needs its AMOs ordered. `Checker.CheckedIsAmoFree` shows that no candidate of a trace with an AMO passes
  validation, so checking such a trace always raises an error (`Checker.CheckTraceMemoryModel`).
- Without state variables the SMT script contains no state-guarded rules, although the simulation still enforces them
  (`src/umcm/solver/z3ctypes.py:313`), so the solver may return models that the state check rejects.
  `Decision.StatelessGuardsAreDropped` gives a problem that one rule compiles to. `Script.ModelsDecode` states exactly
  when every model of the script is a solution, and `Script.ScriptAgrees` exactly when the script is satisfiable like
  the finite search. In the first case `SmtBackend.SolveSmt` answers with its first query.
- A replayed guard evaluates every comparison operator before it selects one, so values without an order raise an
  error even for `eq` (`src/umcm/solver/completion.py:194-201`). `NamedCell.EqualityRaisesInReport` gives a rule, the
  problem that is built from it, and a feasible run whose report raises. `Reports.BuiltReportAgrees` states exactly
  when a report raises, and `Reports.UniformReportsNeverRaise` a condition on sorts under which none does.
- A quoted name that is a parenthesis is read back as a parenthesis (`src/umcm/solver/z3ctypes.py:226-254`).
  `Sexpr.ParenthesisIsLost` gives a form, and `Sexpr.PrintReadsBack` states exactly which forms survive.

## Model

| member | source | states |
|---|---|---|
| Relations.TransitiveClosure | src/umcm/graph/relation.py:78-102 | the closure holds exactly the pairs joined by a walk, so it is irreflexive exactly for acyclic relations |
| Relations.Compose | src/umcm/graph/relation.py:66-76 | an edge is in the composition exactly when some middle node joins it through both relations |
| Relations.CycleSearch.Dfs | src/umcm/graph/relation.py:143-165 | from an unvisited node either a labelled cycle is returned, or the node is finished and stack, positions, colours and finish order stay consistent |
| Relations.CycleSearch.Follow | src/umcm/graph/relation.py:149-161 | an edge to a node on the stack closes a labelled cycle; any other successor ends finished with the stack restored |
| Relations.StackIsCycle | src/umcm/graph/relation.py:153-160 | the stack from the revisited node, closed by the last edge, is a cycle without repeated nodes whose every edge is labelled by the first relation that holds it |
| Relations.FindLabeledCycle | src/umcm/graph/relation.py:122-173 | no cycle is returned exactly when the union of the relations is acyclic, and a returned cycle is a closed walk of the union with first-relation labels |
| Topological.TopologicalTotalOrder | src/umcm/graph/rvwmo.py:336-357 | an order over all nodes is returned exactly when the union is acyclic; it extends every relation and always lists the least ready node |
| Topological.WitnessIsLeast | src/umcm/graph/rvwmo.py:349-356 | the returned order is lexicographically least among all linear extensions |
| Common.LeIsLexicographic | src/umcm/graph/rvwmo.py:349-356 | identifiers are ordered like words in a dictionary: a prefix first, otherwise by the first different character |
| RvwmoChecker.CanonicalPo | src/umcm/graph/rvwmo.py:119-133 | program order is returned exactly when no two operations of a hart share an index, and it is the order by hart and index |
| RvwmoChecker.ValidateScalarLocations | src/umcm/graph/rvwmo.py:136-144 | validation passes exactly when footprints exist and none overlap partially |
| RvwmoChecker.RfSources | src/umcm/graph/rvwmo.py:147-173 | succeeds exactly when rf is the graph of a source function with matching location and value, and returns that function |
| RvwmoChecker.ValidateCo | src/umcm/graph/rvwmo.py:176-207 | accepts exactly the relations that order the writes of each location totally and acyclically with the initial write first |
| RvwmoChecker.SameByteLoadsIsRuleTwo | src/umcm/graph/rvwmo.py:260-270 | the footprint test for same-byte loads equals the per-byte wording of rule 2 when locations are scalar |
| RvwmoChecker.ComputedIsRule | src/umcm/graph/rvwmo.py:255-327 | each of the thirteen computed conditions equals its rule in the standard |
| RvwmoChecker.DerivePpo | src/umcm/graph/rvwmo.py:237-333 | succeeds exactly when the input relations lie in program order, and returns the edges of the thirteen rules |
| RvwmoChecker.LoadValueOffences | src/umcm/graph/rvwmo.py:449-477 | lists exactly the reads whose source is not the latest visible write in the given order |
| RvwmoChecker.AmoOffences | src/umcm/graph/rvwmo.py:480-504 | lists exactly the operations annotated as AMOs that are none, and the AMOs that do not read their immediate coherence predecessor with their sources |
| RvwmoChecker.LrScOffences | src/umcm/graph/rvwmo.py:507-545 | raises exactly for ill-formed pairs, and otherwise lists exactly the unpaired or twice paired SCs and the pairs that are broken in coherence order |
| RvwmoChecker.ValidateGraph | src/umcm/graph/rvwmo.py:360-387 | succeeds exactly when the graph describes a candidate with valid operations, sources and coherence, and returns it |
| RvwmoChecker.OrderRelations | src/umcm/graph/rvwmo.py:388-422 | the four relations that are tested for cycles are, each under its name, ppo, rfe, co and fr of the candidate |
| RvwmoChecker.PickOrder | src/umcm/graph/rvwmo.py:422-436 | one global memory order is picked exactly when the order relations are acyclic, with the load-value offences against it |
| RvwmoChecker.CheckGraph | src/umcm/graph/rvwmo.py:548-591 | raises no error exactly for well-formed candidates with valid pairs; then each outcome is exact (a closed walk exactly for cyclic order relations, the stale reads, the AMO offences, the LR/SC offences), and the graph is accepted exactly when some global memory order satisfies every axiom, AMO annotations are right, and each SC stores to the location of its LR |
| RvwmoChecker.VerdictIsRight | src/umcm/graph/rvwmo.py:548-591 | no cycle and three empty offence lists against one picked order are equivalent to right annotations, shared LR/SC locations and the existence of an allowed order |
| RvwmoChecker.PickedOffences | src/umcm/graph/rvwmo.py:449-477 | the load-value offences against a picked order are the reads whose source is stale or in the future by program order, rf and co alone |
| Footprints.MaskedBytes | src/umcm/graph/rvwmo.py:49-57 | the bytes of a masked access are the addresses at the set bits of the mask, and a mask that is not positive is an error |
| Footprints.PlainAccesses | src/umcm/graph/rvwmo.py:59-75 | sized accesses overlap exactly when their intervals meet, and share a location exactly when these are equal |
| Hints.AnnotationsMean | src/umcm/graph/rvwmo.py:94-113 | which ordering annotations make an access an acquire, a release or sequentially consistent |
| Hints.PreservedByName | src/umcm/graph/rvwmo.py:237-333 | preserved program order is what locations, atomics and annotations preserve, and what the relations with the names fence, pair, addr, data, ctrl and pipeline preserve, and nothing else |
| Hints.GraphHintsOrder | src/umcm/graph/rvwmo.py:282-320 | in every order that explains a graph, its fence, pair and addr edges are in order, its data, ctrl and pipeline edges when they end in a write, and so are the edges that dependencies through an own store or an earlier access imply |
| RvwmoTheory.OneWitnessSuffices | src/umcm/graph/rvwmo.py:422-436 | two linear extensions of the order relations have the same load-value offences |
| RvwmoTheory.LoadValueIsWitnessFree | src/umcm/graph/rvwmo.py:449-477 | in a linear extension the load value axiom of a read depends only on program order, rf and co |
| RvwmoTheory.ExplainsExtends | src/umcm/graph/rvwmo.py:397-405 | every order that satisfies the memory-order axioms extends ppo, rfe, co and fr |
| RvwmoTheory.PickedOrderDecides | src/umcm/graph/rvwmo.py:397-436 | acyclic order relations and no offence against one picked order are equivalent to the standard's existential definition |
| RvwmoTheory.CycleRefutesStandard | src/umcm/graph/rvwmo.py:548-566 | a cycle in the order relations rules out every global memory order |
| RvwmoCoherence.ReadThenRead | src/umcm/graph/rvwmo.py:260-270 | two same-location reads in program order never see coherence go backwards, also with a store in between |
| RvwmoCoherence.PerLocationCoherence | src/umcm/graph/rvwmo.py:548-591 | accepted executions have acyclic po-loc, rf, co and fr together, although po-loc and internal rf are not tested |
| RvwmoCoherence.AmoAtomicity | src/umcm/graph/rvwmo.py:480-504 | the memory-order axioms imply that each AMO reads its immediate coherence predecessor |
| RvwmoCoherence.LrScByCoherenceIsAtomic | src/umcm/graph/rvwmo.py:507-545 | the coherence test for an LR/SC pair equals the atomicity axiom together with one location for the pair, in every order that respects coherence |
| MismatchedPair.MismatchedPairIsRejected | src/umcm/graph/rvwmo.py:530-532 | an LR of x paired with an SC of y satisfies every axiom and fails the coherence test |
| RvwmoCoherence.AcceptedIsAllowed | src/umcm/graph/rvwmo.py:548-591 | passing the checks against one order makes that order satisfy the standard, and the pairs share locations |
| RvwmoCoherence.AllowedIsAccepted | src/umcm/graph/rvwmo.py:548-591 | an execution that the standard allows and whose pairs share locations passes every check |
| Enumeration.PermutationsExact | src/umcm/graph/builder.py:324 | every permutation is produced exactly once |
| Enumeration.ProductExact | src/umcm/graph/builder.py:492-506 | the product holds every choice exactly once, as many as the product of the lengths |
| Builder.SourceChoices | src/umcm/graph/builder.py:272-307 | succeeds exactly for consistent hints and a nonempty set of legal sources, and lists that set without repetition |
| Builder.OrderChoices | src/umcm/graph/builder.py:314-357 | lists exactly the orders of the writes other than AMOs of an address that put the initial write first and respect the hints, and fails only when there is none |
| Builder.BuildCandidateSpace | src/umcm/graph/builder.py:265-373 | succeeds exactly when hints are consistent and legal sources and orders exist, and then holds exactly those |
| Checker.EstimateCandidates | src/umcm/graph/builder.py:25-32 | the estimate is the product of the numbers of choices, in whatever order they are multiplied |
| Checker.EstimateIsExact | src/umcm/graph/builder.py:25-32 | the estimate is the number of legal pairs of an rf function and per-address orders |
| Checker.IterSelections | src/umcm/graph/builder.py:478-550 | each legal pair of an rf function and per-address orders is produced exactly once, as many as estimated, and an error arises exactly for a bad limit, inconsistent hints, no legal pair, or an estimate above the limit |
| Checker.SelectedGraphDescribes | src/umcm/graph/builder.py:507-548 | the graph built from a selection describes that selection and nothing else |
| Checker.AcceptedSelection | src/umcm/graph/checker.py:147-157 | an accepted candidate yields sources and one global memory order that satisfy the model without mentioning co |
| Checker.AllowedHasSelection | src/umcm/graph/builder.py:310-357 | every allowed execution of the trace is among the enumerated candidates |
| Checker.CheckedIsAmoFree | src/umcm/graph/builder.py:320-322 | no candidate of a trace with an AMO passes validation |
| Checker.VerdictOnTrace | src/umcm/graph/checker.py:159-184 | some candidate is accepted exactly when the annotations are right and the trace has an allowed execution |
| Checker.CheckTraceMemoryModel | src/umcm/graph/checker.py:159-184 | the cases that raise an error are stated exactly, every trace with an AMO among them; without an error the verdict is ALLOWED exactly when the annotations are right and some sources and some global memory order satisfy every axiom and hint |
| Hints.TraceHintsOrder | src/umcm/graph/builder.py:240-262 | the same of the named hints of a trace in each of its executions; pair hints join an LR to an SC |
| Hints.OtherHintsAreIgnored | src/umcm/graph/builder.py:240-262 | traces that agree on the six named hints have the same executions |
| Renaming.ExecutionsAreNameFree | src/umcm/search/engine.py:464-467 | exchanging names of harts, locations and operations keeps the existence of an allowed execution |
| TraceErrors.OrdersValidate | src/umcm/graph/rvwmo.py:176-207 | enumerated orders of symbolic addresses always form a valid coherence relation |
| TraceErrors.SymbolicTraceRaises | src/umcm/graph/checker.py:159-184 | checking a symbolic trace without hints raises exactly for a bad limit, missing sources or orders, too many candidates, AMOs, repeated indexes or irregular memory |
| RenamedTraces.VerdictIsNameFree | src/umcm/search/engine.py:464-467 | exchanging names of harts, locations and operations keeps the verdict and the errors of the check |
| BoundedSearch.MaterializeBoundedOperations | src/umcm/search/engine.py:641-663 | operations are numbered per kind and program indexes per hart in the order of the choices |
| BoundedSearch.ProgramHolds | src/umcm/search/engine.py:641-663 | each choice becomes one plain load or store of its hart, address and value, named by its kind and its number among that kind, and indexed by the number of earlier operations of its hart |
| BoundedSearch.ProgramRaises | src/umcm/search/engine.py:528-538 | checking a program raises exactly for a bad limit, a load without a source, or too many candidates |
| BoundedSearch.ExamineProgram | src/umcm/search/engine.py:518-543 | a round reports the program exactly when it has a load and a store, starts with the first hart and address, and checking it answers FORBIDDEN |
| BoundedSearch.OneKindIsNeverForbidden | src/umcm/search/engine.py:632-634 | checking a program without loads or without stores never answers FORBIDDEN |
| BoundedSearch.CanonicalProgramsSuffice | src/umcm/search/engine.py:628-638 | every program whose check answers FORBIDDEN has a canonical renaming within the same bounds whose check answers FORBIDDEN too |
| Evaluator.EvaluationIsMonotone | src/umcm/solver/evaluator.py:92-222 | a value known under a partial assignment is unchanged by every extension whose evaluation finishes |
| Outcomes.ConjunctionOutcome | src/umcm/solver/evaluator.py:201-207 | when no operand raises, a conjunction is false exactly when some operand is false, whatever is still unknown, and true exactly when all are true |
| Outcomes.DisjunctionOutcome | src/umcm/solver/evaluator.py:201-214 | when no operand raises, a disjunction is true exactly when some operand is true, whatever is still unknown, and false exactly when all are false |
| Outcomes.BinaryConnectives | src/umcm/solver/evaluator.py:146-157 | the binary connectives are the connectives of two operands |
| Outcomes.ImplicationOutcome | src/umcm/solver/evaluator.py:158-163 | when neither side raises, an implication is true exactly when its left side is false or its right side true, also beside an unknown, and false exactly from true to false |
| Outcomes.DistinctOutcome | src/umcm/solver/evaluator.py:215-221 | two equal known operands refute distinctness, which holds exactly when all are known and none repeats |
| Outcomes.ConditionalOutcome | src/umcm/solver/evaluator.py:119-129 | a known condition selects one branch and the other is not read; under an unknown condition the value is known exactly when both branches agree |
| Outcomes.IntegerDivision | src/umcm/solver/evaluator.py:190-198 | division rounds down, the remainder takes the sign of the divisor, and exactly a zero divisor raises |
| Outcomes.StringComparison | src/umcm/solver/evaluator.py:176-183 | strings compare like words in a dictionary, and the four order operators agree with each other |
| Outcomes.MaskFunctions | src/umcm/solver/evaluator.py:41-54 | masks overlap exactly when they share a bit, and one covers another exactly when it has all of its bits |
| Outcomes.SameBlockMeans | src/umcm/solver/evaluator.py:26-38 | two addresses are in the same block exactly when one aligned block of the size holds both |
| Evaluator.SubstitutionLemma | src/umcm/ir/expression.py:405-435 | evaluating a substituted expression is evaluating the original with the roles bound to events |
| Evaluator.EvaluationReadsMentions | src/umcm/ir/expression.py:339-358 | evaluation depends only on the events that the expression mentions |
| Evaluator.ConjunctionIsTrue | src/umcm/ir/expression.py:438-446 | a conjunction is true exactly when every item is |
| Evaluator.DisjunctionIsTrue | src/umcm/ir/expression.py:449-457 | a disjunction of decided items is true exactly when one is |
| RuleCompiler.RoleBindings | src/umcm/solver/problem.py:499-510 | every tuple of events that fills the roles is listed exactly once |
| RuleCompiler.Instantiate | src/umcm/solver/problem.py:211-496 | the instantiation holds exactly the forward and support instances and the state effects of all bindings without repeated events |
| RuleCompiler.BuildProblem | src/umcm/solver/problem.py:132-208 | the problem holds the given constraints, the cycle bounds and the instances of every rule |
| RuleMeaning.CompilationIsSound | src/umcm/solver/problem.py:240-487 | true ground constraints give every enabled input tuple a related output tuple and, for exact rules, every derived output a related enabled input tuple, also where expressions are undecided |
| RuleMeaning.CompilationPreservesMeaning | src/umcm/solver/problem.py:240-487 | for decided expressions the ground constraints hold exactly when the rule does |
| SolutionMeaning.SortedRuleDecided | src/umcm/solver/evaluator.py:92-222 | a total assignment of values of the right sorts decides every instance of a well-sorted rule |
| RuleMeaning.FiringMeans | src/umcm/solver/problem.py:275-312 | a complete binding is active exactly when its inputs are enabled, its outputs derived and both related |
| RuleMeaning.EffectMeans | src/umcm/solver/problem.py:358-395 | state effects read and write, with the roles bound, at the cycle of their anchor |
| RuleMeaning.GuardedForwardMeans | src/umcm/solver/problem.py:319-342 | a state-guarded rule demands outputs exactly of enabled inputs whose guards hold |
| RuleMeaning.GuardedSupportMeans | src/umcm/solver/problem.py:435-475 | a derived output needs a related enabled input whose guards hold |
| ProblemTheory.BuiltProblemIsSound | src/umcm/solver/problem.py:132-208 | true constraints of a built problem make the given ones, the horizon and every rule without guards hold |
| ProblemTheory.BuiltProblemMeans | src/umcm/solver/problem.py:132-208 | for decided expressions the constraints of a built problem hold exactly when the given ones, the horizon and every rule without guards do |
| ProblemTheory.InHorizonMeans | src/umcm/solver/problem.py:168-185 | the horizon asks of each occurring event with a cycle that this is an integer within the horizon |
| SolutionMeaning.BuiltFeasibility | src/umcm/solver/state.py:58-300 | with its constraints true a built problem is feasible exactly when every guarded rule is kept, the requirements of firing rules are met, and firing rules agree on what they write |
| SolutionMeaning.BuiltSolutionsMean | src/umcm/solver/problem.py:132-208 | a total choice solves a well-sorted built problem exactly when the given constraints, the horizon, every rule with its state guards and requirements, and the agreement of writes hold |
| ProblemTheory.BuiltCyclesInRange | src/umcm/solver/problem.py:168-185 | the cycle bounds keep every active effect inside the horizon |
| State.PreStateIsLatestWrite | src/umcm/solver/state.py:136-207 | the pre-state of a cell is its latest earlier write, or its initial value |
| State.OrderDoesNotChangeState | src/umcm/solver/state.py:136-207 | reordering the effects changes no pre-state and no final state |
| State.OrderDoesNotChangeVerdict | src/umcm/solver/state.py:136-226 | reordering the effects does not change feasibility |
| Simulator.CheckStateSemantics | src/umcm/solver/state.py:58-226 | accepts exactly the feasible assignments, reports initial and final state and one step per active cycle, and raises exactly when an evaluation or comparison raises before anything rejects the assignment |
| Simulator.ApplyUpdates | src/umcm/solver/state.py:166-192 | applies the writes of a cycle at once and rejects exactly the conflicting ones |
| Simulator.GuardPredicatesHold | src/umcm/solver/state.py:242-252 | reads guards in order against the pre-states; the first that fails, is unresolved or raises decides |
| Simulator.CheckGuardedTransitions | src/umcm/solver/state.py:255-300 | passes exactly when every enabled guarded rule has its consequent and every guarded output its support, and raises exactly when one raises after all earlier ones passed |
| Completion.ReplayPreState | src/umcm/solver/completion.py:187-191 | replaying the sparse steps before any cycle gives its pre-state |
| Completion.StatePredicatesHold | src/umcm/solver/completion.py:178-204 | raises exactly when a predicate raises or has values without an order after all earlier ones held, and otherwise holds exactly when every predicate does in the replayed state |
| Completion.ReplayAgreesWithScan | src/umcm/solver/completion.py:178-204 | inside the horizon the replay and the simulation agree on guards |
| Completion.ActiveTransformations | src/umcm/solver/completion.py:154-175 | raises exactly when some rule instance does, and otherwise reports exactly the instances that fire in the run |
| Completion.ReportAgreesWithScan | src/umcm/solver/completion.py:154-204 | for guards inside the horizon a report raises exactly when the guard scan reaches values without an order, and otherwise agrees with the scan |
| Reports.BuiltReportAgrees | src/umcm/solver/completion.py:154-204 | in a built problem the cycle bounds put the guards of firing rules inside the horizon, so the same equivalences hold of every rule instance |
| Reports.UniformReportsNeverRaise | src/umcm/solver/completion.py:178-204 | reports never raise when guards compare cells of boolean, integer or one-kind enumerated sorts with values of those sorts |
| NamedCell.EqualityRaisesInReport | src/umcm/solver/completion.py:194-201 | a valid rule that compares a name with a number is built into a problem with a feasible run, in which the guard fails and the report of the rule instance raises |
| Finite.PruningIsSound | src/umcm/solver/finite.py:60-66 | a definitely false constraint rules out every extension of the choices |
| Finite.PrunedIsDecided | src/umcm/solver/finite.py:60-66 | below a pruned prefix there is neither a solution nor an unknown leaf |
| Finite.Search.Visit | src/umcm/solver/finite.py:68-98 | counts the visited prefixes, finds the first solution below the choices or shows that there is none, raises exactly when a visited node does, notes exactly the unknown leaves, restores the assignment, and gives up exactly when the count exceeds the limit |
| Finite.SolveFinite | src/umcm/solver/finite.py:46-133 | when the visited nodes are within the limit, the answer is an error exactly when one raises, SAT with the first solution in variable and domain order exactly when there is one, UNSAT exactly when there is none and no leaf is unknown, and otherwise UNKNOWN; beyond the limit it is UNKNOWN; the node count is exact |
| Smt.TranslationAgrees | src/umcm/solver/z3ctypes.py:131-165 | the translated term of a well-sorted expression denotes the code of its value |
| StateConstraints.Compile | src/umcm/solver/z3ctypes.py:303-419 | the appended assertions are exactly the encoding, an untranslatable expression is an error, and without state variables there are none |
| StateConstraints.CellStep | src/umcm/solver/z3ctypes.py:377-417 | one cell and cycle contribute one assertion per update and the stuttering assertion |
| StateEquivalence.RunDeterminesSnapshots | src/umcm/solver/z3ctypes.py:329-417 | initial and transition assertions determine every snapshot: it is the simulated pre-state |
| StateEquivalence.EncodingIsSound | src/umcm/solver/z3ctypes.py:303-419 | a model of the encoding makes the assignment feasible when active effects have cycles in range |
| StateEquivalence.EncodingIsComplete | src/umcm/solver/z3ctypes.py:303-419 | the snapshots of a feasible run satisfy the encoding |
| StateEquivalence.SimulatorEqualsEncoding | src/umcm/solver/z3ctypes.py:303-419 | snapshots that satisfy the encoding exist exactly for feasible assignments, and they are the simulated states |
| Script.SolutionGivesModel | src/umcm/solver/z3ctypes.py:437-446 | every solution of the finite search encodes to a model of the SMT script |
| Script.ModelGivesSolution | src/umcm/solver/z3ctypes.py:460-478 | every model of the script decodes to an assignment that satisfies the constraints, and to a solution exactly when there are state variables or its guarded rules hold |
| Script.StatelessFeasibility | src/umcm/solver/state.py:255-300 | without state variables an assignment is feasible exactly when its guarded rules hold as implications |
| Script.ModelsDecode | src/umcm/solver/z3ctypes.py:460-479 | every model of the script decodes to a solution, so the state check rejects none, exactly when there are state variables or the guarded rules hold of every assignment that satisfies the constraints |
| Script.ScriptAgrees | src/umcm/solver/z3ctypes.py:437-458 | the script is satisfiable exactly when the domains hold a solution, if and only if there are state variables or the guarded rules are satisfiable with the constraints |
| Decision.WellSortedNeverRaises | src/umcm/solver/evaluator.py:92-222 | a well-sorted expression evaluates without error under every partial assignment |
| Decision.SearchDecides | src/umcm/solver/finite.py:100-133 | on well-sorted problems no visited node raises and no leaf is unknown, so only the node limit leaves the search open |
| Decision.BuiltScriptAgrees | src/umcm/solver/problem.py:168-185 | for problems built from rules the same equivalence about the script needs no condition on cycles |
| Decision.StatelessGuardsAreDropped | src/umcm/solver/z3ctypes.py:313-314 | a state-guarded rule compiles to a problem without state variables whose script is satisfiable although no assignment is feasible |
| SmtBackend.ReadAssignment | src/umcm/solver/z3ctypes.py:257-272 | reading a model gives every variable the value of its code, and fails exactly for a missing variable or an unknown code |
| SmtBackend.SolveSmt | src/umcm/solver/z3ctypes.py:437-482 | the infeasible models are rejected in turn, each asked for with the earlier ones blocked, and the first other answer decides unless the limit is reached; SAT always carries a solution and its run, an unsatisfiable script means that there is none, and when the state rules are enforced the first query decides and the answer is that of the finite search |
| Sexpr.Tokenize | src/umcm/solver/z3ctypes.py:226-241 | the index loop computes the tokens of the text, with bars and backslashes resolved |
| Literals.WordsAreTokens | src/umcm/solver/z3ctypes.py:226-241 | words of printable characters between blanks, tabs and line breaks are the tokens |
| Sexpr.Reader.ReadOne | src/umcm/solver/z3ctypes.py:246-252 | reads one form, advances past exactly its tokens, and fails exactly when the tokens end inside it |
| Sexpr.ParseSexprs | src/umcm/solver/z3ctypes.py:244-254 | reads all forms of the text |
| Sexpr.QuoteIsOneToken | src/umcm/solver/z3ctypes.py:109-111 | a quoted name is one token and reads back, whatever follows it |
| Sexpr.PrintReadsBack | src/umcm/solver/z3ctypes.py:226-254 | printed forms read back exactly when no atom is an opening parenthesis and no nested atom a closing one |
| Sexpr.ParenthesisIsLost | src/umcm/solver/z3ctypes.py:226-254 | a printed list that holds an opening parenthesis as a quoted name cannot be parsed |
| Literals.LiteralReadsBack | src/umcm/solver/z3ctypes.py:118-191 | the literal of a boolean, integer, bit-vector or enumerated value is one form that decodes to the value |
| Literals.DigitRepliesDecode | src/umcm/solver/z3ctypes.py:182-185 | a bit-vector that the solver writes with hexadecimal or binary digits of fixed width is one atom that decodes to its number |
| Matcher.MatchRole | src/umcm/hierarchy/engine.py:121-140 | returns the least extension of the bindings that unifies the event with the role, and none exactly when no extension does |
| Matcher.Search.Visit | src/umcm/hierarchy/engine.py:165-189 | yields each match below the selected events once and leaves the selection as it was |
| Matcher.RuleMatches | src/umcm/hierarchy/engine.py:143-191 | the yielded matches are exactly the reports of the tuples that one binding explains, with distinct events where asked and cycles that never decrease, or strictly increase, where ordered and known; each once, in the order of the candidates |
| Matcher.TuplesAndReports | src/umcm/hierarchy/engine.py:159-191 | tuples and reports correspond one to one, so each tuple is yielded exactly once |
| Matcher.ReportBinds | src/umcm/hierarchy/engine.py:121-140 | a report gives each variable the value of every field that it stands for, demands the literal fields, and binds nothing else |

## Left out

- Loading, saving, schema checks, provenance, documentation, command line and coverage reporting: input, output and plumbing.
- Texts of errors and reasons, certificate hashes and metadata: an exception is `Err`, `Raised` or `Threw`.
- `project_operations` and the extraction of hints from events: the projection of a trace is an input of the model.
- Relation hints that name unknown operations: they are rejected while hints are extracted, so trace results require known ends.
- Custom axioms and derived relations of a graph model (`check_axiom`, `_derive_relation`): only the builtin RVWMO model is covered.
- Values of memory operations are integers, and addresses are integers or symbols; the order of addresses by printed form is left open.
- The standard progress axiom on finite executions, which the checker always reports as satisfied.
- `_core_order_candidate_possible` and the realization stages of the hierarchical search: heuristics and orchestration over configuration.
- BoundedSearch.CanonicalProgramsSuffice: the defaults that a search may add to event fields are empty, and the generator's limit on assignments is not part of it.
- Python's identification of `True` with `1`: booleans and integers are different values of the model.
- Calls with operands of the wrong type: where Python would raise or coerce, the model raises.
- Event attributes that are compound expressions: they are literals or symbols, as materialization creates them.
- `_build_variables` and the choice of domains: variables with their domains are an input; `Script.Fits` states what they satisfy.
- The codec's collection of enumerated values: the codec is an input that gives every value of a sort a distinct code.
- Smt.TranslationAgrees: bit-vectors, division, modulo, masks, sized blocks and order comparisons on enumerations are outside the fragment, because the evaluator and the SMT operators differ there.
- The clash of snapshot names with symbols of the problem: snapshots are their own constructor.
- The printing of terms to SMT-LIB text: terms have a denotation; quoting, tokens and literals are covered separately.
- The SMT solver itself and slot minimization: the solver is any function from the blocked assignments to an answer whose models satisfy the script.
- SmtBackend.SolveSmt: which assignments a clause of `_block_clause` excludes is not modelled, so after a rejected model the answer is the solver's own, and only SAT is known to be right.
- Integer parsing of the model's replies accepts an optional sign and digits only.
- Sorting of reported transformations by name, and state changes inside a reported step.
- Output construction, refinement and preservation checks of trace abstraction: only the role matching is covered.
