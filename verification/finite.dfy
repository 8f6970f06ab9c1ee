/** Depth-first search over the variables with three-valued pruning. */
module Finite {
  import opened Common
  import opened Expressions
  import opened Evaluator
  import opened Problems
  import opened State
  import opened Simulator

  datatype Variable = Variable(name: string, sort: Sort, domain: seq<Value>)

  predicate DistinctNames(variables: seq<Variable>) {
    forall i, j :: 0 <= i < j < |variables| ==> variables[i].name != variables[j].name
  }

  // ----- Choices

  /** One domain index for each of the first variables. */
  predicate IsChoice(variables: seq<Variable>, choice: seq<nat>) {
    |choice| <= |variables| && forall i :: 0 <= i < |choice| ==> choice[i] < |variables[i].domain|
  }

  predicate IsTotal(variables: seq<Variable>, choice: seq<nat>) {
    IsChoice(variables, choice) && |choice| == |variables|
  }

  function AssignmentOf(variables: seq<Variable>, choice: seq<nat>): Assignment
    requires IsChoice(variables, choice)
  {
    if choice == [] then map[]
    else
      var last := |choice| - 1;
      AssignmentOf(variables, choice[..last])[variables[last].name := variables[last].domain[choice[last]]]
  }

  lemma {:induction false} AssignedNames(variables: seq<Variable>, choice: seq<nat>)
    requires IsChoice(variables, choice)
    ensures forall x :: x in AssignmentOf(variables, choice) <==>
            exists i :: 0 <= i < |choice| && variables[i].name == x
  {
    if choice != [] {
      var last := |choice| - 1;
      AssignedNames(variables, choice[..last]);
      forall x
        ensures x in AssignmentOf(variables, choice) <==> exists i :: 0 <= i < |choice| && variables[i].name == x
      {
        if i :| 0 <= i < |choice| && variables[i].name == x {
          assert i < last || i == last;
        }
      }
    }
  }

  /** The choices of variables with distinct names are all visible in the assignment. */
  lemma {:induction false} AssignedValue(variables: seq<Variable>, choice: seq<nat>, i: nat)
    requires DistinctNames(variables) && IsChoice(variables, choice) && i < |choice|
    ensures variables[i].name in AssignmentOf(variables, choice)
    ensures AssignmentOf(variables, choice)[variables[i].name] == variables[i].domain[choice[i]]
  {
    var last := |choice| - 1;
    if i < last { AssignedValue(variables, choice[..last], i); }
  }

  /** Extending a choice extends its assignment. */
  lemma LongerChoiceExtends(variables: seq<Variable>, choice: seq<nat>, longer: seq<nat>)
    requires DistinctNames(variables) && IsChoice(variables, choice) && IsChoice(variables, longer) && choice <= longer
    ensures Extends(AssignmentOf(variables, choice), AssignmentOf(variables, longer))
  {
    AssignedNames(variables, choice);
    forall x | x in AssignmentOf(variables, choice)
      ensures x in AssignmentOf(variables, longer)
           && AssignmentOf(variables, longer)[x] == AssignmentOf(variables, choice)[x]
    {
      var i :| 0 <= i < |choice| && variables[i].name == x;
      AssignedValue(variables, choice, i);
      AssignedValue(variables, longer, i);
    }
  }

  // ----- Solutions

  ghost predicate Satisfies(p: Problem, a: Assignment) {
    forall e :: e in p.constraints ==> IsTrue(e, p.events, a)
  }

  /** A total choice that makes every constraint true and is feasible. */
  ghost predicate IsSolution(p: Problem, variables: seq<Variable>, choice: seq<nat>) {
    && IsTotal(variables, choice)
    && Satisfies(p, AssignmentOf(variables, choice))
    && Feasible(p, AssignmentOf(variables, choice))
  }

  ghost predicate NoSolution(p: Problem, variables: seq<Variable>, prefix: seq<nat>) {
    forall choice :: prefix <= choice ==> !IsSolution(p, variables, choice)
  }

  /** Variables in order, and for each the values in the order of its domain. */
  ghost predicate LexLess(a: seq<nat>, b: seq<nat>) {
    exists k :: 0 <= k < |a| && k < |b| && a[..k] == b[..k] && a[k] < b[k]
  }

  /** `choice` is the first solution among the extensions of `prefix`. */
  ghost predicate FirstSolution(p: Problem, variables: seq<Variable>, prefix: seq<nat>, choice: seq<nat>) {
    && prefix <= choice && IsSolution(p, variables, choice)
    && forall other :: prefix <= other && LexLess(other, choice) ==> !IsSolution(p, variables, other)
  }

  /** A definitely false constraint rules out every extension. */
  lemma PruningIsSound(p: Problem, variables: seq<Variable>, prefix: seq<nat>, e: Expr)
    requires DistinctNames(variables) && IsChoice(variables, prefix) && e in p.constraints
    requires Evaluate(e, p.events, AssignmentOf(variables, prefix)) == Known(FALSE)
    ensures NoSolution(p, variables, prefix)
  {
    forall choice | prefix <= choice && IsTotal(variables, choice)
      ensures !IsTrue(e, p.events, AssignmentOf(variables, choice))
    {
      LongerChoiceExtends(variables, prefix, choice);
      EvaluationIsMonotone(e, p.events, AssignmentOf(variables, prefix), AssignmentOf(variables, choice));
    }
  }

  /** The first `n` values have no solution below them. */
  ghost predicate NoneBefore(p: Problem, variables: seq<Variable>, prefix: seq<nat>, n: nat) {
    forall u :: 0 <= u < n ==> NoSolution(p, variables, prefix + [u])
  }

  /** Extending the prefix by each value of the next domain exhausts its extensions. */
  lemma AllValuesTried(p: Problem, variables: seq<Variable>, prefix: seq<nat>)
    requires |prefix| < |variables| && NoneBefore(p, variables, prefix, |variables[|prefix|].domain|)
    ensures NoSolution(p, variables, prefix)
  {
    forall choice | prefix <= choice && IsTotal(variables, choice) ensures !IsSolution(p, variables, choice) {
      var v := choice[|prefix|];
      assert prefix + [v] <= choice;
    }
  }

  /** The first solution below the first value that has one is the first of all. */
  lemma FirstOfFirst(p: Problem, variables: seq<Variable>, prefix: seq<nat>, v: nat, choice: seq<nat>)
    requires |prefix| < |variables| && FirstSolution(p, variables, prefix + [v], choice)
    requires NoneBefore(p, variables, prefix, v)
    ensures FirstSolution(p, variables, prefix, choice)
  {
    assert choice[|prefix|] == v && prefix <= choice;
    forall other | prefix <= other && LexLess(other, choice) && IsTotal(variables, other)
      ensures !IsSolution(p, variables, other)
    {
      var u := other[|prefix|];
      assert prefix + [u] <= other;
      var k :| 0 <= k < |other| && k < |choice| && other[..k] == choice[..k] && other[k] < choice[k];
      assert forall j :: 0 <= j < |prefix| ==> other[j] == prefix[j] && choice[j] == prefix[j];
      if k > |prefix| { assert other[..k][|prefix|] == choice[..k][|prefix|]; }
    }
  }

  /** A constraint raises under some of the choices, or the simulation raises under all of them. */
  ghost predicate Raises(p: Problem, variables: seq<Variable>) {
    exists choice :: IsChoice(variables, choice)
        && RaisesAt(p, AssignmentOf(variables, choice), |choice| == |variables|)
  }

  ghost predicate RaisesAt(p: Problem, a: Assignment, total: bool) {
    (exists e :: e in p.constraints && Evaluate(e, p.events, a).Raised?) || (total && StateRaises(p, a))
  }

  // ----- The nodes that a search visits

  /** A constraint is definitely false. */
  ghost predicate Pruned(p: Problem, a: Assignment) {
    exists e :: e in p.constraints && Evaluate(e, p.events, a) == Known(FALSE)
  }

  /** A constraint raises and no earlier one is definitely false. */
  ghost predicate RaisesFirst(p: Problem, a: Assignment) {
    exists i :: 0 <= i < |p.constraints| && Evaluate(p.constraints[i], p.events, a).Raised?
        && forall j :: 0 <= j < i ==> Evaluate(p.constraints[j], p.events, a) != Known(FALSE)
  }

  /** Visiting the prefix raises: a constraint does, or the simulation of a full assignment. */
  ghost predicate NodeThrows(p: Problem, variables: seq<Variable>, prefix: seq<nat>)
    requires IsChoice(variables, prefix)
  {
    var a := AssignmentOf(variables, prefix);
    RaisesFirst(p, a) || (|prefix| == |variables| && Satisfies(p, a) && StateThrows(p, a))
  }

  /** Nothing raises at the nodes that are visited below the prefix. */
  ghost predicate Quiet(p: Problem, variables: seq<Variable>, prefix: seq<nat>)
    requires IsChoice(variables, prefix)
    decreases |variables| - |prefix|, 1, 0
  {
    && !NodeThrows(p, variables, prefix)
    && (Pruned(p, AssignmentOf(variables, prefix)) || |prefix| == |variables| || QuietFrom(p, variables, prefix, 0))
  }

  ghost predicate QuietFrom(p: Problem, variables: seq<Variable>, prefix: seq<nat>, i: nat)
    requires IsChoice(variables, prefix) && |prefix| < |variables| && i <= |variables[|prefix|].domain|
    decreases |variables| - |prefix|, 0, |variables[|prefix|].domain| - i
  {
    i < |variables[|prefix|].domain| ==>
      && Quiet(p, variables, prefix + [i])
      && (NoSolution(p, variables, prefix + [i]) ==> QuietFrom(p, variables, prefix, i + 1))
  }

  lemma {:induction false} AllQuiet(p: Problem, variables: seq<Variable>, prefix: seq<nat>, i: nat)
    requires IsChoice(variables, prefix) && |prefix| < |variables| && i <= |variables[|prefix|].domain|
    requires forall v :: i <= v < |variables[|prefix|].domain| ==> Quiet(p, variables, prefix + [v])
    ensures QuietFrom(p, variables, prefix, i)
    decreases |variables[|prefix|].domain| - i
  {
    if i < |variables[|prefix|].domain| { AllQuiet(p, variables, prefix, i + 1); }
  }

  lemma {:induction false} AllNodesQuiet(p: Problem, variables: seq<Variable>, prefix: seq<nat>)
    requires IsChoice(variables, prefix)
    requires forall choice | IsChoice(variables, choice) :: !NodeThrows(p, variables, choice)
    ensures Quiet(p, variables, prefix)
    decreases |variables| - |prefix|
  {
    if |prefix| < |variables| {
      forall v | 0 <= v < |variables[|prefix|].domain| ensures Quiet(p, variables, prefix + [v]) {
        AllNodesQuiet(p, variables, prefix + [v]);
      }
      AllQuiet(p, variables, prefix, 0);
    }
  }

  lemma NodeQuiet(p: Problem, variables: seq<Variable>, prefix: seq<nat>)
    requires IsChoice(variables, prefix) && !Raises(p, variables)
    ensures !NodeThrows(p, variables, prefix)
  {
    var a := AssignmentOf(variables, prefix);
    assert !RaisesAt(p, a, |prefix| == |variables|);
    if StateThrows(p, a) { StateThrowsRaises(p, a); }
  }

  /** A search is quiet when nothing may raise. */
  lemma QuietUnlessRaises(p: Problem, variables: seq<Variable>, prefix: seq<nat>)
    requires IsChoice(variables, prefix) && !Raises(p, variables)
    ensures Quiet(p, variables, prefix)
  {
    forall choice | IsChoice(variables, choice) ensures !NodeThrows(p, variables, choice) {
      NodeQuiet(p, variables, choice);
    }
    AllNodesQuiet(p, variables, prefix);
  }

  /** The prefix, unless it is pruned the prefixes below it, in order and up to the first that raises or solves. */
  ghost function Nodes(p: Problem, variables: seq<Variable>, prefix: seq<nat>): nat
    requires IsChoice(variables, prefix)
    decreases |variables| - |prefix|, 1, 0
  {
    if Pruned(p, AssignmentOf(variables, prefix)) || NodeThrows(p, variables, prefix) || |prefix| == |variables| then 1
    else 1 + NodesFrom(p, variables, prefix, 0)
  }

  /** The nodes below the prefix from its `i`-th extension on. */
  ghost function NodesFrom(p: Problem, variables: seq<Variable>, prefix: seq<nat>, i: nat): nat
    requires IsChoice(variables, prefix) && |prefix| < |variables| && i <= |variables[|prefix|].domain|
    decreases |variables| - |prefix|, 0, |variables[|prefix|].domain| - i
  {
    if i == |variables[|prefix|].domain| then 0
    else Nodes(p, variables, prefix + [i])
         + if Quiet(p, variables, prefix + [i]) && NoSolution(p, variables, prefix + [i])
           then NodesFrom(p, variables, prefix, i + 1) else 0
  }

  /** A full assignment leaves a constraint unknown and makes none false. */
  ghost predicate LeafUnknown(p: Problem, a: Assignment) {
    && (forall e :: e in p.constraints ==>
          Evaluate(e, p.events, a) != Known(FALSE) && !Evaluate(e, p.events, a).Raised?)
    && exists e :: e in p.constraints && Evaluate(e, p.events, a).Unknown?
  }

  ghost predicate UnknownBelow(p: Problem, variables: seq<Variable>, prefix: seq<nat>) {
    exists choice :: prefix <= choice && IsTotal(variables, choice) && LeafUnknown(p, AssignmentOf(variables, choice))
  }

  /** What the values of the constraints say about a full assignment that is not pruned. */
  lemma LeafValues(p: Problem, a: Assignment)
    requires !Pruned(p, a)
    ensures var values := EvaluateAll(p.constraints, p.events, a);
            && (Outcome.Raised in values <==> exists e :: e in p.constraints && Evaluate(e, p.events, a).Raised?)
            && ((forall v | v in values :: v == Known(TRUE)) <==> Satisfies(p, a))
            && (LeafUnknown(p, a) <==> Outcome.Raised !in values && Outcome.Unknown in values)
  {
    var values := EvaluateAll(p.constraints, p.events, a);
    MembersEvaluate(p.constraints, p.events, a);
    if forall v | v in values :: v == Known(TRUE) {
      forall e | e in p.constraints ensures IsTrue(e, p.events, a) { assert Evaluate(e, p.events, a) in values; }
    }
    if Satisfies(p, a) {
      forall v | v in values ensures v == Known(TRUE) {
      }
    }
  }

  lemma PrunedIsDecided(p: Problem, variables: seq<Variable>, prefix: seq<nat>)
    requires DistinctNames(variables) && IsChoice(variables, prefix) && Pruned(p, AssignmentOf(variables, prefix))
    ensures NoSolution(p, variables, prefix) && !UnknownBelow(p, variables, prefix)
  {
    var e :| e in p.constraints && Evaluate(e, p.events, AssignmentOf(variables, prefix)) == Known(FALSE);
    PruningIsSound(p, variables, prefix, e);
    forall choice | prefix <= choice && IsTotal(variables, choice)
      ensures !LeafUnknown(p, AssignmentOf(variables, choice))
    {
      LongerChoiceExtends(variables, prefix, choice);
      EvaluationIsMonotone(e, p.events, AssignmentOf(variables, prefix), AssignmentOf(variables, choice));
    }
  }

  lemma UnknownSplits(p: Problem, variables: seq<Variable>, prefix: seq<nat>)
    requires |prefix| < |variables|
    ensures UnknownBelow(p, variables, prefix) <==>
            UnknownBefore(p, variables, prefix, |variables[|prefix|].domain|)
  {
    if choice :| prefix <= choice && IsTotal(variables, choice) && LeafUnknown(p, AssignmentOf(variables, choice)) {
      assert prefix + [choice[|prefix|]] <= choice;
      assert UnknownBelow(p, variables, prefix + [choice[|prefix|]]);
    }
    if v :| 0 <= v < |variables[|prefix|].domain| && UnknownBelow(p, variables, prefix + [v]) {
      var choice :| prefix + [v] <= choice && IsTotal(variables, choice)
          && LeafUnknown(p, AssignmentOf(variables, choice));
      assert prefix <= choice;
    }
  }

  /** One of the first `n` values has an unknown leaf below it. */
  ghost predicate UnknownBefore(p: Problem, variables: seq<Variable>, prefix: seq<nat>, n: nat) {
    exists u :: 0 <= u < n && UnknownBelow(p, variables, prefix + [u])
  }

  lemma OneMoreValue(p: Problem, variables: seq<Variable>, prefix: seq<nat>, n: nat)
    ensures NoneBefore(p, variables, prefix, n + 1) <==>
            NoneBefore(p, variables, prefix, n) && NoSolution(p, variables, prefix + [n])
    ensures UnknownBefore(p, variables, prefix, n + 1) <==>
            UnknownBefore(p, variables, prefix, n) || UnknownBelow(p, variables, prefix + [n])
  {
    if UnknownBelow(p, variables, prefix + [n]) { assert 0 <= n < n + 1; }
    if u :| 0 <= u < n && UnknownBelow(p, variables, prefix + [u]) { assert 0 <= u < n + 1; }
  }

  lemma SolutionAbove(p: Problem, variables: seq<Variable>, prefix: seq<nat>, v: nat)
    requires !NoSolution(p, variables, prefix + [v])
    ensures !NoSolution(p, variables, prefix)
  {
    var choice :| prefix + [v] <= choice && IsSolution(p, variables, choice);
    assert prefix <= choice;
  }

  /** What the counter shows after visiting `count` more nodes, if the limit allows them. */
  function Counted(explored: nat, count: nat, nodeLimit: nat): nat {
    if explored + count <= nodeLimit then explored + count else nodeLimit + 1
  }

  /** The counters of a search. */
  datatype Progress = Progress(explored: nat, unknownLeaf: bool)

  /** What a search has found below the prefix, and how it has moved the counters. */
  ghost predicate Searched(p: Problem, variables: seq<Variable>, prefix: seq<nat>, count: nat, quiet: bool,
                           nodeLimit: nat, before: Progress, after: Progress, result: SearchResult, run: StateResult)
  {
    && after.explored == Counted(before.explored, count, nodeLimit)
    && (result.SearchRaised? <==> after.explored <= nodeLimit && !quiet)
    && (result.Found? <==> after.explored <= nodeLimit && quiet && !NoSolution(p, variables, prefix))
    && (result.Found? ==>
          IsFirst(p, variables, prefix, result.assignment) && Describes(p, result.assignment, run))
    && (result.NotFound? && after.explored <= nodeLimit ==>
          (after.unknownLeaf <==> before.unknownLeaf || UnknownBelow(p, variables, prefix)))
  }

  /** The first `i` values of the next variable have been searched without a solution. */
  ghost predicate Tried(p: Problem, variables: seq<Variable>, prefix: seq<nat>, i: nat, before: Progress,
                        after: Progress)
    requires IsChoice(variables, prefix) && |prefix| < |variables| && i <= |variables[|prefix|].domain|
  {
    && after.explored + NodesFrom(p, variables, prefix, i)
       == before.explored + NodesFrom(p, variables, prefix, 0)
    && NoneBefore(p, variables, prefix, i)
    && (after.unknownLeaf <==> before.unknownLeaf || UnknownBefore(p, variables, prefix, i))
    && (QuietFrom(p, variables, prefix, i) <==> QuietFrom(p, variables, prefix, 0))
  }

  /** One more value either settles the search or leaves it at the next value. */
  lemma TriedNext(p: Problem, variables: seq<Variable>, prefix: seq<nat>, i: nat, nodeLimit: nat, before: Progress,
                  middle: Progress, after: Progress, result: SearchResult, run: StateResult)
    requires IsChoice(variables, prefix) && |prefix| < |variables| && i < |variables[|prefix|].domain|
    requires Tried(p, variables, prefix, i, before, middle) && middle.explored <= nodeLimit
    requires Searched(p, variables, prefix + [i], Nodes(p, variables, prefix + [i]), Quiet(p, variables, prefix + [i]),
                      nodeLimit, middle, after, result, run)
    ensures after.explored <= nodeLimit && result.NotFound? ==> Tried(p, variables, prefix, i + 1, before, after)
    ensures after.explored > nodeLimit || !result.NotFound? ==>
      Searched(p, variables, prefix, NodesFrom(p, variables, prefix, 0), QuietFrom(p, variables, prefix, 0), nodeLimit,
               before, after, result, run)
  {
    OneMoreValue(p, variables, prefix, i);
    if result.Found? {
      FirstBelow(p, variables, prefix, i, result.assignment);
      SolutionAbove(p, variables, prefix, i);
    }
  }

  lemma TriedAll(p: Problem, variables: seq<Variable>, prefix: seq<nat>, nodeLimit: nat, before: Progress,
                 after: Progress, run: StateResult)
    requires IsChoice(variables, prefix) && |prefix| < |variables| && after.explored <= nodeLimit
    requires Tried(p, variables, prefix, |variables[|prefix|].domain|, before, after)
    ensures Searched(p, variables, prefix, NodesFrom(p, variables, prefix, 0), QuietFrom(p, variables, prefix, 0),
                     nodeLimit, before, after, NotFound, run)
  {
    AllValuesTried(p, variables, prefix);
    UnknownSplits(p, variables, prefix);
  }

  // ----- The search

  datatype SearchResult = Found(assignment: Assignment) | NotFound | SearchRaised

  datatype SolveResult =
    | Sat(assignment: Assignment, exploredNodes: nat, stateResult: StateResult)
    | Unsat(exploredNodes: nat)
    | UnknownResult(exploredNodes: nat)
    | SolveRaised

  /** The shared assignment and the counters of one search. */
  class Search {
    const problem: Problem
    const variables: seq<Variable>
    const nodeLimit: nat
    var assignment: Assignment
    var explored: nat
    var hitUnknownLeaf: bool
    var winningStateResult: StateResult

    constructor (problem: Problem, variables: seq<Variable>, nodeLimit: nat)
      ensures this.problem == problem && this.variables == variables && this.nodeLimit == nodeLimit
      ensures assignment == map[] && explored == 0 && !hitUnknownLeaf
    {
      this.problem, this.variables, this.nodeLimit := problem, variables, nodeLimit;
      assignment, explored, hitUnknownLeaf, winningStateResult := map[], 0, false, Infeasible;
    }

    /** The assignment is that of the choices made so far. */
    ghost predicate At(prefix: seq<nat>)
      reads this
    {
      && ValidProblem(problem) && DistinctNames(variables)
      && IsChoice(variables, prefix) && assignment == AssignmentOf(variables, prefix)
    }

    ghost function Counters(): Progress
      reads this
    {
      Progress(explored, hitUnknownLeaf)
    }

    /** No constraint is definitely false; evaluation stops at the first that is. */
    method ConstraintsConsistent(ghost prefix: seq<nat>) returns (result: Stage<()>)
      requires At(prefix)
      ensures result.Rejected? ==> Pruned(problem, assignment)
      ensures result.Done? ==> !Pruned(problem, assignment)
      ensures result.Threw? <==> RaisesFirst(problem, assignment)
    {
      for i := 0 to |problem.constraints|
        invariant forall e :: e in problem.constraints[..i] ==>
          Evaluate(e, problem.events, assignment) != Known(FALSE)
        invariant forall j :: 0 <= j < i ==>
          !Evaluate(problem.constraints[j], problem.events, assignment).Raised?
          && Evaluate(problem.constraints[j], problem.events, assignment) != Known(FALSE)
      {
        assert problem.constraints[..i + 1] == problem.constraints[..i] + [problem.constraints[i]];
        var value := Evaluate(problem.constraints[i], problem.events, assignment);
        if value.Raised? { return Threw; }
        if value == Known(FALSE) { return Rejected; }
      }
      WholePrefix(problem.constraints);
      result := Done(());
    }

    /** Evaluates a full assignment: accepted, rejected, or with constraints that are still unknown. */
    method Leaf(ghost prefix: seq<nat>) returns (result: SearchResult)
      requires At(prefix) && |prefix| == |variables| && !Pruned(problem, assignment)
      modifies `hitUnknownLeaf, `winningStateResult
      ensures result.Found? <==> IsSolution(problem, variables, prefix)
      ensures result.Found? ==> result.assignment == AssignmentOf(variables, prefix)
      ensures result.Found? ==> Describes(problem, result.assignment, winningStateResult)
      ensures result.SearchRaised? <==>
        || (exists e :: e in problem.constraints && Evaluate(e, problem.events, assignment).Raised?)
        || (Satisfies(problem, assignment) && StateThrows(problem, assignment))
      ensures result.NotFound? ==> (hitUnknownLeaf <==> old(hitUnknownLeaf) || LeafUnknown(problem, assignment))
    {
      var values := EvaluateAll(problem.constraints, problem.events, assignment);
      LeafValues(problem, assignment);
      if Outcome.Raised in values { return SearchRaised; }
      if forall v | v in values :: v == Known(TRUE) {
        var state := CheckStateSemantics(problem, assignment);
        if state.SimThrew? { return SearchRaised; }
        if state.SimFeasible? {
          winningStateResult := state;
          return Found(assignment);
        }
        return NotFound;
      }
      if Outcome.Unknown in values { hitUnknownLeaf := true; }
      result := NotFound;
    }

    /** Depth-first search below the choices made so far, backtracking over the shared assignment. */
    method Visit(index: nat, ghost prefix: seq<nat>) returns (result: SearchResult)
      requires At(prefix) && index == |prefix| && explored <= nodeLimit
      modifies this
      ensures Searched(problem, variables, prefix, Nodes(problem, variables, prefix), Quiet(problem, variables, prefix),
                       nodeLimit, old(Counters()), Counters(), result, winningStateResult)
      ensures result.NotFound? ==> At(prefix)
      decreases |variables| - index, 2
    {
      explored := explored + 1;
      if explored > nodeLimit { return NotFound; }
      var consistent := ConstraintsConsistent(prefix);
      if consistent.Threw? { return SearchRaised; }
      if consistent.Rejected? {
        PrunedIsDecided(problem, variables, prefix);
        return NotFound;
      }
      if index == |variables| {
        result := Leaf(prefix);
        LeafIsAll(problem, variables, prefix);
      } else {
        result := TryValues(index, prefix);
      }
    }

    /** Assigns one value of the next variable and searches below it. */
    method TryValue(index: nat, ghost prefix: seq<nat>, i: nat) returns (result: SearchResult)
      requires ValidProblem(problem) && DistinctNames(variables) && IsChoice(variables, prefix)
      requires index == |prefix| < |variables| && i < |variables[index].domain| && explored <= nodeLimit
      requires assignment - {variables[index].name} == AssignmentOf(variables, prefix)
      modifies this
      ensures IsChoice(variables, prefix + [i])
      ensures Searched(problem, variables, prefix + [i], Nodes(problem, variables, prefix + [i]),
                       Quiet(problem, variables, prefix + [i]), nodeLimit, old(Counters()), Counters(), result,
                       winningStateResult)
      ensures result.NotFound? ==> assignment - {variables[index].name} == AssignmentOf(variables, prefix)
      decreases |variables| - index, 0
    {
      Assigned(variables, prefix, i, assignment);
      assignment := assignment[variables[index].name := variables[index].domain[i]];
      result := Visit(index + 1, prefix + [i]);
      Restored(variables, prefix, i);
    }

    /** Tries the values of the next variable in the order of its domain. */
    method TryValues(index: nat, ghost prefix: seq<nat>) returns (result: SearchResult)
      requires At(prefix) && index == |prefix| < |variables| && explored <= nodeLimit
      modifies this
      ensures Searched(problem, variables, prefix, NodesFrom(problem, variables, prefix, 0),
                       QuietFrom(problem, variables, prefix, 0), nodeLimit, old(Counters()), Counters(), result,
                       winningStateResult)
      ensures result.NotFound? ==> At(prefix)
      decreases |variables| - index, 1
    {
      var variable := variables[index];
      var i := 0;
      ghost var before := Counters();
      Unassigned(variables, prefix);
      while i < |variable.domain|
        invariant 0 <= i <= |variable.domain| && explored <= nodeLimit
        invariant Tried(problem, variables, prefix, i, before, Counters())
        invariant assignment - {variable.name} == AssignmentOf(variables, prefix)
      {
        ghost var middle := Counters();
        result := TryValue(index, prefix, i);
        TriedNext(problem, variables, prefix, i, nodeLimit, before, middle, Counters(), result, winningStateResult);
        if !result.NotFound? { return; }
        if explored > nodeLimit { break; }
        i := i + 1;
      }
      assignment := assignment - {variable.name};
      if explored <= nodeLimit {
        TriedAll(problem, variables, prefix, nodeLimit, before, Counters(), winningStateResult);
      }
      result := NotFound;
    }
  }

  /** The result of the simulation of the assignment. */
  ghost predicate Describes(p: Problem, a: Assignment, run: StateResult) {
    && run.SimFeasible?
    && run.initial == PreState(p, a, 0) && run.finalState == PreState(p, a, p.horizon + 1)
    && StepsDescribe(p, a, run.steps, p.horizon + 1)
  }

  ghost predicate IsFirst(p: Problem, variables: seq<Variable>, prefix: seq<nat>, a: Assignment) {
    exists choice :: FirstSolution(p, variables, prefix, choice) && a == AssignmentOf(variables, choice)
  }

  lemma FirstBelow(p: Problem, variables: seq<Variable>, prefix: seq<nat>, v: nat, a: Assignment)
    requires |prefix| < |variables| && IsFirst(p, variables, prefix + [v], a)
    requires NoneBefore(p, variables, prefix, v)
    ensures IsFirst(p, variables, prefix, a)
  {
    var choice :| FirstSolution(p, variables, prefix + [v], choice) && a == AssignmentOf(variables, choice);
    FirstOfFirst(p, variables, prefix, v, choice);
  }

  /** A full prefix is its own only total extension. */
  lemma LeafIsAll(p: Problem, variables: seq<Variable>, prefix: seq<nat>)
    requires IsTotal(variables, prefix)
    ensures IsSolution(p, variables, prefix) ==> IsFirst(p, variables, prefix, AssignmentOf(variables, prefix))
    ensures IsSolution(p, variables, prefix) <==> !NoSolution(p, variables, prefix)
    ensures UnknownBelow(p, variables, prefix) <==> LeafUnknown(p, AssignmentOf(variables, prefix))
  {
    forall other | prefix <= other && IsTotal(variables, other) ensures other == prefix {
    }
    if IsSolution(p, variables, prefix) {
      assert FirstSolution(p, variables, prefix, prefix);
    }
  }

  lemma Unassigned(variables: seq<Variable>, prefix: seq<nat>)
    requires DistinctNames(variables) && IsChoice(variables, prefix) && |prefix| < |variables|
    ensures variables[|prefix|].name !in AssignmentOf(variables, prefix)
  {
    AssignedNames(variables, prefix);
  }

  /** Writing the next variable over the prefix gives the assignment of the longer prefix. */
  lemma Assigned(variables: seq<Variable>, prefix: seq<nat>, i: nat, assignment: Assignment)
    requires DistinctNames(variables) && IsChoice(variables, prefix) && |prefix| < |variables|
    requires i < |variables[|prefix|].domain|
    requires assignment - {variables[|prefix|].name} == AssignmentOf(variables, prefix)
    ensures IsChoice(variables, prefix + [i])
    ensures assignment[variables[|prefix|].name := variables[|prefix|].domain[i]]
            == AssignmentOf(variables, prefix + [i])
  {
    Unassigned(variables, prefix);
    var name := variables[|prefix|].name;
    assert (prefix + [i])[..|prefix|] == prefix;
    assert assignment[name := variables[|prefix|].domain[i]] ==
           (assignment - {name})[name := variables[|prefix|].domain[i]];
  }

  /** Removing the variable again leaves the assignment of the prefix. */
  lemma Restored(variables: seq<Variable>, prefix: seq<nat>, i: nat)
    requires DistinctNames(variables) && IsChoice(variables, prefix) && |prefix| < |variables|
    requires i < |variables[|prefix|].domain|
    ensures IsChoice(variables, prefix + [i])
    ensures AssignmentOf(variables, prefix + [i]) - {variables[|prefix|].name} == AssignmentOf(variables, prefix)
  {
    Unassigned(variables, prefix);
    assert (prefix + [i])[..|prefix|] == prefix;
  }

  /**
   * Depth-first search over the product of the domains. The answer is exact: the explored nodes are those up to the
   * first that raises or solves, cut off one past the limit; SAT gives the first solution in variable and domain order
   * with its state run, UNSAT means that there is none and no visited leaf is unknown, and the rest is UNKNOWN.
   */
  method SolveFinite(problem: Problem, variables: seq<Variable>, nodeLimit: nat) returns (result: SolveResult)
    requires ValidProblem(problem) && DistinctNames(variables)
    ensures !result.SolveRaised? ==>
      result.exploredNodes == Counted(0, Nodes(problem, variables, []), nodeLimit)
    ensures var within, quiet := Nodes(problem, variables, []) <= nodeLimit, Quiet(problem, variables, []);
            var none := NoSolution(problem, variables, []);
            && (result.SolveRaised? <==> within && !quiet)
            && (result.Sat? <==> within && quiet && !none)
            && (result.Unsat? <==> within && quiet && none && !UnknownBelow(problem, variables, []))
            && (result.UnknownResult? <==> !within || (quiet && none && UnknownBelow(problem, variables, [])))
    ensures result.Sat? ==> IsFirst(problem, variables, [], result.assignment)
    ensures result.Sat? ==> Describes(problem, result.assignment, result.stateResult)
  {
    var search := new Search(problem, variables, nodeLimit);
    var found := search.Visit(0, []);
    match found
    case SearchRaised => result := SolveRaised;
    case Found(assignment) => result := Sat(assignment, search.explored, search.winningStateResult);
    case NotFound =>
      if search.explored > nodeLimit || search.hitUnknownLeaf {
        result := UnknownResult(search.explored);
      } else {
        result := Unsat(search.explored);
      }
  }
}
