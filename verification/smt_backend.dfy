/** Solving with an SMT solver: models that the state check rejects are blocked, and the solver is asked again. */
module SmtBackend {
  import opened Common
  import opened Expressions
  import opened Evaluator
  import opened Problems
  import opened State
  import opened Simulator
  import opened Smt
  import opened StateEncoding
  import opened Finite
  import opened Script
  import opened Decision

  // ----- Reading a model

  /** The value of a code; none for a code that no value has. */
  function Decode(codec: Codec, s: Sort, v: SmtValue): Option<Value> {
    match s
    case BoolSort => if v.B? then Some(Bool(v.b)) else None
    case IntSort => if v.I? then Some(Int(v.n)) else None
    case BitVectorSort(_) => None
    case NamedSort(_) => if v.I? && s in codec && 0 <= v.n < |codec[s]| then Some(codec[s][v.n]) else None
  }

  lemma DecodeInvertsEncode(codec: Codec, s: Sort, v: Value)
    requires HasSort(codec, s, v)
    ensures Decode(codec, s, Encode(codec, s, v)) == Some(v)
  {
  }

  /** The assignment that a model shows; an error when a variable is missing or a code is unknown. */
  method ReadAssignment(codec: Codec, variables: seq<Variable>, m: Model) returns (result: Result<Assignment>)
    ensures result.Ok? ==> result.value.Keys == set v | v in variables :: v.name
    ensures result.Ok? <==> forall v :: v in variables ==> Shows(codec, v, m)
    ensures result.Ok? && DistinctNames(variables) ==>
      forall v :: v in variables ==> Decode(codec, v.sort, m.vars[v.name]) == Some(result.value[v.name])
  {
    var a: Assignment := map[];
    for i := 0 to |variables|
      invariant a.Keys == set v | v in variables[..i] :: v.name
      invariant forall v :: v in variables[..i] ==> Shows(codec, v, m)
      invariant DistinctNames(variables) ==>
        forall v :: v in variables[..i] ==> Decode(codec, v.sort, m.vars[v.name]) == Some(a[v.name])
    {
      var v := variables[i];
      assert v in variables && variables[..i + 1] == variables[..i] + [v];
      if v.name !in m.vars { return Err; }
      var value := Decode(codec, v.sort, m.vars[v.name]);
      if value.None? { return Err; }
      a := a[v.name := value.value];
    }
    WholePrefix(variables);
    result := Ok(a);
  }

  /** The model gives the variable the code of a value. */
  predicate Shows(codec: Codec, v: Variable, m: Model) {
    v.name in m.vars && Decode(codec, v.sort, m.vars[v.name]).Some?
  }

  /** The assignment gives every variable the value of its code in the model. */
  ghost predicate ReadsModel(codec: Codec, variables: seq<Variable>, m: Model, a: Assignment) {
    && a.Keys == (set v | v in variables :: v.name)
    && forall v :: v in variables ==> Shows(codec, v, m) && Decode(codec, v.sort, m.vars[v.name]) == Some(a[v.name])
  }

  lemma OneReading(codec: Codec, variables: seq<Variable>, m: Model, a: Assignment, b: Assignment)
    requires ReadsModel(codec, variables, m, a) && ReadsModel(codec, variables, m, b)
    ensures a == b
  {
    forall x | x in a ensures x in b && a[x] == b[x] { var v :| v in variables && v.name == x; }
  }

  /** Reading the encoding of a choice gives its assignment. */
  lemma ReadsEncoding(codec: Codec, types: Signature, variables: seq<Variable>, choice: seq<nat>, m: Model)
    requires DomainsFit(codec, types, variables) && IsTotal(variables, choice)
    requires EncodesAssignment(codec, types, AssignmentOf(variables, choice), m)
    ensures forall v :: v in variables ==>
      && v.name in m.vars && v.name in AssignmentOf(variables, choice)
      && Decode(codec, v.sort, m.vars[v.name]) == Some(AssignmentOf(variables, choice)[v.name])
  {
    forall v | v in variables
      ensures v.name in m.vars && v.name in AssignmentOf(variables, choice)
      ensures Decode(codec, v.sort, m.vars[v.name]) == Some(AssignmentOf(variables, choice)[v.name])
    {
      DecodeInvertsEncode(codec, v.sort, AssignmentOf(variables, choice)[v.name]);
    }
  }

  // ----- The solver

  datatype Reply = Satisfiable(model: Model) | Unsatisfiable | Undetermined

  /** The answers of a solver to the script, with the assignments that are blocked so far. */
  type Solver = seq<Assignment> -> Reply

  /** Models satisfy the script, and without blocked assignments an unsatisfiable answer is right. */
  ghost predicate AnswersScript(codec: Codec, p: Problem, variables: seq<Variable>, solver: Solver) {
    && (forall blocked :: solver(blocked).Satisfiable? ==> ScriptSatisfied(codec, p, variables, solver(blocked).model))
    && (solver([]).Unsatisfiable? ==> forall m :: !ScriptSatisfied(codec, p, variables, m))
  }

  datatype SmtResult =
    | SmtSat(assignment: Assignment, queries: nat, run: StateResult)
    | SmtUnsat(queries: nat)
    | SmtUnknown(queries: nat)

  /** The assignment is that of a solution of the finite search. */
  ghost predicate Solves(p: Problem, variables: seq<Variable>, a: Assignment) {
    exists choice :: IsSolution(p, variables, choice) && AssignmentOf(variables, choice) == a
  }

  /** What a model of the script decodes to. */
  ghost predicate ReadsCandidate(p: Problem, variables: seq<Variable>, a: Assignment) {
    exists choice :: IsCandidate(p, variables, choice) && AssignmentOf(variables, choice) == a
  }

  /** The choice that a model of the script encodes, and what reading the model finds. */
  lemma ModelReads(codec: Codec, types: Signature, p: Problem, variables: seq<Variable>, m: Model)
    returns (choice: seq<nat>)
    requires Fits(codec, types, p, variables) && EffectsInHorizon(p, variables)
    requires ScriptSatisfied(codec, p, variables, m)
    ensures IsCandidate(p, variables, choice) && !StateThrows(p, AssignmentOf(variables, choice))
    ensures AssignmentOf(variables, choice).Keys == set v | v in variables :: v.name
    ensures forall v :: v in variables ==>
      && v.name in m.vars && v.name in AssignmentOf(variables, choice)
      && Decode(codec, v.sort, m.vars[v.name]) == Some(AssignmentOf(variables, choice)[v.name])
    ensures RulesEnforced(p, variables) ==> Feasible(p, AssignmentOf(variables, choice))
  {
    choice := ModelGivesSolution(codec, types, p, variables, m);
    ReadsEncoding(codec, types, variables, choice, m);
    AssignedKeys(variables, choice);
    ChoiceConforms(codec, types, variables, choice);
    StateNeverRaises(codec, types, p, AssignmentOf(variables, choice));
    if StateThrows(p, AssignmentOf(variables, choice)) { StateThrowsRaises(p, AssignmentOf(variables, choice)); }
  }

  lemma CandidateSolves(p: Problem, variables: seq<Variable>, choice: seq<nat>)
    requires IsCandidate(p, variables, choice)
    ensures ReadsCandidate(p, variables, AssignmentOf(variables, choice))
    ensures Solves(p, variables, AssignmentOf(variables, choice)) <==> Feasible(p, AssignmentOf(variables, choice))
  {
    if Feasible(p, AssignmentOf(variables, choice)) { assert IsSolution(p, variables, choice); }
  }

  /** The first answers were models of infeasible assignments, each asked for with the earlier ones blocked. */
  ghost predicate RejectedInTurn(codec: Codec, p: Problem, variables: seq<Variable>, solver: Solver,
                                 rejected: seq<Assignment>)
  {
    forall k :: 0 <= k < |rejected| ==>
      && solver(rejected[..k]).Satisfiable? && ReadsModel(codec, variables, solver(rejected[..k]).model, rejected[k])
      && !Feasible(p, rejected[k])
  }

  /** The answer that follows the rejected models. */
  ghost predicate AnswerAfter(codec: Codec, p: Problem, variables: seq<Variable>, solver: Solver,
                              rejected: seq<Assignment>, maxRejections: nat, result: SmtResult)
  {
    if |rejected| == maxRejections + 1 then result == SmtUnknown(maxRejections + 1)
    else
      && |rejected| <= maxRejections && result.queries == |rejected| + 1
      && match solver(rejected)
         case Unsatisfiable => result.SmtUnsat?
         case Undetermined => result.SmtUnknown?
         case Satisfiable(m) =>
           && result.SmtSat? && ReadsModel(codec, variables, m, result.assignment)
           && Feasible(p, result.assignment)
  }

  /** One query: the assignment of the model, with the verdict of the state check. */
  method CheckModel(codec: Codec, ghost types: Signature, p: Problem, variables: seq<Variable>, m: Model)
    returns (a: Assignment, run: StateResult)
    requires Fits(codec, types, p, variables) && EffectsInHorizon(p, variables)
    requires ScriptSatisfied(codec, p, variables, m)
    ensures ReadsCandidate(p, variables, a) && !run.SimThrew?
    ensures ReadsModel(codec, variables, m, a) && (run.SimFeasible? <==> Feasible(p, a))
    ensures run.SimFeasible? <==> Solves(p, variables, a)
    ensures run.SimFeasible? ==> Describes(p, a, run)
    ensures RulesEnforced(p, variables) ==> run.SimFeasible?
  {
    ghost var choice := ModelReads(codec, types, p, variables, m);
    var read := ReadAssignment(codec, variables, m);
    a := read.value;
    OneReading(codec, variables, m, a, AssignmentOf(variables, choice));
    CandidateSolves(p, variables, choice);
    run := CheckStateSemantics(p, a);
  }

  /**
   * Asks for models until the state check accepts one: the infeasible ones are blocked in turn, and the first answer
   * that is not one of them decides. A SAT answer always is a solution of the finite search. When the state rules are
   * enforced nothing is blocked, and the answer is that of the finite search.
   */
  method SolveSmt(codec: Codec, ghost types: Signature, p: Problem, variables: seq<Variable>, solver: Solver,
                  maxRejections: nat)
    returns (result: SmtResult, ghost rejected: seq<Assignment>)
    requires Fits(codec, types, p, variables) && EffectsInHorizon(p, variables)
    requires AnswersScript(codec, p, variables, solver)
    ensures RejectedInTurn(codec, p, variables, solver, rejected)
    ensures AnswerAfter(codec, p, variables, solver, rejected, maxRejections, result)
    ensures result.SmtSat? ==> Solves(p, variables, result.assignment) && Describes(p, result.assignment, result.run)
    ensures solver([]).Unsatisfiable? ==> result == SmtUnsat(1) && NoSolution(p, variables, [])
    ensures RulesEnforced(p, variables) ==> result.queries == 1
    ensures RulesEnforced(p, variables) && !solver([]).Undetermined? ==>
      (result.SmtSat? <==> !NoSolution(p, variables, [])) && (result.SmtUnsat? <==> NoSolution(p, variables, []))
  {
    ScriptWithoutModel(codec, types, p, variables, solver);
    var blocked: seq<Assignment> := [];
    for iteration := 0 to maxRejections + 1
      invariant |blocked| == iteration && RejectedInTurn(codec, p, variables, solver, blocked)
      invariant iteration > 0 ==> !RulesEnforced(p, variables) && solver([]).Satisfiable?
    {
      assert iteration == 0 ==> blocked == [];
      rejected := blocked;
      match solver(blocked)
      case Unsatisfiable => return SmtUnsat(iteration + 1), rejected;
      case Undetermined => return SmtUnknown(iteration + 1), rejected;
      case Satisfiable(m) =>
        var a, run := CheckModel(codec, types, p, variables, m);
        if run.SimFeasible? {
          SolutionExists(p, variables, a);
          return SmtSat(a, iteration + 1, run), rejected;
        }
        OneMoreRejected(codec, p, variables, solver, blocked, a);
        blocked := blocked + [a];
    }
    rejected := blocked;
    result := SmtUnknown(maxRejections + 1);
  }

  lemma OneMoreRejected(codec: Codec, p: Problem, variables: seq<Variable>, solver: Solver, rejected: seq<Assignment>,
                        a: Assignment)
    requires RejectedInTurn(codec, p, variables, solver, rejected) && solver(rejected).Satisfiable?
    requires ReadsModel(codec, variables, solver(rejected).model, a) && !Feasible(p, a)
    ensures RejectedInTurn(codec, p, variables, solver, rejected + [a])
  {
    var more := rejected + [a];
    forall k | 0 <= k < |more| ensures more[..k] == rejected[..k] {
    }
    assert rejected[..|rejected|] == rejected;
  }

  lemma SolutionExists(p: Problem, variables: seq<Variable>, a: Assignment)
    requires Solves(p, variables, a)
    ensures !NoSolution(p, variables, [])
  {
    var choice :| IsSolution(p, variables, choice) && AssignmentOf(variables, choice) == a;
    assert [] <= choice;
  }

  lemma ScriptWithoutModel(codec: Codec, types: Signature, p: Problem, variables: seq<Variable>, solver: Solver)
    requires Fits(codec, types, p, variables) && AnswersScript(codec, p, variables, solver)
    ensures solver([]).Unsatisfiable? ==> NoSolution(p, variables, [])
  {
    if solver([]).Unsatisfiable? && !NoSolution(p, variables, []) {
      var choice :| IsSolution(p, variables, choice);
      SolutionGivesModel(codec, types, p, variables, choice);
    }
  }
}
