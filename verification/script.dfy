/** The SMT script of a bounded problem: how its models correspond to the solutions of the finite search. */
module Script {
  import opened Common
  import opened Expressions
  import opened Evaluator
  import opened Problems
  import opened State
  import opened Smt
  import opened StateEncoding
  import opened StateEquivalence
  import opened Finite

  // ----- The script

  function ValueTerm(codec: Codec, v: Variable, k: nat): Term
    requires k < |v.domain|
  {
    var t := LiteralTerm(codec, v.sort, v.domain[k]);
    if t.Ok? then t.value else Constant(B(false))
  }

  function DomainCases(codec: Codec, v: Variable): (ts: seq<Term>)
    ensures |ts| == |v.domain|
    ensures forall k :: 0 <= k < |ts| ==> ts[k] == EqualTerm(Declared(v.name), ValueTerm(codec, v, k))
  {
    seq(|v.domain|, k requires 0 <= k < |v.domain| => EqualTerm(Declared(v.name), ValueTerm(codec, v, k)))
  }

  /** The domain of a variable that is not boolean. */
  function DomainTerm(codec: Codec, v: Variable): Term {
    AnyTerm(DomainCases(codec, v))
  }

  /** Every declared constant has a value of its declared SMT sort. */
  ghost predicate WellTyped(variables: seq<Variable>, m: Model) {
    forall v :: v in variables ==> v.name in m.vars && (m.vars[v.name].B? <==> v.sort.BoolSort?)
  }

  /** A model of the declarations, domains, constraints and state assertions of the script. */
  ghost predicate ScriptSatisfied(codec: Codec, p: Problem, variables: seq<Variable>, m: Model) {
    && WellTyped(variables, m)
    && (forall v :: v in variables && !v.sort.BoolSort? ==> Satisfied(DomainTerm(codec, v), m))
    && (forall e :: e in p.constraints ==> Satisfied(T(codec, p, e), m))
    && (p.variables != [] ==> AllSatisfied(StateTerms(codec, p), m))
  }

  // ----- Problems in the scope of the script

  /** Domains hold values of their sorts, and both booleans. */
  ghost predicate DomainsFit(codec: Codec, types: Signature, variables: seq<Variable>) {
    && DistinctNames(variables)
    && (forall v :: v in variables ==>
          && v.name in types && types[v.name] == v.sort && v.domain != []
          && (forall x :: x in v.domain ==> HasSort(codec, v.sort, x))
          && (v.sort.BoolSort? ==> TRUE in v.domain && FALSE in v.domain))
    && (forall x :: x in types ==> exists v :: v in variables && v.name == x)
  }

  /** The problem is well-sorted and its symbols have domains. */
  ghost predicate Fits(codec: Codec, types: Signature, p: Problem, variables: seq<Variable>) {
    && WellSortedState(codec, types, p) && DomainsFit(codec, types, variables)
    && (forall e :: e in p.constraints ==> WellSorted(codec, types, p.events, e, BoolSort))
  }

  lemma VariableOf(codec: Codec, types: Signature, variables: seq<Variable>, x: string) returns (i: nat)
    requires DomainsFit(codec, types, variables) && x in types
    ensures i < |variables| && variables[i].name == x
  {
    var v :| v in variables && v.name == x;
    i :| 0 <= i < |variables| && variables[i] == v;
  }

  /** A total choice gives every symbol a value of its sort. */
  lemma ChoiceConforms(codec: Codec, types: Signature, variables: seq<Variable>, choice: seq<nat>)
    requires DomainsFit(codec, types, variables) && IsTotal(variables, choice)
    ensures Conforms(codec, types, AssignmentOf(variables, choice))
  {
    forall x | x in types
      ensures x in AssignmentOf(variables, choice) && HasSort(codec, types[x], AssignmentOf(variables, choice)[x])
    {
      var i := VariableOf(codec, types, variables, x);
      AssignedValue(variables, choice, i);
      assert variables[i] in variables && variables[i].domain[choice[i]] in variables[i].domain;
    }
  }

  ghost function EncodedVars(codec: Codec, types: Signature, a: Assignment): map<string, SmtValue>
    requires Conforms(codec, types, a)
  {
    map x | x in types :: Encode(codec, types[x], a[x])
  }

  /** The domain assertion of a variable says that it has the code of a domain value. */
  lemma DomainDenotes(codec: Codec, v: Variable, m: Model)
    requires v.name in m.vars && v.domain != [] && forall x :: x in v.domain ==> HasSort(codec, v.sort, x)
    ensures AsBool(Denote(DomainTerm(codec, v), m)) <==>
            exists k :: 0 <= k < |v.domain| && m.vars[v.name] == Encode(codec, v.sort, v.domain[k])
    ensures Denote(DomainTerm(codec, v), m).B?
  {
    var cases := DomainCases(codec, v);
    AnyDenotes(cases, m);
    forall k | 0 <= k < |cases|
      ensures Denote(cases[k], m) == B(m.vars[v.name] == Encode(codec, v.sort, v.domain[k]))
    {
      assert v.domain[k] in v.domain;
      EqualDenotes(Declared(v.name), ValueTerm(codec, v, k), m);
    }
    if k :| 0 <= k < |v.domain| && m.vars[v.name] == Encode(codec, v.sort, v.domain[k]) { assert cases[k] in cases; }
    if |cases| > 1 { OrDenotes(cases, m); }
  }

  // ----- From solutions to models

  /** The model that a solution gives: the codes of its values, and the snapshots of its run. */
  ghost function SolutionModel(codec: Codec, types: Signature, p: Problem, a: Assignment): Model
    requires Conforms(codec, types, a) && ValidProblem(p)
  {
    Model(EncodedVars(codec, types, a), RunCodes(codec, p, a))
  }

  lemma ChoiceInDomains(codec: Codec, types: Signature, variables: seq<Variable>, choice: seq<nat>, m: Model)
    requires DomainsFit(codec, types, variables) && IsTotal(variables, choice)
    requires EncodesAssignment(codec, types, AssignmentOf(variables, choice), m)
    ensures WellTyped(variables, m)
    ensures forall v :: v in variables && !v.sort.BoolSort? ==> Satisfied(DomainTerm(codec, v), m)
  {
    forall v | v in variables
      ensures v.name in m.vars && (m.vars[v.name].B? <==> v.sort.BoolSort?)
      ensures !v.sort.BoolSort? ==> Satisfied(DomainTerm(codec, v), m)
    {
      var i :| 0 <= i < |variables| && variables[i] == v;
      AssignedValue(variables, choice, i);
      DomainDenotes(codec, v, m);
    }
  }

  lemma ConstraintsDenote(codec: Codec, types: Signature, p: Problem, a: Assignment, m: Model)
    requires EncodesAssignment(codec, types, a, m)
    requires forall e :: e in p.constraints ==> WellSorted(codec, types, p.events, e, BoolSort)
    ensures (forall e :: e in p.constraints ==> Satisfied(T(codec, p, e), m)) <==> Satisfies(p, a)
  {
    forall e | e in p.constraints ensures Satisfied(T(codec, p, e), m) <==> IsTrue(e, p.events, a) {
      BoolDenotes(codec, types, p, e, a, m);
    }
  }

  /** Every solution of the finite search gives a model of the script. */
  lemma SolutionGivesModel(codec: Codec, types: Signature, p: Problem, variables: seq<Variable>, choice: seq<nat>)
    requires Fits(codec, types, p, variables) && IsSolution(p, variables, choice)
    ensures Conforms(codec, types, AssignmentOf(variables, choice))
    ensures ScriptSatisfied(codec, p, variables, SolutionModel(codec, types, p, AssignmentOf(variables, choice)))
  {
    var a := AssignmentOf(variables, choice);
    ChoiceConforms(codec, types, variables, choice);
    var m := SolutionModel(codec, types, p, a);
    ChoiceInDomains(codec, types, variables, choice, m);
    ConstraintsDenote(codec, types, p, a, m);
    if p.variables != [] { RunSatisfiesEncoding(codec, types, p, a, EncodedVars(codec, types, a)); }
  }

  // ----- From models to solutions

  ghost predicate IsCode(codec: Codec, v: Variable, value: SmtValue, k: nat) {
    k < |v.domain| && HasSort(codec, v.sort, v.domain[k]) && value == Encode(codec, v.sort, v.domain[k])
  }

  lemma ModelPicksValue(codec: Codec, types: Signature, p: Problem, variables: seq<Variable>, m: Model, i: nat)
    requires DomainsFit(codec, types, variables) && ScriptSatisfied(codec, p, variables, m) && i < |variables|
    ensures variables[i].name in m.vars && exists k: nat :: IsCode(codec, variables[i], m.vars[variables[i].name], k)
  {
    var v := variables[i];
    assert v in variables;
    if v.sort.BoolSort? {
      var x := Bool(m.vars[v.name].b);
      assert x in v.domain;
      var k: nat :| k < |v.domain| && v.domain[k] == x;
      assert IsCode(codec, v, m.vars[v.name], k);
    } else {
      assert Satisfied(DomainTerm(codec, v), m);
      DomainDenotes(codec, v, m);
      var k: nat :| k < |v.domain| && m.vars[v.name] == Encode(codec, v.sort, v.domain[k]);
      assert v.domain[k] in v.domain && IsCode(codec, v, m.vars[v.name], k);
    }
  }

  ghost function Decoded(codec: Codec, v: Variable, value: SmtValue): nat {
    if k: nat :| IsCode(codec, v, value, k) then k else 0
  }

  /** Decoding a model: one domain value for each variable. */
  lemma ModelGivesChoice(codec: Codec, types: Signature, p: Problem, variables: seq<Variable>, m: Model)
    returns (choice: seq<nat>)
    requires DomainsFit(codec, types, variables) && ScriptSatisfied(codec, p, variables, m)
    ensures IsTotal(variables, choice) && EncodesAssignment(codec, types, AssignmentOf(variables, choice), m)
  {
    forall i | 0 <= i < |variables|
      ensures variables[i].name in m.vars && exists k: nat :: IsCode(codec, variables[i], m.vars[variables[i].name], k)
    {
      ModelPicksValue(codec, types, p, variables, m, i);
    }
    choice := seq(|variables|, i requires 0 <= i < |variables| && variables[i].name in m.vars =>
                    Decoded(codec, variables[i], m.vars[variables[i].name]));
    assert forall i :: 0 <= i < |variables| ==> IsCode(codec, variables[i], m.vars[variables[i].name], choice[i]);
    ChoiceConforms(codec, types, variables, choice);
    forall x | x in types
      ensures x in m.vars && m.vars[x] == Encode(codec, types[x], AssignmentOf(variables, choice)[x])
    {
      var i := VariableOf(codec, types, variables, x);
      AssignedValue(variables, choice, i);
      assert variables[i] in variables;
    }
  }

  /** Active effects of every assignment that satisfies the constraints stay inside the horizon. */
  ghost predicate EffectsInHorizon(p: Problem, variables: seq<Variable>) {
    forall choice :: IsTotal(variables, choice) && Satisfies(p, AssignmentOf(variables, choice)) ==>
      CyclesInRange(p, AssignmentOf(variables, choice))
  }

  // ----- Problems without state variables

  /** What guarded rules demand when no cell exists: guards are empty, so the rules are plain implications. */
  ghost predicate RulesHold(p: Problem, a: Assignment) {
    && (forall f :: f in p.forwards && IsTrue(f.antecedent, p.events, a) ==> IsTrue(f.consequent, p.events, a))
    && (forall s :: s in p.supports && IsTrue(s.antecedent, p.events, a) ==> SomeHolds(p, a, s.supports))
  }

  ghost predicate SomeHolds(p: Problem, a: Assignment, candidates: seq<SupportCandidate>) {
    exists k :: k in candidates && IsTrue(k.expression, p.events, a)
  }

  lemma GuardsNeedCells(codec: Codec, types: Signature, p: Problem, predicates: seq<GuardPredicate>)
    requires predicates != [] && PredicatesSorted(codec, types, p, predicates)
    ensures p.variables != []
  {
    assert predicates[0] in predicates;
  }

  /** Without cells no guard can be stated. */
  lemma NoGuards(codec: Codec, types: Signature, p: Problem, predicates: seq<GuardPredicate>)
    requires p.variables == [] && PredicatesSorted(codec, types, p, predicates)
    ensures predicates == []
  {
    if predicates != [] { GuardsNeedCells(codec, types, p, predicates); }
  }

  lemma {:induction false} StatelessSupport(codec: Codec, types: Signature, p: Problem, a: Assignment,
                                            candidates: seq<SupportCandidate>)
    requires Conforms(codec, types, a) && p.variables == []
    requires forall k :: k in candidates ==>
      WellSorted(codec, types, p.events, k.expression, BoolSort) && PredicatesSorted(codec, types, p, k.predicates)
    ensures SupportScan(p, a, candidates) <==> SomeHolds(p, a, candidates)
  {
    if candidates != [] {
      var (first, rest) := (candidates[0], candidates[1..]);
      assert candidates == [first] + rest && first in candidates;
      assert forall k :: k in candidates <==> k == first || k in rest;
      StatelessSupport(codec, types, p, a, rest);
      NoGuards(codec, types, p, first.predicates);
      BoolDenotes(codec, types, p, first.expression, a, Model(EncodedVars(codec, types, a), map[]));
      assert GuardScan(p, a, first.predicates) == GuardsHold;
    }
  }

  lemma StatelessRules(codec: Codec, types: Signature, p: Problem, a: Assignment)
    requires WellSortedState(codec, types, p) && Conforms(codec, types, a) && p.variables == []
    ensures forall f :: f in p.forwards ==>
      (ForwardOk(p, a, f) <==> (IsTrue(f.antecedent, p.events, a) ==> IsTrue(f.consequent, p.events, a)))
    ensures forall s :: s in p.supports ==>
      (SupportOk(p, a, s) <==> (IsTrue(s.antecedent, p.events, a) ==> SomeHolds(p, a, s.supports)))
  {
    var m := Model(EncodedVars(codec, types, a), map[]);
    forall f | f in p.forwards
      ensures ForwardOk(p, a, f) <==> (IsTrue(f.antecedent, p.events, a) ==> IsTrue(f.consequent, p.events, a))
    {
      BoolDenotes(codec, types, p, f.antecedent, a, m);
      NoGuards(codec, types, p, f.predicates);
    }
    forall s | s in p.supports
      ensures SupportOk(p, a, s) <==> (IsTrue(s.antecedent, p.events, a) ==> SomeHolds(p, a, s.supports))
    {
      BoolDenotes(codec, types, p, s.antecedent, a, m);
      StatelessSupport(codec, types, p, a, s.supports);
    }
  }

  /** Without state variables an assignment is feasible exactly when every guarded rule holds as an implication. */
  lemma StatelessFeasibility(codec: Codec, types: Signature, p: Problem, a: Assignment)
    requires WellSortedState(codec, types, p) && Conforms(codec, types, a) && p.variables == []
    ensures Feasible(p, a) <==> RulesHold(p, a)
  {
    StatelessRules(codec, types, p, a);
    forall r | r in p.requirements ensures !Declares(p, r.state) { }
    forall u | u in p.updates ensures !Declares(p, u.state) { }
  }

  /** The script leaves guarded rules out only without state variables, and then they hold of every candidate. */
  ghost predicate RulesEnforced(p: Problem, variables: seq<Variable>) {
    p.variables != [] || forall choice :: IsCandidate(p, variables, choice) ==>
      RulesHold(p, AssignmentOf(variables, choice))
  }

  /** A total choice that makes every constraint true. */
  ghost predicate IsCandidate(p: Problem, variables: seq<Variable>, choice: seq<nat>) {
    IsTotal(variables, choice) && Satisfies(p, AssignmentOf(variables, choice))
  }

  /** The model is the encoding of a solution. */
  ghost predicate DecodesToSolution(codec: Codec, types: Signature, p: Problem, variables: seq<Variable>, m: Model) {
    exists choice :: IsSolution(p, variables, choice)
        && EncodesAssignment(codec, types, AssignmentOf(variables, choice), m)
  }

  /** A model decodes to a candidate, and to a solution when the state rules are enforced. */
  lemma ModelGivesSolution(codec: Codec, types: Signature, p: Problem, variables: seq<Variable>, m: Model)
    returns (choice: seq<nat>)
    requires Fits(codec, types, p, variables) && EffectsInHorizon(p, variables)
    requires ScriptSatisfied(codec, p, variables, m)
    ensures IsCandidate(p, variables, choice)
    ensures EncodesAssignment(codec, types, AssignmentOf(variables, choice), m)
    ensures IsSolution(p, variables, choice) <==> p.variables != [] || RulesHold(p, AssignmentOf(variables, choice))
  {
    choice := ModelGivesChoice(codec, types, p, variables, m);
    var a := AssignmentOf(variables, choice);
    ConstraintsDenote(codec, types, p, a, m);
    if p.variables == [] {
      StatelessFeasibility(codec, types, p, a);
    } else {
      EncodingIsSound(codec, types, p, a, m);
    }
  }

  /** Every candidate of a problem without state variables encodes to a model. */
  lemma CandidateGivesModel(codec: Codec, types: Signature, p: Problem, variables: seq<Variable>, choice: seq<nat>)
    requires Fits(codec, types, p, variables) && IsCandidate(p, variables, choice) && p.variables == []
    ensures Conforms(codec, types, AssignmentOf(variables, choice))
    ensures ScriptSatisfied(codec, p, variables, SolutionModel(codec, types, p, AssignmentOf(variables, choice)))
  {
    var a := AssignmentOf(variables, choice);
    ChoiceConforms(codec, types, variables, choice);
    var m := SolutionModel(codec, types, p, a);
    ChoiceInDomains(codec, types, variables, choice, m);
    ConstraintsDenote(codec, types, p, a, m);
  }

  lemma AssignedKeys(variables: seq<Variable>, choice: seq<nat>)
    requires IsTotal(variables, choice)
    ensures AssignmentOf(variables, choice).Keys == set v | v in variables :: v.name
  {
    AssignedNames(variables, choice);
    forall v | v in variables ensures v.name in AssignmentOf(variables, choice) {
      var i :| 0 <= i < |variables| && variables[i] == v;
    }
  }

  /** Two choices with one encoding are one assignment. */
  lemma SameEncoding(codec: Codec, types: Signature, variables: seq<Variable>, choice: seq<nat>, other: seq<nat>,
                     m: Model)
    requires DomainsFit(codec, types, variables) && IsTotal(variables, choice) && IsTotal(variables, other)
    requires EncodesAssignment(codec, types, AssignmentOf(variables, choice), m)
    requires EncodesAssignment(codec, types, AssignmentOf(variables, other), m)
    ensures AssignmentOf(variables, choice) == AssignmentOf(variables, other)
  {
    AssignedKeys(variables, choice);
    AssignedKeys(variables, other);
    SameValues(codec, types, AssignmentOf(variables, choice), AssignmentOf(variables, other), m);
    assert forall v :: v in variables ==> v.name in types;
  }

  lemma SameValues(codec: Codec, types: Signature, a: Assignment, b: Assignment, m: Model)
    requires EncodesAssignment(codec, types, a, m) && EncodesAssignment(codec, types, b, m)
    ensures forall x :: x in types ==> a[x] == b[x]
  {
    forall x | x in types ensures a[x] == b[x] { EncodeInjective(codec, types[x], a[x], b[x]); }
  }

  /** Every model of the script decodes to a solution exactly when the state rules are enforced. */
  lemma ModelsDecode(codec: Codec, types: Signature, p: Problem, variables: seq<Variable>)
    requires Fits(codec, types, p, variables) && EffectsInHorizon(p, variables)
    ensures (forall m :: ScriptSatisfied(codec, p, variables, m) ==> DecodesToSolution(codec, types, p, variables, m))
            <==> RulesEnforced(p, variables)
  {
    if RulesEnforced(p, variables) {
      forall m | ScriptSatisfied(codec, p, variables, m) ensures DecodesToSolution(codec, types, p, variables, m) {
        var choice := ModelGivesSolution(codec, types, p, variables, m);
      }
    } else {
      var choice :| IsCandidate(p, variables, choice) && !RulesHold(p, AssignmentOf(variables, choice));
      CandidateGivesModel(codec, types, p, variables, choice);
      var m := SolutionModel(codec, types, p, AssignmentOf(variables, choice));
      if DecodesToSolution(codec, types, p, variables, m) {
        var other :| IsSolution(p, variables, other)
            && EncodesAssignment(codec, types, AssignmentOf(variables, other), m);
        SameEncoding(codec, types, variables, choice, other, m);
        StatelessFeasibility(codec, types, p, AssignmentOf(variables, other));
      }
    }
  }

  /** Where candidates exist, one of them satisfies the state rules that the script leaves out. */
  ghost predicate RulesSatisfiable(p: Problem, variables: seq<Variable>) {
    p.variables != [] || forall choice :: IsCandidate(p, variables, choice) ==>
      exists other :: IsCandidate(p, variables, other) && RulesHold(p, AssignmentOf(variables, other))
  }

  /** A problem without state variables has a solution exactly when some candidate satisfies its rules. */
  lemma StatelessSolutions(codec: Codec, types: Signature, p: Problem, variables: seq<Variable>)
    requires Fits(codec, types, p, variables) && p.variables == []
    ensures NoSolution(p, variables, []) <==>
            !exists choice :: IsCandidate(p, variables, choice) && RulesHold(p, AssignmentOf(variables, choice))
  {
    forall choice | IsCandidate(p, variables, choice)
      ensures IsSolution(p, variables, choice) <==> RulesHold(p, AssignmentOf(variables, choice))
    {
      ChoiceConforms(codec, types, variables, choice);
      StatelessFeasibility(codec, types, p, AssignmentOf(variables, choice));
    }
    if choice :| IsCandidate(p, variables, choice) && RulesHold(p, AssignmentOf(variables, choice)) {
      assert [] <= choice;
    }
  }

  /**
   * The script is satisfiable exactly when the finite search has a solution, if and only if there are state variables
   * or the guarded rules that the script leaves out hold of some candidate whenever there is one.
   */
  lemma ScriptAgrees(codec: Codec, types: Signature, p: Problem, variables: seq<Variable>)
    requires Fits(codec, types, p, variables) && EffectsInHorizon(p, variables)
    ensures ((exists m :: ScriptSatisfied(codec, p, variables, m)) <==> !NoSolution(p, variables, []))
            <==> RulesSatisfiable(p, variables)
  {
    if !NoSolution(p, variables, []) {
      var choice :| IsSolution(p, variables, choice);
      SolutionGivesModel(codec, types, p, variables, choice);
    }
    if m :| ScriptSatisfied(codec, p, variables, m) {
      var choice := ModelGivesSolution(codec, types, p, variables, m);
      assert [] <= choice;
    }
    if p.variables == [] {
      StatelessSolutions(codec, types, p, variables);
      if choice :| IsCandidate(p, variables, choice) { CandidateGivesModel(codec, types, p, variables, choice); }
    }
  }
}
