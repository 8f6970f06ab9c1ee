/** On well-sorted problems the finite search always decides; for built problems the script agrees with it. */
module Decision {
  import opened Common
  import opened Expressions
  import opened Evaluator
  import opened Problems
  import opened Rules
  import opened State
  import opened Smt
  import opened StateEncoding
  import opened StateEquivalence
  import opened Finite
  import opened Script
  import RuleCompiler
  import ProblemTheory

  // ----- Well-sorted expressions do not raise

  /** The symbols that are assigned have values of their sorts. */
  ghost predicate PartlyConforms(codec: Codec, types: Signature, a: Assignment) {
    forall x :: x in types && x in a ==> HasSort(codec, types[x], a[x])
  }

  /** Unknown, or a value of the sort. */
  predicate Sorted(codec: Codec, s: Sort, v: Outcome) {
    v.Unknown? || (v.Known? && HasSort(codec, s, v.value))
  }

  /** A well-sorted expression never raises, whatever is still unassigned. */
  lemma {:induction false} WellSortedNeverRaises(codec: Codec, types: Signature, events: Events, e: Expr, s: Sort,
                                                 a: Assignment)
    requires WellSorted(codec, types, events, e, s) && PartlyConforms(codec, types, a)
    ensures Sorted(codec, s, Evaluate(e, events, a))
    decreases e
  {
    match e
    case Literal(_, _) =>
    case Symbol(_, _) =>
    case EventField(_, _, _) =>
    case Unary(_, operand) =>
      WellSortedNeverRaises(codec, types, events, operand, s, a);
    case Binary(op, left, right) =>
      var t := OperandSort(codec, types, events, op, left, right, s);
      WellSortedNeverRaises(codec, types, events, left, t, a);
      WellSortedNeverRaises(codec, types, events, right, t, a);
      BinaryNeverRaises(codec, op, s, t, Evaluate(left, events, a), Evaluate(right, events, a));
    case Nary(op, operands) =>
      var t :| AllWellSorted(codec, types, events, operands, t) && (op.Distinct? || t == BoolSort);
      NoneRaise(codec, types, events, operands, t, a);
    case Ite(condition, thenExpr, elseExpr) =>
      WellSortedNeverRaises(codec, types, events, condition, BoolSort, a);
      WellSortedNeverRaises(codec, types, events, thenExpr, s, a);
      WellSortedNeverRaises(codec, types, events, elseExpr, s, a);
    case Call(f, arguments, _) =>
      var t :| AllWellSorted(codec, types, events, arguments, t);
      NoneRaise(codec, types, events, arguments, t, a);
      CallNeverRaises(codec, f, t, EvaluateAll(arguments, events, a));
  }

  lemma OperandSort(codec: Codec, types: Signature, events: Events, op: BinaryOp, left: Expr, right: Expr, s: Sort)
    returns (t: Sort)
    requires WellSorted(codec, types, events, Binary(op, left, right), s)
    ensures WellSorted(codec, types, events, left, t) && WellSorted(codec, types, events, right, t)
    ensures SortsFit(op, s, t)
  {
    if op in {Eq, Ne} {
      t :| WellSorted(codec, types, events, left, t) && WellSorted(codec, types, events, right, t);
    } else {
      t := if op in {And, Or, Implies, Xor} then BoolSort else IntSort;
    }
  }

  /** The operator takes operands of sort `t` to sort `s`. */
  predicate SortsFit(op: BinaryOp, s: Sort, t: Sort) {
    if op in {And, Or, Implies, Xor} then s == BoolSort && t == BoolSort
    else if op in {Eq, Ne} then s == BoolSort
    else if op in {Lt, Le, Gt, Ge} then s == BoolSort && t == IntSort
    else op in {Add, Sub, Mul} && s == IntSort && t == IntSort
  }

  lemma BinaryNeverRaises(codec: Codec, op: BinaryOp, s: Sort, t: Sort, v: Outcome, w: Outcome)
    requires SortsFit(op, s, t) && Sorted(codec, t, v) && Sorted(codec, t, w)
    ensures Sorted(codec, s, EvalBinary(op, v, w))
  {
  }

  lemma CallNeverRaises(codec: Codec, f: string, t: Sort, vs: seq<Outcome>)
    requires f in SAME_FUNCTIONS || (f == "same_block" && |vs| == 2)
    requires forall v :: v in vs ==> Sorted(codec, t, v)
    ensures Sorted(codec, BoolSort, EvalCall(f, vs))
  {
    if f == "same_block" && Outcome.Unknown !in vs {
      assert vs[0] in vs && vs[1] in vs;
      KnownOutcomes(vs, [vs[0].value, vs[1].value]);
    }
  }

  lemma {:induction false} NoneRaise(codec: Codec, types: Signature, events: Events, es: seq<Expr>, s: Sort,
                                     a: Assignment)
    requires AllWellSorted(codec, types, events, es, s) && PartlyConforms(codec, types, a)
    ensures forall v :: v in EvaluateAll(es, events, a) ==> Sorted(codec, s, v)
    decreases es
  {
    if es != [] {
      WellSortedNeverRaises(codec, types, events, es[0], s, a);
      NoneRaise(codec, types, events, es[1..], s, a);
    }
  }

  /** A total conforming assignment decides every well-sorted condition. */
  lemma WellSortedDecided(codec: Codec, types: Signature, events: Events, e: Expr, a: Assignment)
    requires WellSorted(codec, types, events, e, BoolSort) && Conforms(codec, types, a)
    ensures Decided(e, events, a)
  {
    TranslationAgrees(codec, types, events, e, BoolSort, a, Model(EncodedVars(codec, types, a), map[]));
  }

  // ----- Well-sorted states do not raise

  lemma SortedValuesCompare(codec: Codec, s: Sort, op: BinaryOp, x: Value, y: Value)
    requires IsComparison(op) && HasSort(codec, s, x) && HasSort(codec, s, y) && (op in {Eq, Ne} || s == IntSort)
    ensures EvalStrict(op, x, y).Known?
  {
  }

  lemma CellIsSorted(codec: Codec, types: Signature, p: Problem, a: Assignment, m: Model, state: string, s: Sort,
                     c: nat)
    requires Setting(codec, types, p, a, m) && CellSort(p, state, s)
    ensures state in PreState(p, a, c) && HasSort(codec, s, PreState(p, a, c)[state])
  {
    CellsAlwaysSorted(codec, types, p, a, m, c);
  }

  lemma SortedComparison(codec: Codec, s: Sort, p: Problem, a: Assignment, state: string, cycle: Expr, op: BinaryOp,
                         expected: Expr)
    requires Ev(p, a, cycle).Known? && Ev(p, a, expected).Known? && HasSort(codec, s, Ev(p, a, expected).value)
    requires IsComparison(op) && (op in {Eq, Ne} || s == IntSort)
    requires forall c: nat :: state in PreState(p, a, c) && HasSort(codec, s, PreState(p, a, c)[state])
    ensures !ComparisonRaises(p, a, state, cycle, op, expected)
  {
    if ValidCycle(Ev(p, a, cycle), p.horizon) {
      SortedValuesCompare(codec, s, op, PreState(p, a, Ev(p, a, cycle).value.n)[state], Ev(p, a, expected).value);
    }
  }

  lemma ComparisonNeverRaises(codec: Codec, types: Signature, p: Problem, a: Assignment, m: Model, state: string,
                              cycle: Expr, op: BinaryOp, expected: Expr)
    requires Setting(codec, types, p, a, m) && ComparisonSorted(codec, types, p, state, cycle, op, expected)
    ensures !ComparisonRaises(p, a, state, cycle, op, expected)
  {
    var s :| CellSort(p, state, s) && WellSorted(codec, types, p.events, expected, s)
        && (op in {Eq, Ne} || s == IntSort);
    TranslationAgrees(codec, types, p.events, expected, s, a, m);
    CycleDenotes(codec, types, p, cycle, 0, a, m);
    forall c: nat ensures state in PreState(p, a, c) && HasSort(codec, s, PreState(p, a, c)[state]) {
      CellIsSorted(codec, types, p, a, m, state, s, c);
    }
    SortedComparison(codec, s, p, a, state, cycle, op, expected);
  }

  lemma GuardsNeverRaise(codec: Codec, types: Signature, p: Problem, a: Assignment, m: Model,
                         predicates: seq<GuardPredicate>)
    requires Setting(codec, types, p, a, m) && PredicatesSorted(codec, types, p, predicates)
    ensures !GuardsRaise(p, a, predicates)
  {
    forall g | g in predicates ensures !ComparisonRaises(p, a, g.state, g.cycle, g.op, g.expected) {
      ComparisonNeverRaises(codec, types, p, a, m, g.state, g.cycle, g.op, g.expected);
    }
  }

  lemma EffectsNeverRaise(codec: Codec, types: Signature, p: Problem, a: Assignment, m: Model)
    requires Setting(codec, types, p, a, m)
    ensures forall v :: v in p.variables ==> !Ev(p, a, v.initial).Raised?
    ensures forall r :: r in p.requirements ==> !RequirementRaises(p, a, r)
    ensures forall u :: u in p.updates ==> !UpdateRaises(p, a, u)
  {
    InitialSnapshots(codec, types, p, a, m);
    forall r | r in p.requirements ensures !RequirementRaises(p, a, r) {
      BoolDenotes(codec, types, p, r.activation, a, m);
      ComparisonNeverRaises(codec, types, p, a, m, r.state, r.cycle, r.op, r.expected);
    }
    forall u | u in p.updates ensures !UpdateRaises(p, a, u) {
      var v := CellOfUpdate(codec, types, p, u);
      UpdateDenotes(codec, types, p, a, m, u, v, 0);
      CycleDenotes(codec, types, p, u.cycle, 0, a, m);
    }
  }

  lemma RulesNeverRaise(codec: Codec, types: Signature, p: Problem, a: Assignment, m: Model)
    requires Setting(codec, types, p, a, m)
    ensures forall f :: f in p.forwards ==> !ForwardRaises(p, a, f)
    ensures forall s :: s in p.supports ==> !SupportRaises(p, a, s)
  {
    forall f | f in p.forwards ensures !ForwardRaises(p, a, f) {
      BoolDenotes(codec, types, p, f.antecedent, a, m);
      BoolDenotes(codec, types, p, f.consequent, a, m);
      GuardsNeverRaise(codec, types, p, a, m, f.predicates);
    }
    forall s | s in p.supports ensures !SupportRaises(p, a, s) {
      BoolDenotes(codec, types, p, s.antecedent, a, m);
      forall k | k in s.supports ensures !Ev(p, a, k.expression).Raised? && !GuardsRaise(p, a, k.predicates) {
        BoolDenotes(codec, types, p, k.expression, a, m);
        GuardsNeverRaise(codec, types, p, a, m, k.predicates);
      }
    }
  }

  lemma StateNeverRaises(codec: Codec, types: Signature, p: Problem, a: Assignment)
    requires WellSortedState(codec, types, p) && Conforms(codec, types, a)
    ensures !StateRaises(p, a)
  {
    var m := Model(EncodedVars(codec, types, a), map[]);
    EffectsNeverRaise(codec, types, p, a, m);
    RulesNeverRaise(codec, types, p, a, m);
  }

  // ----- The search decides

  /** Choices of fewer variables still give values of the right sorts. */
  lemma PrefixConforms(codec: Codec, types: Signature, variables: seq<Variable>, choice: seq<nat>)
    requires DomainsFit(codec, types, variables) && IsChoice(variables, choice)
    ensures PartlyConforms(codec, types, AssignmentOf(variables, choice))
  {
    AssignedNames(variables, choice);
    forall x | x in types && x in AssignmentOf(variables, choice)
      ensures HasSort(codec, types[x], AssignmentOf(variables, choice)[x])
    {
      var i :| 0 <= i < |choice| && variables[i].name == x;
      AssignedValue(variables, choice, i);
      assert variables[i] in variables && variables[i].domain[choice[i]] in variables[i].domain;
    }
  }

  /** The search of a well-sorted problem neither raises nor leaves constraints unknown; only the limit can stop it. */
  lemma SearchDecides(codec: Codec, types: Signature, p: Problem, variables: seq<Variable>)
    requires Fits(codec, types, p, variables)
    ensures !Raises(p, variables) && Quiet(p, variables, []) && !UnknownBelow(p, variables, [])
  {
    forall choice, e | IsChoice(variables, choice) && e in p.constraints
      ensures !Evaluate(e, p.events, AssignmentOf(variables, choice)).Raised?
    {
      PrefixConforms(codec, types, variables, choice);
      WellSortedNeverRaises(codec, types, p.events, e, BoolSort, AssignmentOf(variables, choice));
    }
    forall choice | IsTotal(variables, choice) ensures !StateRaises(p, AssignmentOf(variables, choice)) {
      ChoiceConforms(codec, types, variables, choice);
      StateNeverRaises(codec, types, p, AssignmentOf(variables, choice));
    }
    forall choice, e | IsTotal(variables, choice) && e in p.constraints
      ensures !Evaluate(e, p.events, AssignmentOf(variables, choice)).Unknown?
    {
      ChoiceConforms(codec, types, variables, choice);
      WellSortedDecided(codec, types, p.events, e, AssignmentOf(variables, choice));
    }
    QuietUnlessRaises(p, variables, []);
  }

  lemma BuiltEffectsInHorizon(p: Problem, variables: seq<Variable>, universe: seq<NamedEvent>, given: set<Expr>,
                              rules: seq<Rule>, parts: seq<Instantiation>)
    requires RuleCompiler.Built(p, universe, given, rules, parts)
    requires forall k :: 0 <= k < |rules| ==> ValidRule(rules[k]) && ProblemTheory.Anchorable(rules[k], universe)
    ensures EffectsInHorizon(p, variables)
  {
    forall choice | IsTotal(variables, choice) && Satisfies(p, AssignmentOf(variables, choice))
      ensures CyclesInRange(p, AssignmentOf(variables, choice))
    {
      ProblemTheory.BuiltCyclesInRange(p, universe, given, rules, parts, AssignmentOf(variables, choice));
    }
  }

  /**
   * In a built problem the cycle bounds keep the effects inside the horizon, so the script agrees with the search
   * exactly when there are state variables or some candidate satisfies the rules that the script leaves out.
   */
  lemma BuiltScriptAgrees(codec: Codec, types: Signature, p: Problem, variables: seq<Variable>,
                          universe: seq<NamedEvent>, given: set<Expr>, rules: seq<Rule>, parts: seq<Instantiation>)
    requires Fits(codec, types, p, variables) && RuleCompiler.Built(p, universe, given, rules, parts)
    requires forall k :: 0 <= k < |rules| ==> ValidRule(rules[k]) && ProblemTheory.Anchorable(rules[k], universe)
    ensures ((exists m :: ScriptSatisfied(codec, p, variables, m)) <==> !NoSolution(p, variables, []))
            <==> RulesSatisfiable(p, variables)
  {
    BuiltEffectsInHorizon(p, variables, universe, given, rules, parts);
    ScriptAgrees(codec, types, p, variables);
  }

  // ----- What the script leaves out

  /** A state-guarded rule without inputs and guards: some event of a type occurs. */
  const DEMAND :=
    Rule([], [Role("made", "Made")], Literal(TRUE, BoolSort), Literal(TRUE, BoolSort), [], [], [], false, true)

  /** What it compiles to when there is no event of the type. */
  const IMPOSSIBLE := GuardedForward(Literal(TRUE, BoolSort), [], Literal(FALSE, BoolSort))

  const COMPILED := Instantiation([], [], [], [IMPOSSIBLE], [], [])

  const STATELESS := Problem(map[], [], 0, [], [], [], [IMPOSSIBLE], [])

  lemma DemandIsCompiled()
    ensures ValidRule(DEMAND) && RuleCompiler.RuleCompiled(DEMAND, [], COMPILED)
  {
    var ins, outs: seq<seq<Id>> := [[]], [];
    assert Tuples(DEMAND.inputs, [], ins) by {
      forall t ensures t in ins <==> IsTuple(DEMAND.inputs, [], t) { }
    }
    assert Tuples(DEMAND.outputs, [], outs) by {
      forall t ensures !IsTuple(DEMAND.outputs, [], t) {
        if |t| == 1 { assert t[0] !in IdsOfType([], DEMAND.outputs[0].eventType); }
      }
    }
    assert ForwardGuarded(DEMAND, [], outs) == IMPOSSIBLE by {
      assert Enabling(DEMAND, []) == [Literal(TRUE, BoolSort)];
      assert GuardsOf(DEMAND, Bind(DEMAND.inputs, [])) == [];
    }
    assert Compiled(DEMAND, ins, outs, COMPILED);
  }

  lemma StatelessIsBuilt()
    ensures RuleCompiler.Built(STATELESS, [], {}, [DEMAND], [COMPILED])
  {
    DemandIsCompiled();
    assert [COMPILED][..0] == [];
  }

  /**
   * The problem of one state-guarded rule without state variables: the script leaves the rule out and is satisfiable,
   * although nothing is feasible.
   */
  lemma StatelessGuardsAreDropped()
    ensures ValidRule(DEMAND) && RuleCompiler.Built(STATELESS, [], {}, [DEMAND], [COMPILED])
    ensures ScriptSatisfied(map[], STATELESS, [], Model(map[], map[])) && NoSolution(STATELESS, [], [])
    ensures !RulesEnforced(STATELESS, []) && !RulesSatisfiable(STATELESS, [])
  {
    DemandIsCompiled();
    StatelessIsBuilt();
    assert IMPOSSIBLE in STATELESS.forwards;
    forall a ensures !Feasible(STATELESS, a) && !RulesHold(STATELESS, a) {
      assert !ForwardOk(STATELESS, a, IMPOSSIBLE);
    }
    assert IsCandidate(STATELESS, [], []);
  }
}
