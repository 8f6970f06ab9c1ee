/** Reports of built problems: when they agree with the run, and when they never raise. */
module Reports {
  import opened Common
  import opened Expressions
  import opened Evaluator
  import opened Problems
  import opened Rules
  import opened State
  import opened Completion
  import opened Smt
  import opened StateEncoding
  import opened StateEquivalence
  import opened RuleCompiler
  import opened RuleMeaning
  import opened ProblemTheory
  import opened Script
  import opened Decision
  import opened SolutionMeaning

  // ----- Guards of firing rules stay inside the horizon

  lemma FiringInRange(rule: Rule, universe: seq<NamedEvent>, i: seq<Id>, o: seq<Id>, p: Problem, a: Assignment)
    requires AnchorsReady(rule, universe, p.horizon, a) && p.events == EventMap(universe)
    requires IsTuple(rule.inputs, universe, i) && IsTuple(rule.outputs, universe, o)
    requires IsTrue(FiringOf(rule, i, o).expression, p.events, a)
    ensures GuardsInRange(p, a, FiringOf(rule, i, o).predicates)
  {
    FiringMeans(rule, i, o, p.events, a);
    forall q | q in rule.requirements ensures ValidCycle(Ev(p, a, CycleOf(BindAll(rule, i, o), q.at)), p.horizon) {
      AnchorInRange(rule, universe, i, o, q.at, p.horizon, a);
    }
    GuardCyclesInRange(rule, BindAll(rule, i, o), p, a);
  }

  /** The rule and the tuples of a rule instance of a built problem. */
  lemma OriginOfFiring(p: Problem, universe: seq<NamedEvent>, given: set<Expr>, rules: seq<Rule>,
                       parts: seq<Instantiation>, f: Firing)
    returns (k: nat, i: seq<Id>, o: seq<Id>)
    requires Built(p, universe, given, rules, parts) && f in JoinAll(parts).firings
    ensures k < |rules| && IsTuple(rules[k].inputs, universe, i) && IsTuple(rules[k].outputs, universe, o)
    ensures NoDup(i + o) && f == FiringOf(rules[k], i, o)
  {
    JoinAllEffects(parts);
    k :| 0 <= k < |parts| && f in parts[k].firings;
    var ins, outs :| Tuples(rules[k].inputs, universe, ins) && Tuples(rules[k].outputs, universe, outs)
        && Compiled(rules[k], ins, outs, parts[k]);
    assert f in Elements(parts[k].firings);
    i, o :| i in ins && o in outs && NoDup(i + o) && f == FiringOf(rules[k], i, o);
  }

  /** The cycle bounds put the guards of every firing rule instance inside the horizon. */
  lemma BuiltFiringsInRange(p: Problem, universe: seq<NamedEvent>, given: set<Expr>, rules: seq<Rule>,
                            parts: seq<Instantiation>, a: Assignment, f: Firing)
    requires Built(p, universe, given, rules, parts) && ProblemTheory.AllTrue(Elements(p.constraints), p.events, a)
    requires forall k :: 0 <= k < |rules| ==> ValidRule(rules[k]) && Anchorable(rules[k], universe)
    requires f in JoinAll(parts).firings && IsTrue(f.expression, p.events, a)
    ensures GuardsInRange(p, a, f.predicates)
  {
    var k, i, o := OriginOfFiring(p, universe, given, rules, parts, f);
    assert ProblemTheory.AllTrue(Bounds(universe, p.horizon), p.events, a);
    FiringInRange(rules[k], universe, i, o, p, a);
  }

  /**
   * The report of a rule instance of a built problem raises exactly when the scan of its guards reaches values without
   * an order; otherwise the instance is reported exactly when the scan succeeds.
   */
  lemma BuiltReportAgrees(p: Problem, universe: seq<NamedEvent>, given: set<Expr>, rules: seq<Rule>,
                          parts: seq<Instantiation>, a: Assignment, f: Firing)
    requires Built(p, universe, given, rules, parts) && ProblemTheory.AllTrue(Elements(p.constraints), p.events, a)
    requires forall k :: 0 <= k < |rules| ==> ValidRule(rules[k]) && Anchorable(rules[k], universe)
    requires f in JoinAll(parts).firings && IsTrue(f.expression, p.events, a)
    ensures GuardsInRange(p, a, f.predicates)
    ensures FiringRaises(p, a, f) <==> exists k :: 0 <= k < |f.predicates| && StopsAt(p, a, f.predicates, k)
    ensures Fires(p, a, f) <==> GuardScan(p, a, f.predicates) == GuardsHold
  {
    BuiltFiringsInRange(p, universe, given, rules, parts, a, f);
    ReportAgreesWithScan(p, a, f);
  }

  // ----- Reports that never raise

  /** All values of the sort have an order: booleans, integers, or an enumeration of one kind of value. */
  ghost predicate UniformSort(codec: Codec, s: Sort) {
    || s.BoolSort? || s.IntSort?
    || (s in codec && ((forall v :: v in codec[s] ==> v.Text?) || (forall v :: v in codec[s] ==> v.Int?)))
  }

  lemma UniformValuesCompare(codec: Codec, s: Sort, x: Value, y: Value)
    requires UniformSort(codec, s) && HasSort(codec, s, x) && HasSort(codec, s, y)
    ensures Less(x, y).Some?
  {
  }

  /** The guard compares a cell of a uniform sort with a value of that sort. */
  ghost predicate GuardUniform(codec: Codec, types: Signature, p: Problem, g: GuardPredicate) {
    && IsComparison(g.op) && WellSorted(codec, types, p.events, g.cycle, IntSort)
    && exists s :: CellSort(p, g.state, s) && WellSorted(codec, types, p.events, g.expected, s) && UniformSort(codec, s)
  }

  lemma ReplayedCellIsSorted(codec: Codec, types: Signature, p: Problem, a: Assignment, state: string, s: Sort,
                             cycle: int)
    requires WellSortedState(codec, types, p) && Conforms(codec, types, a) && CellSort(p, state, s)
    ensures state in ReplayedState(p, a, cycle) && HasSort(codec, s, ReplayedState(p, a, cycle)[state])
  {
    var c: nat := if cycle < 0 then 0 else if cycle > p.horizon then p.horizon + 1 else cycle;
    CellIsSorted(codec, types, p, a, Model(EncodedVars(codec, types, a), map[]), state, s, c);
  }

  lemma UniformComparison(codec: Codec, p: Problem, a: Assignment, g: GuardPredicate, s: Sort)
    requires UniformSort(codec, s) && Ev(p, a, g.cycle).Known? && Ev(p, a, g.cycle).value.Int?
    requires Ev(p, a, g.expected).Known? && HasSort(codec, s, Ev(p, a, g.expected).value)
    requires var cells := ReplayedState(p, a, Ev(p, a, g.cycle).value.n);
             g.state in cells && HasSort(codec, s, cells[g.state])
    ensures !ReplayRaises(p, a, g)
  {
    UniformValuesCompare(codec, s, ReplayedState(p, a, Ev(p, a, g.cycle).value.n)[g.state],
                         Ev(p, a, g.expected).value);
  }

  lemma UniformGuardNeverRaises(codec: Codec, types: Signature, p: Problem, a: Assignment, g: GuardPredicate)
    requires WellSortedState(codec, types, p) && Conforms(codec, types, a) && GuardUniform(codec, types, p, g)
    ensures !ReplayRaises(p, a, g)
  {
    var m := Model(EncodedVars(codec, types, a), map[]);
    var s :| CellSort(p, g.state, s) && WellSorted(codec, types, p.events, g.expected, s) && UniformSort(codec, s);
    CycleDenotes(codec, types, p, g.cycle, 0, a, m);
    TranslationAgrees(codec, types, p.events, g.expected, s, a, m);
    ReplayedCellIsSorted(codec, types, p, a, g.state, s, Ev(p, a, g.cycle).value.n);
    UniformComparison(codec, p, a, g, s);
  }

  /** Instances whose guards compare cells of uniform sorts with values of those sorts are reported without error. */
  lemma UniformReportsNeverRaise(codec: Codec, types: Signature, p: Problem, a: Assignment, firings: seq<Firing>)
    requires WellSortedState(codec, types, p) && Conforms(codec, types, a)
    requires forall f :: f in firings ==>
      && WellSorted(codec, types, p.events, f.expression, BoolSort)
      && forall g :: g in f.predicates ==> GuardUniform(codec, types, p, g)
    ensures forall f :: f in firings ==> !FiringRaises(p, a, f)
  {
    forall f | f in firings ensures !FiringRaises(p, a, f) {
      WellSortedDecided(codec, types, p.events, f.expression, a);
      forall k | 0 <= k < |f.predicates| ensures !ReplayRaises(p, a, f.predicates[k]) {
        assert f.predicates[k] in f.predicates;
        UniformGuardNeverRaises(codec, types, p, a, f.predicates[k]);
      }
    }
  }
}
