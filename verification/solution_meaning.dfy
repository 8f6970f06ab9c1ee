/** What a solution of a built problem is, in terms of the rules and not of their instances. */
module SolutionMeaning {
  import opened Common
  import opened Enumeration
  import opened Expressions
  import opened Evaluator
  import opened Problems
  import opened Rules
  import opened State
  import opened Smt
  import opened StateEncoding
  import opened StateEquivalence
  import opened RuleCompiler
  import opened RuleMeaning
  import opened ProblemTheory
  import opened Finite
  import opened Script
  import opened Decision

  // ----- Well-sorted rules decide

  /** Occurrences are booleans, and the expressions of the rule are conditions when its roles are bound. */
  ghost predicate RuleSorted(codec: Codec, types: Signature, rule: Rule, universe: seq<NamedEvent>) {
    var events := EventMap(universe);
    && (forall e :: e in universe ==> WellSorted(codec, types, events, Occurrence(e.id), BoolSort))
    && (forall i :: IsTuple(rule.inputs, universe, i) ==>
          WellSorted(codec, types, Rebind(events, Bind(rule.inputs, i)), rule.when, BoolSort))
    && (forall o :: IsTuple(rule.outputs, universe, o) ==>
          WellSorted(codec, types, Rebind(events, Bind(rule.outputs, o)), rule.outputWhen, BoolSort))
    && (forall i, o, e | IsTuple(rule.inputs, universe, i) && IsTuple(rule.outputs, universe, o) ::
          e in rule.ensured ==> WellSorted(codec, types, Rebind(events, BindAll(rule, i, o)), e, BoolSort))
  }

  /** A conforming assignment decides every instance of a well-sorted rule. */
  lemma SortedRuleDecided(codec: Codec, types: Signature, rule: Rule, universe: seq<NamedEvent>, a: Assignment)
    requires RuleSorted(codec, types, rule, universe) && Conforms(codec, types, a)
    ensures RuleDecided(rule, universe, a)
  {
    var events := EventMap(universe);
    forall e | e in universe ensures Decided(Occurrence(e.id), events, a) {
      WellSortedDecided(codec, types, events, Occurrence(e.id), a);
    }
    forall i | IsTuple(rule.inputs, universe, i) ensures Decided(rule.when, Rebind(events, Bind(rule.inputs, i)), a) {
      WellSortedDecided(codec, types, Rebind(events, Bind(rule.inputs, i)), rule.when, a);
    }
    forall o | IsTuple(rule.outputs, universe, o)
      ensures Decided(rule.outputWhen, Rebind(events, Bind(rule.outputs, o)), a)
    {
      WellSortedDecided(codec, types, Rebind(events, Bind(rule.outputs, o)), rule.outputWhen, a);
    }
    forall i, o, e | IsTuple(rule.inputs, universe, i) && IsTuple(rule.outputs, universe, o) && e in rule.ensured
      ensures Decided(e, Rebind(events, BindAll(rule, i, o)), a)
    {
      WellSortedDecided(codec, types, Rebind(events, BindAll(rule, i, o)), e, a);
    }
  }

  /** Occurrences are booleans and cycles integers. */
  ghost predicate TimesSorted(codec: Codec, types: Signature, universe: seq<NamedEvent>) {
    forall e :: e in universe && HasCycle(e) ==>
      && WellSorted(codec, types, EventMap(universe), Occurrence(e.id), BoolSort)
      && WellSorted(codec, types, EventMap(universe), CycleField(e.id), IntSort)
  }

  lemma SortedTimesDecided(codec: Codec, types: Signature, universe: seq<NamedEvent>, a: Assignment)
    requires TimesSorted(codec, types, universe) && Conforms(codec, types, a)
    ensures TimesDecided(universe, a)
  {
    var events := EventMap(universe);
    var m := Model(EncodedVars(codec, types, a), map[]);
    forall e | e in universe && HasCycle(e)
      ensures Decided(Occurrence(e.id), events, a)
      ensures Evaluate(CycleField(e.id), events, a).Known? && Evaluate(CycleField(e.id), events, a).value.Int?
    {
      WellSortedDecided(codec, types, events, Occurrence(e.id), a);
      TranslationAgrees(codec, types, events, CycleField(e.id), IntSort, a, m);
    }
  }

  // ----- Guards as the rule states them

  /** With the roles bound, the cell compares to the value in the pre-state of the cycle of the anchor. */
  ghost predicate Meets(p: Problem, a: Assignment, q: RuleRequirement, m: Binding) {
    var bound := Rebind(p.events, m);
    var (cycle, expected) := (Field(bound, q.at, "cycle", a), Evaluate(q.value, bound, a));
    && ValidCycle(cycle, p.horizon) && expected.Known?
    && Holds(p, a, q.state, cycle.value.n, q.op, expected.value)
  }

  ghost predicate MeetsAll(p: Problem, a: Assignment, rule: Rule, m: Binding) {
    forall q :: q in rule.requirements ==> Meets(p, a, q, m)
  }

  lemma GuardMeets(p: Problem, a: Assignment, q: RuleRequirement, m: Binding)
    ensures PredicateHolds(p, a, GuardOf(q, m)) <==> Meets(p, a, q, m)
  {
    SubstitutionLemma(q.value, m, p.events, a);
    SubstitutionLemma(CycleField(q.at), m, p.events, a);
    assert Substitute(CycleField(q.at), m) == CycleOf(m, q.at);
  }

  lemma GuardsMeet(p: Problem, a: Assignment, rule: Rule, m: Binding)
    ensures GuardsOk(p, a, GuardsOf(rule, m)) <==> MeetsAll(p, a, rule, m)
  {
    forall q | q in rule.requirements ensures PredicateHolds(p, a, GuardOf(q, m)) <==> Meets(p, a, q, m) {
      GuardMeets(p, a, q, m);
    }
    if GuardsOk(p, a, GuardsOf(rule, m)) {
      forall q | q in rule.requirements ensures Meets(p, a, q, m) {
        var k :| 0 <= k < |rule.requirements| && rule.requirements[k] == q;
        assert GuardsOf(rule, m)[k] in GuardsOf(rule, m);
      }
    }
    if MeetsAll(p, a, rule, m) {
      forall g | g in GuardsOf(rule, m) ensures PredicateHolds(p, a, g) {
        var k :| 0 <= k < |rule.requirements| && GuardsOf(rule, m)[k] == g;
        assert rule.requirements[k] in rule.requirements;
      }
    }
  }

  /** The model whose snapshots show the run. */
  lemma RunModel(codec: Codec, types: Signature, p: Problem, a: Assignment) returns (m: Model)
    requires WellSortedState(codec, types, p) && Conforms(codec, types, a)
    ensures Setting(codec, types, p, a, m) && forall c: nat :: c <= p.horizon ==> SnapshotsAre(codec, p, a, m, c)
  {
    m := Model(EncodedVars(codec, types, a), RunCodes(codec, p, a));
    forall c: nat | c <= p.horizon ensures SnapshotsAre(codec, p, a, m, c) {
      CellsAlwaysSorted(codec, types, p, a, m, c);
    }
  }

  /** Inside the horizon the scan of the guards of a rule is decided, and succeeds exactly when every guard is met. */
  lemma ScanMeets(codec: Codec, types: Signature, p: Problem, a: Assignment, rule: Rule, m: Binding)
    requires WellSortedState(codec, types, p) && Conforms(codec, types, a)
    requires PredicatesSorted(codec, types, p, GuardsOf(rule, m)) && GuardsInRange(p, a, GuardsOf(rule, m))
    ensures GuardScan(p, a, GuardsOf(rule, m)) in {GuardsHold, GuardFails}
    ensures GuardScan(p, a, GuardsOf(rule, m)) == GuardsHold <==> MeetsAll(p, a, rule, m)
  {
    var model := RunModel(codec, types, p, a);
    ScanDenotes(codec, types, p, a, model, GuardsOf(rule, m));
    GuardsMeet(p, a, rule, m);
  }

  // ----- Guarded rules

  /** An enabled input tuple whose guards are met has outputs, where every guard is anchored at an input. */
  ghost predicate ForwardKept(rule: Rule, universe: seq<NamedEvent>, p: Problem, a: Assignment) {
    InputAnchored(rule) ==>
      forall i :: IsTuple(rule.inputs, universe, i) && NoDup(i) ==> DemandMet(rule, universe, i, p, a)
  }

  ghost predicate DemandMet(rule: Rule, universe: seq<NamedEvent>, i: seq<Id>, p: Problem, a: Assignment) {
    Enabled(rule, i, p.events, a) && MeetsAll(p, a, rule, Bind(rule.inputs, i)) ==> HasOutput(rule, universe, i, a)
  }

  /** A derived output of an exact rule has a related enabled input whose guards are met. */
  ghost predicate SupportKept(rule: Rule, universe: seq<NamedEvent>, p: Problem, a: Assignment) {
    rule.exact ==> forall o :: IsTuple(rule.outputs, universe, o) && NoDup(o) ==> SupplyMet(rule, universe, o, p, a)
  }

  ghost predicate SupplyMet(rule: Rule, universe: seq<NamedEvent>, o: seq<Id>, p: Problem, a: Assignment) {
    Derived(rule, o, p.events, a) ==>
      exists i :: IsTuple(rule.inputs, universe, i) && Justifies(rule, i, o, p.events, a)
                  && MeetsAll(p, a, rule, BindAll(rule, i, o))
  }

  ghost predicate GuardedKept(rule: Rule, universe: seq<NamedEvent>, p: Problem, a: Assignment) {
    rule.guardMode ==> ForwardKept(rule, universe, p, a) && SupportKept(rule, universe, p, a)
  }

  /** The setting of one rule of a well-sorted built problem whose cycle bounds hold. */
  ghost predicate Ready(codec: Codec, types: Signature, rule: Rule, universe: seq<NamedEvent>, p: Problem,
                        a: Assignment) {
    && WellSortedState(codec, types, p) && Conforms(codec, types, a) && p.events == EventMap(universe)
    && AnchorsReady(rule, universe, p.horizon, a) && RuleDecided(rule, universe, a)
  }

  lemma ForwardOkMeans(codec: Codec, types: Signature, rule: Rule, universe: seq<NamedEvent>, i: seq<Id>,
                       outs: seq<seq<Id>>, p: Problem, a: Assignment)
    requires Ready(codec, types, rule, universe, p, a) && InputAnchored(rule)
    requires IsTuple(rule.inputs, universe, i) && Tuples(rule.outputs, universe, outs)
    requires ForwardGuarded(rule, i, outs) in p.forwards
    ensures ForwardOk(p, a, ForwardGuarded(rule, i, outs)) <==> DemandMet(rule, universe, i, p, a)
  {
    GuardedForwardMeans(rule, universe, i, outs, p, a);
    if Enabled(rule, i, p.events, a) {
      AntecedentMeans(rule, i, p.events, a);
      ForwardInRange(rule, universe, i, p, a);
      ScanMeets(codec, types, p, a, rule, Bind(rule.inputs, i));
    }
  }

  lemma JustifiedScan(codec: Codec, types: Signature, rule: Rule, universe: seq<NamedEvent>, ins: seq<seq<Id>>,
                      i: seq<Id>, o: seq<Id>, p: Problem, a: Assignment)
    requires Ready(codec, types, rule, universe, p, a) && SupportGuarded(rule, ins, o) in p.supports
    requires Tuples(rule.inputs, universe, ins) && i in ins && IsTuple(rule.outputs, universe, o)
    requires Derived(rule, o, p.events, a) && Justifies(rule, i, o, p.events, a)
    ensures BoundScan(rule, i, o, p, a) in {GuardsHold, GuardFails}
    ensures BoundScan(rule, i, o, p, a) == GuardsHold <==> MeetsAll(p, a, rule, BindAll(rule, i, o))
  {
    CandidateJustifies(rule, universe, i, o, a);
    CandidateMembers(rule, ins, o);
    assert CandidateOf(rule, i, o) in SupportCandidates(rule, ins, o);
    CandidateInRange(rule, universe, i, o, p, a);
    ScanMeets(codec, types, p, a, rule, BindAll(rule, i, o));
  }

  lemma SupportOkMeans(codec: Codec, types: Signature, rule: Rule, universe: seq<NamedEvent>, ins: seq<seq<Id>>,
                       o: seq<Id>, p: Problem, a: Assignment)
    requires Ready(codec, types, rule, universe, p, a) && SupportGuarded(rule, ins, o) in p.supports
    requires Tuples(rule.inputs, universe, ins) && IsTuple(rule.outputs, universe, o)
    ensures SupportOk(p, a, SupportGuarded(rule, ins, o)) <==> SupplyMet(rule, universe, o, p, a)
  {
    if Derived(rule, o, p.events, a) {
      forall i | i in ins && Justifies(rule, i, o, p.events, a)
        ensures BoundScan(rule, i, o, p, a) in {GuardsHold, GuardFails}
        ensures BoundScan(rule, i, o, p, a) == GuardsHold <==> MeetsAll(p, a, rule, BindAll(rule, i, o))
      {
        JustifiedScan(codec, types, rule, universe, ins, i, o, p, a);
      }
      GuardedSupportMeans(rule, universe, ins, o, p, a);
    } else {
      InScopeMeans(rule, o, p.events, a);
      InScopeDecided(rule, universe, o, a);
    }
  }

  ghost predicate GuardedOk(part: Instantiation, p: Problem, a: Assignment) {
    (forall f :: f in part.forwards ==> ForwardOk(p, a, f)) && forall s :: s in part.supports ==> SupportOk(p, a, s)
  }

  ghost predicate PartOf(part: Instantiation, p: Problem) {
    && (forall f :: f in part.forwards ==> f in p.forwards)
    && (forall s :: s in part.supports ==> s in p.supports)
    && (forall r :: r in part.requirements ==> r in p.requirements)
    && (forall u :: u in part.updates ==> u in p.updates)
  }

  lemma ForwardsMean(codec: Codec, types: Signature, rule: Rule, universe: seq<NamedEvent>, ins: seq<seq<Id>>,
                     outs: seq<seq<Id>>, part: Instantiation, p: Problem, a: Assignment)
    requires Ready(codec, types, rule, universe, p, a) && rule.guardMode && PartOf(part, p)
    requires Tuples(rule.inputs, universe, ins) && Tuples(rule.outputs, universe, outs)
    requires Compiled(rule, ins, outs, part)
    ensures (forall f :: f in part.forwards ==> ForwardOk(p, a, f)) <==> ForwardKept(rule, universe, p, a)
  {
    assert forall f :: f in part.forwards <==> f in Elements(part.forwards);
    if InputAnchored(rule) {
      forall i | i in ins && NoDup(i)
        ensures ForwardGuarded(rule, i, outs) in part.forwards
        ensures ForwardOk(p, a, ForwardGuarded(rule, i, outs)) <==> DemandMet(rule, universe, i, p, a)
      {
        assert ForwardGuarded(rule, i, outs) in Elements(part.forwards);
        ForwardOkMeans(codec, types, rule, universe, i, outs, p, a);
      }
    }
  }

  lemma SupportsMean(codec: Codec, types: Signature, rule: Rule, universe: seq<NamedEvent>, ins: seq<seq<Id>>,
                     outs: seq<seq<Id>>, part: Instantiation, p: Problem, a: Assignment)
    requires Ready(codec, types, rule, universe, p, a) && rule.guardMode && PartOf(part, p)
    requires Tuples(rule.inputs, universe, ins) && Tuples(rule.outputs, universe, outs)
    requires Compiled(rule, ins, outs, part)
    ensures (forall s :: s in part.supports ==> SupportOk(p, a, s)) <==> SupportKept(rule, universe, p, a)
  {
    assert forall s :: s in part.supports <==> s in Elements(part.supports);
    if rule.exact {
      forall o | o in outs && NoDup(o)
        ensures SupportGuarded(rule, ins, o) in part.supports
        ensures SupportOk(p, a, SupportGuarded(rule, ins, o)) <==> SupplyMet(rule, universe, o, p, a)
      {
        assert SupportGuarded(rule, ins, o) in Elements(part.supports);
        SupportOkMeans(codec, types, rule, universe, ins, o, p, a);
      }
    }
  }

  /** The guarded instances of a rule are kept exactly when the rule is. */
  lemma GuardedPartMeans(codec: Codec, types: Signature, rule: Rule, universe: seq<NamedEvent>, part: Instantiation,
                         p: Problem, a: Assignment)
    requires Ready(codec, types, rule, universe, p, a) && PartOf(part, p) && RuleCompiled(rule, universe, part)
    ensures GuardedOk(part, p, a) <==> GuardedKept(rule, universe, p, a)
  {
    var ins, outs :| Tuples(rule.inputs, universe, ins) && Tuples(rule.outputs, universe, outs)
        && Compiled(rule, ins, outs, part);
    if rule.guardMode {
      ForwardsMean(codec, types, rule, universe, ins, outs, part, p, a);
      SupportsMean(codec, types, rule, universe, ins, outs, part, p, a);
    } else {
      assert forall f :: f in part.forwards ==> f in Elements(part.forwards);
      assert forall s :: s in part.supports ==> s in Elements(part.supports);
    }
  }

  // ----- State effects as the rules state them

  /** The rule fires for the tuples: enabled inputs and derived outputs, related, all events distinct. */
  ghost predicate FiresFor(rule: Rule, universe: seq<NamedEvent>, i: seq<Id>, o: seq<Id>, a: Assignment) {
    && !rule.guardMode && IsTuple(rule.inputs, universe, i) && IsTuple(rule.outputs, universe, o) && NoDup(i + o)
    && Enabled(rule, i, EventMap(universe), a) && Derived(rule, o, EventMap(universe), a)
    && Related(rule, i, o, EventMap(universe), a)
  }

  /** Whenever the rule fires, its requirements are met. */
  ghost predicate RequirementsKept(rule: Rule, universe: seq<NamedEvent>, p: Problem, a: Assignment) {
    forall i, o :: FiresFor(rule, universe, i, o, a) ==> MeetsAll(p, a, rule, BindAll(rule, i, o))
  }

  lemma RequirementOkMeans(codec: Codec, types: Signature, rule: Rule, universe: seq<NamedEvent>, i: seq<Id>,
                           o: seq<Id>, q: RuleRequirement, p: Problem, a: Assignment)
    requires Ready(codec, types, rule, universe, p, a) && !rule.guardMode
    requires IsTuple(rule.inputs, universe, i) && IsTuple(rule.outputs, universe, o) && NoDup(i + o)
    requires RequirementOf(q, FiringOf(rule, i, o)) in p.requirements
    ensures RequirementOk(p, a, RequirementOf(q, FiringOf(rule, i, o))) <==>
            (FiresFor(rule, universe, i, o, a) ==> Meets(p, a, q, BindAll(rule, i, o)))
  {
    FiringMeans(rule, i, o, p.events, a);
    ActivationDecided(codec, types, p, a, RequirementOf(q, FiringOf(rule, i, o)));
    RequirementWhenFired(rule, i, o, q, p, a);
  }

  lemma ActivationDecided(codec: Codec, types: Signature, p: Problem, a: Assignment, r: Requirement)
    requires WellSortedState(codec, types, p) && Conforms(codec, types, a) && r in p.requirements
    ensures Decided(r.activation, p.events, a)
  {
    WellSortedDecided(codec, types, p.events, r.activation, a);
  }

  lemma RequirementWhenFired(rule: Rule, i: seq<Id>, o: seq<Id>, q: RuleRequirement, p: Problem, a: Assignment)
    requires Decided(FiringOf(rule, i, o).expression, p.events, a)
    ensures RequirementOk(p, a, RequirementOf(q, FiringOf(rule, i, o))) <==>
            (IsTrue(FiringOf(rule, i, o).expression, p.events, a) ==> Meets(p, a, q, BindAll(rule, i, o)))
  {
    BoundRequirement(rule, i, o, q, p, a);
  }

  lemma BoundRequirement(rule: Rule, i: seq<Id>, o: seq<Id>, q: RuleRequirement, p: Problem, a: Assignment)
    ensures var (r, bound) := (RequirementOf(q, FiringOf(rule, i, o)), Rebind(p.events, BindAll(rule, i, o)));
            Ev(p, a, r.cycle) == Field(bound, q.at, "cycle", a) && Ev(p, a, r.expected) == Evaluate(q.value, bound, a)
  {
    EffectMeans(rule, i, o, q, RuleUpdate(q.state, q.at, q.value), p.events, a);
  }

  lemma CompiledRequirement(rule: Rule, ins: seq<seq<Id>>, outs: seq<seq<Id>>, part: Instantiation, i: seq<Id>,
                            o: seq<Id>, q: RuleRequirement)
    requires Compiled(rule, ins, outs, part) && !rule.guardMode
    requires i in ins && o in outs && NoDup(i + o) && q in rule.requirements
    ensures RequirementOf(q, FiringOf(rule, i, o)) in part.requirements
  {
    assert FiringOf(rule, i, o) in Firings(rule, ins, outs);
    assert RequirementOf(q, FiringOf(rule, i, o)) in Elements(part.requirements);
  }

  lemma RequirementsAreKept(codec: Codec, types: Signature, rule: Rule, universe: seq<NamedEvent>, ins: seq<seq<Id>>,
                            outs: seq<seq<Id>>, part: Instantiation, p: Problem, a: Assignment)
    requires Ready(codec, types, rule, universe, p, a) && !rule.guardMode && PartOf(part, p)
    requires Tuples(rule.inputs, universe, ins) && Tuples(rule.outputs, universe, outs)
    requires Compiled(rule, ins, outs, part) && forall r :: r in part.requirements ==> RequirementOk(p, a, r)
    ensures RequirementsKept(rule, universe, p, a)
  {
    forall i, o, q | FiresFor(rule, universe, i, o, a) && q in rule.requirements
      ensures Meets(p, a, q, BindAll(rule, i, o))
    {
      assert i in ins && o in outs;
      CompiledRequirement(rule, ins, outs, part, i, o, q);
      RequirementOkMeans(codec, types, rule, universe, i, o, q, p, a);
    }
  }

  lemma KeptRequirementsHold(codec: Codec, types: Signature, rule: Rule, universe: seq<NamedEvent>,
                             ins: seq<seq<Id>>, outs: seq<seq<Id>>, part: Instantiation, p: Problem, a: Assignment)
    requires Ready(codec, types, rule, universe, p, a) && !rule.guardMode && PartOf(part, p)
    requires Tuples(rule.inputs, universe, ins) && Tuples(rule.outputs, universe, outs)
    requires Compiled(rule, ins, outs, part) && RequirementsKept(rule, universe, p, a)
    ensures forall r :: r in part.requirements ==> RequirementOk(p, a, r)
  {
    forall r | r in part.requirements ensures RequirementOk(p, a, r) {
      assert r in Elements(part.requirements);
      var f, q :| f in Firings(rule, ins, outs) && q in rule.requirements && r == RequirementOf(q, f);
      var i, o :| i in ins && o in outs && NoDup(i + o) && f == FiringOf(rule, i, o);
      RequirementOkMeans(codec, types, rule, universe, i, o, q, p, a);
    }
  }

  /** The requirements of a rule are met in the run exactly when the rule keeps them. */
  lemma RequirementPartMeans(codec: Codec, types: Signature, rule: Rule, universe: seq<NamedEvent>,
                             part: Instantiation, p: Problem, a: Assignment)
    requires Ready(codec, types, rule, universe, p, a) && PartOf(part, p) && RuleCompiled(rule, universe, part)
    ensures (forall r :: r in part.requirements ==> RequirementOk(p, a, r)) <==> RequirementsKept(rule, universe, p, a)
  {
    var ins, outs :| Tuples(rule.inputs, universe, ins) && Tuples(rule.outputs, universe, outs)
        && Compiled(rule, ins, outs, part);
    if rule.guardMode {
      assert forall r :: r in part.requirements ==> r in Elements(part.requirements);
    } else {
      if forall r :: r in part.requirements ==> RequirementOk(p, a, r) {
        RequirementsAreKept(codec, types, rule, universe, ins, outs, part, p, a);
      }
      if RequirementsKept(rule, universe, p, a) {
        KeptRequirementsHold(codec, types, rule, universe, ins, outs, part, p, a);
      }
    }
  }

  // ----- Writes

  /** The rule fires and gives the cell a value in the cycle. */
  ghost predicate WritesAt(rule: Rule, universe: seq<NamedEvent>, a: Assignment, state: string, cycle: int,
                           value: Outcome) {
    exists i, o, u :: FiresFor(rule, universe, i, o, a) && u in rule.updates
                      && WriteIs(u, Rebind(EventMap(universe), BindAll(rule, i, o)), a, state, cycle, value)
  }

  ghost predicate WriteIs(u: RuleUpdate, bound: Events, a: Assignment, state: string, cycle: int, value: Outcome) {
    u.state == state && Field(bound, u.at, "cycle", a) == Known(Int(cycle)) && Evaluate(u.value, bound, a) == value
  }

  /** Rules that fire in one cycle give a cell one value. */
  ghost predicate WritesAgree(rules: seq<Rule>, universe: seq<NamedEvent>, a: Assignment) {
    forall j, k, state, cycle, x, y | 0 <= j < |rules| && 0 <= k < |rules| ::
      WritesAt(rules[j], universe, a, state, cycle, x) && WritesAt(rules[k], universe, a, state, cycle, y) ==> x == y
  }

  lemma BoundUpdate(rule: Rule, i: seq<Id>, o: seq<Id>, u: RuleUpdate, p: Problem, a: Assignment)
    ensures var (w, bound) := (UpdateOf(u, FiringOf(rule, i, o)), Rebind(p.events, BindAll(rule, i, o)));
            Ev(p, a, w.cycle) == Field(bound, u.at, "cycle", a) && Ev(p, a, w.value) == Evaluate(u.value, bound, a)
  {
    EffectMeans(rule, i, o, RuleRequirement(u.state, u.at, Eq, u.value), u, p.events, a);
  }

  /** An instance of an update is active exactly when its rule writes. */
  ghost predicate PartWrites(part: Instantiation, p: Problem, a: Assignment, state: string, cycle: int,
                             value: Outcome) {
    exists u :: u in part.updates && u.state == state && ActiveAt(p, a, u, cycle) && Ev(p, a, u.value) == value
  }

  lemma ActiveUpdateWrites(rule: Rule, universe: seq<NamedEvent>, ins: seq<seq<Id>>, outs: seq<seq<Id>>,
                           part: Instantiation, p: Problem, a: Assignment, w: Update, cycle: int)
    requires ValidRule(rule) && p.events == EventMap(universe) && Compiled(rule, ins, outs, part)
    requires Tuples(rule.inputs, universe, ins) && Tuples(rule.outputs, universe, outs)
    requires w in part.updates && ActiveAt(p, a, w, cycle)
    ensures WritesAt(rule, universe, a, w.state, cycle, Ev(p, a, w.value))
  {
    assert w in Elements(part.updates);
    var f, u :| f in Firings(rule, ins, outs) && u in rule.updates && w == UpdateOf(u, f);
    var i, o :| i in ins && o in outs && NoDup(i + o) && f == FiringOf(rule, i, o);
    FiringMeans(rule, i, o, p.events, a);
    BoundUpdate(rule, i, o, u, p, a);
    assert FiresFor(rule, universe, i, o, a);
    assert WriteIs(u, Rebind(EventMap(universe), BindAll(rule, i, o)), a, w.state, cycle, Ev(p, a, w.value));
  }

  lemma FiringWrites(rule: Rule, universe: seq<NamedEvent>, ins: seq<seq<Id>>, outs: seq<seq<Id>>,
                     part: Instantiation, p: Problem, a: Assignment, state: string, cycle: int, value: Outcome)
    requires ValidRule(rule) && p.events == EventMap(universe) && Compiled(rule, ins, outs, part)
    requires Tuples(rule.inputs, universe, ins) && Tuples(rule.outputs, universe, outs)
    requires WritesAt(rule, universe, a, state, cycle, value)
    ensures PartWrites(part, p, a, state, cycle, value)
  {
    var i, o, u :| FiresFor(rule, universe, i, o, a) && u in rule.updates
                   && WriteIs(u, Rebind(EventMap(universe), BindAll(rule, i, o)), a, state, cycle, value);
    assert i in ins && o in outs && FiringOf(rule, i, o) in Firings(rule, ins, outs);
    assert UpdateOf(u, FiringOf(rule, i, o)) in Elements(part.updates);
    FiringMeans(rule, i, o, p.events, a);
    BoundUpdate(rule, i, o, u, p, a);
  }

  lemma UpdatesMean(rule: Rule, universe: seq<NamedEvent>, part: Instantiation, p: Problem, a: Assignment,
                    state: string, cycle: int, value: Outcome)
    requires ValidRule(rule) && p.events == EventMap(universe) && RuleCompiled(rule, universe, part)
    ensures PartWrites(part, p, a, state, cycle, value) <==> WritesAt(rule, universe, a, state, cycle, value)
  {
    var ins, outs :| Tuples(rule.inputs, universe, ins) && Tuples(rule.outputs, universe, outs)
        && Compiled(rule, ins, outs, part);
    if PartWrites(part, p, a, state, cycle, value) {
      var w :| w in part.updates && w.state == state && ActiveAt(p, a, w, cycle) && Ev(p, a, w.value) == value;
      ActiveUpdateWrites(rule, universe, ins, outs, part, p, a, w, cycle);
    }
    if WritesAt(rule, universe, a, state, cycle, value) {
      FiringWrites(rule, universe, ins, outs, part, p, a, state, cycle, value);
    }
  }

  // ----- Solutions of a built problem

  /** A well-sorted problem that is built from well-sorted rules whose anchors have cycles. */
  ghost predicate Posed(codec: Codec, types: Signature, p: Problem, universe: seq<NamedEvent>, given: set<Expr>,
                        rules: seq<Rule>, parts: seq<Instantiation>) {
    && Built(p, universe, given, rules, parts)
    && WellSortedState(codec, types, p) && TimesSorted(codec, types, universe)
    && forall k :: 0 <= k < |rules| ==>
         ValidRule(rules[k]) && Anchorable(rules[k], universe) && RuleSorted(codec, types, rules[k], universe)
  }

  /** Every rule is kept: as an implication, with its state guards, and with its requirements. */
  ghost predicate RuleKept(rule: Rule, universe: seq<NamedEvent>, p: Problem, a: Assignment) {
    && RuleHolds(rule, universe, a) && GuardedKept(rule, universe, p, a) && RequirementsKept(rule, universe, p, a)
  }

  lemma PartsBelong(p: Problem, universe: seq<NamedEvent>, given: set<Expr>, rules: seq<Rule>,
                    parts: seq<Instantiation>, k: nat)
    requires Built(p, universe, given, rules, parts) && k < |rules|
    ensures PartOf(parts[k], p) && RuleCompiled(rules[k], universe, parts[k])
  {
    JoinAllEffects(parts);
  }

  lemma RulesReady(codec: Codec, types: Signature, p: Problem, universe: seq<NamedEvent>, given: set<Expr>,
                   rules: seq<Rule>, parts: seq<Instantiation>, a: Assignment, k: nat)
    requires Posed(codec, types, p, universe, given, rules, parts) && Conforms(codec, types, a) && k < |rules|
    requires ProblemTheory.AllTrue(Bounds(universe, p.horizon), p.events, a)
    ensures Ready(codec, types, rules[k], universe, p, a)
  {
    SortedRuleDecided(codec, types, rules[k], universe, a);
  }

  /** The instances of all rules are in order exactly when all rules are. */
  lemma InstancesMean(codec: Codec, types: Signature, p: Problem, universe: seq<NamedEvent>, given: set<Expr>,
                      rules: seq<Rule>, parts: seq<Instantiation>, a: Assignment)
    requires Posed(codec, types, p, universe, given, rules, parts) && Conforms(codec, types, a)
    requires ProblemTheory.AllTrue(Bounds(universe, p.horizon), p.events, a)
    ensures InstancesOk(p, a) <==>
            forall k :: 0 <= k < |rules| ==>
              GuardedKept(rules[k], universe, p, a) && RequirementsKept(rules[k], universe, p, a)
  {
    forall k | 0 <= k < |rules|
      ensures GuardedOk(parts[k], p, a) <==> GuardedKept(rules[k], universe, p, a)
      ensures RequirementsOk(parts[k], p, a) <==> RequirementsKept(rules[k], universe, p, a)
    {
      PartsBelong(p, universe, given, rules, parts, k);
      RulesReady(codec, types, p, universe, given, rules, parts, a, k);
      GuardedPartMeans(codec, types, rules[k], universe, parts[k], p, a);
      RequirementPartMeans(codec, types, rules[k], universe, parts[k], p, a);
    }
    InstancesSplit(p, universe, given, rules, parts, a);
  }

  ghost predicate RequirementsOk(part: Instantiation, p: Problem, a: Assignment) {
    forall r :: r in part.requirements ==> RequirementOk(p, a, r)
  }

  /** Guarded instances and requirements of the problem are in order. */
  ghost predicate InstancesOk(p: Problem, a: Assignment) {
    && (forall r :: r in p.requirements ==> RequirementOk(p, a, r))
    && (forall f :: f in p.forwards ==> ForwardOk(p, a, f)) && (forall s :: s in p.supports ==> SupportOk(p, a, s))
  }

  lemma InstancesSplit(p: Problem, universe: seq<NamedEvent>, given: set<Expr>, rules: seq<Rule>,
                       parts: seq<Instantiation>, a: Assignment)
    requires Built(p, universe, given, rules, parts)
    ensures InstancesOk(p, a) <==>
            forall k :: 0 <= k < |rules| ==> GuardedOk(parts[k], p, a) && RequirementsOk(parts[k], p, a)
  {
    JoinAllEffects(parts);
  }

  /** Writes of the problem are writes of its rules. */
  lemma WritesOfRules(p: Problem, universe: seq<NamedEvent>, given: set<Expr>, rules: seq<Rule>,
                      parts: seq<Instantiation>, a: Assignment, k: nat, state: string, cycle: int, value: Outcome)
    requires Built(p, universe, given, rules, parts) && k < |rules| && ValidRule(rules[k])
    ensures WritesAt(rules[k], universe, a, state, cycle, value) <==> PartWrites(parts[k], p, a, state, cycle, value)
    ensures PartOf(parts[k], p)
  {
    PartsBelong(p, universe, given, rules, parts, k);
    UpdatesMean(rules[k], universe, parts[k], p, a, state, cycle, value);
  }

  lemma RuleOfUpdate(p: Problem, universe: seq<NamedEvent>, given: set<Expr>, rules: seq<Rule>,
                     parts: seq<Instantiation>, a: Assignment, u: Update, cycle: int)
    returns (k: nat)
    requires Built(p, universe, given, rules, parts) && forall k :: 0 <= k < |rules| ==> ValidRule(rules[k])
    requires u in p.updates && ActiveAt(p, a, u, cycle)
    ensures k < |rules| && WritesAt(rules[k], universe, a, u.state, cycle, Ev(p, a, u.value))
  {
    JoinAllEffects(parts);
    k :| 0 <= k < |parts| && u in parts[k].updates;
    WritesOfRules(p, universe, given, rules, parts, a, k, u.state, cycle, Ev(p, a, u.value));
    assert PartWrites(parts[k], p, a, u.state, cycle, Ev(p, a, u.value));
  }

  lemma AgreedRulesAgree(p: Problem, universe: seq<NamedEvent>, given: set<Expr>, rules: seq<Rule>,
                         parts: seq<Instantiation>, a: Assignment)
    requires Built(p, universe, given, rules, parts) && forall k :: 0 <= k < |rules| ==> ValidRule(rules[k])
    requires WritesAgree(rules, universe, a)
    ensures forall c :: Agreement(p, a, c)
  {
    forall c, u, w | u in p.updates && w in p.updates && u.state == w.state && ActiveAt(p, a, u, c)
                     && ActiveAt(p, a, w, c)
      ensures Ev(p, a, u.value) == Ev(p, a, w.value)
    {
      var j := RuleOfUpdate(p, universe, given, rules, parts, a, u, c);
      var k := RuleOfUpdate(p, universe, given, rules, parts, a, w, c);
    }
  }

  lemma UpdateOfRule(p: Problem, universe: seq<NamedEvent>, given: set<Expr>, rules: seq<Rule>,
                     parts: seq<Instantiation>, a: Assignment, k: nat, state: string, cycle: int, value: Outcome)
    returns (u: Update)
    requires Built(p, universe, given, rules, parts) && k < |rules| && ValidRule(rules[k])
    requires WritesAt(rules[k], universe, a, state, cycle, value)
    ensures u in p.updates && u.state == state && ActiveAt(p, a, u, cycle) && Ev(p, a, u.value) == value
  {
    WritesOfRules(p, universe, given, rules, parts, a, k, state, cycle, value);
    u :| u in parts[k].updates && u.state == state && ActiveAt(p, a, u, cycle) && Ev(p, a, u.value) == value;
  }

  lemma ActiveInHorizon(p: Problem, a: Assignment, u: Update, cycle: int)
    requires CyclesInRange(p, a) && u in p.updates && ActiveAt(p, a, u, cycle)
    ensures 0 <= cycle <= p.horizon
  {
    assert ValidCycle(Ev(p, a, u.cycle), p.horizon);
  }

  /** Two rules that write a cell in one cycle of a run without conflicts write one value. */
  lemma AgreedWrites(p: Problem, universe: seq<NamedEvent>, given: set<Expr>, rules: seq<Rule>,
                     parts: seq<Instantiation>, a: Assignment, j: nat, k: nat, state: string, cycle: int, x: Outcome,
                     y: Outcome)
    requires Built(p, universe, given, rules, parts) && j < |rules| && k < |rules|
    requires ValidRule(rules[j]) && ValidRule(rules[k]) && Agreement(p, a, cycle)
    requires WritesAt(rules[j], universe, a, state, cycle, x) && WritesAt(rules[k], universe, a, state, cycle, y)
    ensures x == y
  {
    var u := UpdateOfRule(p, universe, given, rules, parts, a, j, state, cycle, x);
    var w := UpdateOfRule(p, universe, given, rules, parts, a, k, state, cycle, y);
  }

  lemma AgreedRunAgrees(p: Problem, universe: seq<NamedEvent>, given: set<Expr>, rules: seq<Rule>,
                        parts: seq<Instantiation>, a: Assignment)
    requires Built(p, universe, given, rules, parts) && forall k :: 0 <= k < |rules| ==> ValidRule(rules[k])
    requires CyclesInRange(p, a) && forall c :: 0 <= c <= p.horizon ==> Agreement(p, a, c)
    ensures WritesAgree(rules, universe, a)
  {
    forall j, k, state, cycle, x, y | 0 <= j < |rules| && 0 <= k < |rules|
                                      && WritesAt(rules[j], universe, a, state, cycle, x)
                                      && WritesAt(rules[k], universe, a, state, cycle, y)
      ensures x == y
    {
      var u := UpdateOfRule(p, universe, given, rules, parts, a, j, state, cycle, x);
      ActiveInHorizon(p, a, u, cycle);
      AgreedWrites(p, universe, given, rules, parts, a, j, k, state, cycle, x, y);
    }
  }

  /** The run has no conflicting writes exactly when the rules agree on theirs. */
  lemma AgreementMeans(p: Problem, universe: seq<NamedEvent>, given: set<Expr>, rules: seq<Rule>,
                       parts: seq<Instantiation>, a: Assignment)
    requires Built(p, universe, given, rules, parts) && forall k :: 0 <= k < |rules| ==> ValidRule(rules[k])
    requires CyclesInRange(p, a)
    ensures (forall c :: 0 <= c <= p.horizon ==> Agreement(p, a, c)) <==> WritesAgree(rules, universe, a)
  {
    if WritesAgree(rules, universe, a) { AgreedRulesAgree(p, universe, given, rules, parts, a); }
    if forall c :: 0 <= c <= p.horizon ==> Agreement(p, a, c) {
      AgreedRunAgrees(p, universe, given, rules, parts, a);
    }
  }

  /** Well-sorted initial values and updates are always in order. */
  lemma ValuesAreKnown(codec: Codec, types: Signature, p: Problem, a: Assignment)
    requires WellSortedState(codec, types, p) && Conforms(codec, types, a) && CyclesInRange(p, a)
    ensures forall v :: v in p.variables ==> Ev(p, a, v.initial).Known?
    ensures forall u :: u in p.updates ==> UpdateOk(p, a, u)
  {
    var m := Model(EncodedVars(codec, types, a), map[]);
    InitialSnapshots(codec, types, p, a, m);
    forall u | u in p.updates ensures UpdateOk(p, a, u) {
      var v := CellOfUpdate(codec, types, p, u);
      UpdateDenotes(codec, types, p, a, m, u, v, 0);
    }
  }

  lemma FeasibleParts(p: Problem, a: Assignment)
    requires forall v :: v in p.variables ==> Ev(p, a, v.initial).Known?
    requires forall u :: u in p.updates ==> UpdateOk(p, a, u)
    ensures Feasible(p, a) <==> InstancesOk(p, a) && forall c :: 0 <= c <= p.horizon ==> Agreement(p, a, c)
  {
  }

  /** With its constraints true, a built problem is feasible exactly when the rules are kept and their writes agree. */
  lemma BuiltFeasibility(codec: Codec, types: Signature, p: Problem, universe: seq<NamedEvent>, given: set<Expr>,
                         rules: seq<Rule>, parts: seq<Instantiation>, a: Assignment)
    requires Posed(codec, types, p, universe, given, rules, parts) && Conforms(codec, types, a)
    requires ProblemTheory.AllTrue(Elements(p.constraints), p.events, a)
    ensures Feasible(p, a) <==>
            && WritesAgree(rules, universe, a)
            && forall k :: 0 <= k < |rules| ==>
                 GuardedKept(rules[k], universe, p, a) && RequirementsKept(rules[k], universe, p, a)
  {
    assert ProblemTheory.AllTrue(Bounds(universe, p.horizon), p.events, a);
    BuiltCyclesInRange(p, universe, given, rules, parts, a);
    ValuesAreKnown(codec, types, p, a);
    FeasibleParts(p, a);
    InstancesMean(codec, types, p, universe, given, rules, parts, a);
    AgreementMeans(p, universe, given, rules, parts, a);
  }

  /**
   * A choice of values solves a built problem exactly when the given constraints hold, occurring events lie inside the
   * horizon, every rule is kept with its state guards and requirements, and the writes of the rules agree.
   */
  lemma BuiltSolutionsMean(codec: Codec, types: Signature, p: Problem, variables: seq<Variable>,
                           universe: seq<NamedEvent>, given: set<Expr>, rules: seq<Rule>, parts: seq<Instantiation>,
                           choice: seq<nat>)
    requires Posed(codec, types, p, universe, given, rules, parts) && DomainsFit(codec, types, variables)
    requires IsTotal(variables, choice)
    ensures var a := AssignmentOf(variables, choice);
            IsSolution(p, variables, choice) <==>
            && ProblemTheory.AllTrue(given, p.events, a) && InHorizon(universe, p.horizon, a)
            && (forall k :: 0 <= k < |rules| ==> RuleKept(rules[k], universe, p, a))
            && WritesAgree(rules, universe, a)
  {
    var a := AssignmentOf(variables, choice);
    ChoiceConforms(codec, types, variables, choice);
    RulesDecide(codec, types, p, universe, given, rules, parts, a);
    BuiltProblemMeans(p, universe, given, rules, parts, a);
    ConstraintElements(p, a);
    if Satisfies(p, a) { BuiltFeasibility(codec, types, p, universe, given, rules, parts, a); }
  }

  lemma RulesDecide(codec: Codec, types: Signature, p: Problem, universe: seq<NamedEvent>, given: set<Expr>,
                    rules: seq<Rule>, parts: seq<Instantiation>, a: Assignment)
    requires Posed(codec, types, p, universe, given, rules, parts) && Conforms(codec, types, a)
    ensures AllDecide(rules, universe, a)
  {
    SortedTimesDecided(codec, types, universe, a);
    forall k | 0 <= k < |rules| ensures RuleDecided(rules[k], universe, a) {
      SortedRuleDecided(codec, types, rules[k], universe, a);
    }
  }

  lemma ConstraintElements(p: Problem, a: Assignment)
    ensures Satisfies(p, a) <==> ProblemTheory.AllTrue(Elements(p.constraints), p.events, a)
  {
    assert forall e :: e in p.constraints <==> e in Elements(p.constraints);
  }
}
