/** What a built problem means, and that its effects stay inside the horizon. */
module ProblemTheory {
  import opened Common
  import opened Enumeration
  import opened Expressions
  import opened Evaluator
  import opened Problems
  import opened Rules
  import opened State
  import opened RuleMeaning
  import opened RuleCompiler

  // ----- Cycle bounds

  function AtLeastZero(id: Id): Expr {
    Binary(BinaryOp.Le, Literal(Int(0), IntSort), CycleField(id))
  }

  function AtMost(id: Id, horizon: nat): Expr {
    Binary(BinaryOp.Le, CycleField(id), Literal(Int(horizon), IntSort))
  }

  lemma RangeMeans(id: Id, horizon: nat, events: Events, a: Assignment)
    ensures IsTrue(Conjunction([AtLeastZero(id), AtMost(id, horizon)]), events, a) <==>
            ValidCycle(Evaluate(CycleField(id), events, a), horizon)
    ensures Evaluate(CycleField(id), events, a).Known? && Evaluate(CycleField(id), events, a).value.Int? ==>
            Decided(Conjunction([AtLeastZero(id), AtMost(id, horizon)]), events, a)
  {
    var cycle := Evaluate(CycleField(id), events, a);
    var parts := [AtLeastZero(id), AtMost(id, horizon)];
    ConjunctionIsTrue(parts, events, a);
    assert parts[0] in parts && parts[1] in parts && forall e :: e in parts ==> e == parts[0] || e == parts[1];
    assert Evaluate(Literal(Int(0), IntSort), events, a) == Known(Int(0));
    assert Evaluate(Literal(Int(horizon), IntSort), events, a) == Known(Int(horizon));
    assert Evaluate(parts[0], events, a) == EvalBinary(BinaryOp.Le, Known(Int(0)), cycle);
    assert Evaluate(parts[1], events, a) == EvalBinary(BinaryOp.Le, cycle, Known(Int(horizon)));
  }

  lemma BoundIsImplication(id: Id, horizon: nat)
    ensures CycleBound(id, horizon)
            == Binary(Implies, Occurrence(id), Conjunction([AtLeastZero(id), AtMost(id, horizon)]))
  {
  }

  /** A true bound puts the cycle of an occurring event inside the horizon. */
  lemma BoundHolds(id: Id, horizon: nat, events: Events, a: Assignment)
    requires IsTrue(CycleBound(id, horizon), events, a) && IsTrue(Occurrence(id), events, a)
    ensures ValidCycle(Evaluate(CycleField(id), events, a), horizon)
  {
    BoundIsImplication(id, horizon);
    RangeMeans(id, horizon, events, a);
  }

  /** With a decided occurrence and an integer cycle the bound says exactly that. */
  lemma BoundMeans(id: Id, horizon: nat, events: Events, a: Assignment)
    requires Decided(Occurrence(id), events, a)
    requires Evaluate(CycleField(id), events, a).Known? && Evaluate(CycleField(id), events, a).value.Int?
    ensures IsTrue(CycleBound(id, horizon), events, a) <==>
            (IsTrue(Occurrence(id), events, a) ==> ValidCycle(Evaluate(CycleField(id), events, a), horizon))
  {
    BoundIsImplication(id, horizon);
    RangeMeans(id, horizon, events, a);
    ImplicationMeans(Occurrence(id), Conjunction([AtLeastZero(id), AtMost(id, horizon)]), events, a);
  }

  // ----- The parts of a problem

  lemma {:induction false} JoinAllConstraints(parts: seq<Instantiation>)
    ensures forall e :: e in JoinAll(parts).constraints <==> exists k :: 0 <= k < |parts| && e in parts[k].constraints
  {
    if parts != [] { JoinAllConstraints(parts[..|parts| - 1]); }
  }

  lemma {:induction false} JoinAllEffects(parts: seq<Instantiation>)
    ensures forall r :: r in JoinAll(parts).requirements <==> exists k :: 0 <= k < |parts| && r in parts[k].requirements
    ensures forall u :: u in JoinAll(parts).updates <==> exists k :: 0 <= k < |parts| && u in parts[k].updates
    ensures forall f :: f in JoinAll(parts).forwards <==> exists k :: 0 <= k < |parts| && f in parts[k].forwards
    ensures forall s :: s in JoinAll(parts).supports <==> exists k :: 0 <= k < |parts| && s in parts[k].supports
    ensures forall f :: f in JoinAll(parts).firings <==> exists k :: 0 <= k < |parts| && f in parts[k].firings
  {
    if parts != [] { JoinAllEffects(parts[..|parts| - 1]); }
  }

  ghost predicate AllTrue(es: set<Expr>, events: Events, a: Assignment) {
    forall e :: e in es ==> IsTrue(e, events, a)
  }

  /** What one rule without guards requires; guarded rules are part of the state semantics. */
  ghost predicate RuleHolds(rule: Rule, universe: seq<NamedEvent>, a: Assignment) {
    rule.guardMode || Kept(rule, universe, a)
  }

  lemma PartMeans(rule: Rule, universe: seq<NamedEvent>, part: Instantiation, a: Assignment)
    requires ValidRule(rule) && RuleDecided(rule, universe, a) && RuleCompiled(rule, universe, part)
    ensures AllTrue(Elements(part.constraints), EventMap(universe), a) <==> RuleHolds(rule, universe, a)
  {
    var ins, outs :| Tuples(rule.inputs, universe, ins) && Tuples(rule.outputs, universe, outs)
        && Compiled(rule, ins, outs, part);
    if !rule.guardMode { CompilationPreservesMeaning(rule, universe, ins, outs, part, a); }
  }

  lemma PartIsSound(rule: Rule, universe: seq<NamedEvent>, part: Instantiation, a: Assignment)
    requires ValidRule(rule) && RuleCompiled(rule, universe, part)
    requires AllTrue(Elements(part.constraints), EventMap(universe), a)
    ensures RuleHolds(rule, universe, a)
  {
    var ins, outs :| Tuples(rule.inputs, universe, ins) && Tuples(rule.outputs, universe, outs)
        && Compiled(rule, ins, outs, part);
    if !rule.guardMode {
      assert forall e :: e in part.constraints ==> e in Elements(part.constraints);
      CompilationIsSound(rule, universe, ins, outs, part, a);
    }
  }

  lemma PartsTrue(parts: seq<Instantiation>, events: Events, a: Assignment)
    ensures AllTrue(Elements(JoinAll(parts).constraints), events, a) <==>
            forall k :: 0 <= k < |parts| ==> AllTrue(Elements(parts[k].constraints), events, a)
  {
    JoinAllConstraints(parts);
    if AllTrue(Elements(JoinAll(parts).constraints), events, a) {
      forall k, e | 0 <= k < |parts| && e in Elements(parts[k].constraints) ensures IsTrue(e, events, a) {
        assert e in Elements(JoinAll(parts).constraints);
      }
    }
  }

  /** Occurring events have their cycles inside the horizon. */
  ghost predicate InHorizon(universe: seq<NamedEvent>, horizon: nat, a: Assignment) {
    forall e :: e in universe && e.event.cycle != Concrete(Nothing)
                && IsTrue(Occurrence(e.id), EventMap(universe), a) ==>
      ValidCycle(Evaluate(CycleField(e.id), EventMap(universe), a), horizon)
  }

  lemma EventOf(universe: seq<NamedEvent>, e: NamedEvent)
    requires DistinctIds(universe) && e in universe
    ensures e.id in EventMap(universe) && EventMap(universe)[e.id] == e.event
  {
    var last := |universe| - 1;
    assert universe == universe[..last] + [universe[last]];
    if e != universe[last] {
      EventOf(universe[..last], e);
    }
  }

  /** The horizon in terms of the attributes of the events: their occurrence, and an integer cycle within it. */
  lemma InHorizonMeans(universe: seq<NamedEvent>, horizon: nat, a: Assignment)
    requires DistinctIds(universe)
    ensures InHorizon(universe, horizon, a) <==>
            forall e :: e in universe && e.event.cycle != Concrete(Nothing)
                        && Attr(e.event.occurs, a) == Known(TRUE) ==>
              var cycle := Attr(e.event.cycle, a);
              cycle.Known? && cycle.value.Int? && 0 <= cycle.value.n <= horizon
  {
    forall e | e in universe
      ensures Evaluate(Occurrence(e.id), EventMap(universe), a) == Attr(e.event.occurs, a)
      ensures Evaluate(CycleField(e.id), EventMap(universe), a) == Attr(e.event.cycle, a)
    {
      EventOf(universe, e);
    }
  }

  /** Occurrences are booleans and cycles are integers. */
  ghost predicate TimesDecided(universe: seq<NamedEvent>, a: Assignment) {
    forall e :: e in universe && e.event.cycle != Concrete(Nothing) ==>
      && Decided(Occurrence(e.id), EventMap(universe), a)
      && Evaluate(CycleField(e.id), EventMap(universe), a).Known?
      && Evaluate(CycleField(e.id), EventMap(universe), a).value.Int?
  }

  lemma BoundsMean(universe: seq<NamedEvent>, horizon: nat, a: Assignment)
    requires TimesDecided(universe, a)
    ensures AllTrue(Bounds(universe, horizon), EventMap(universe), a) <==> InHorizon(universe, horizon, a)
  {
    forall e | e in universe && HasCycle(e)
      ensures CycleBound(e.id, horizon) in Bounds(universe, horizon)
      ensures IsTrue(CycleBound(e.id, horizon), EventMap(universe), a) <==>
              (IsTrue(Occurrence(e.id), EventMap(universe), a) ==>
                 ValidCycle(Evaluate(CycleField(e.id), EventMap(universe), a), horizon))
    {
      BoundMeans(e.id, horizon, EventMap(universe), a);
    }
  }

  ghost predicate AllDecide(rules: seq<Rule>, universe: seq<NamedEvent>, a: Assignment) {
    TimesDecided(universe, a) && forall k :: 0 <= k < |rules| ==>
      ValidRule(rules[k]) && RuleDecided(rules[k], universe, a)
  }

  /** The constraints of a built problem hold exactly when the given ones, the horizon and every rule do. */
  lemma BuiltProblemMeans(p: Problem, universe: seq<NamedEvent>, given: set<Expr>, rules: seq<Rule>,
                          parts: seq<Instantiation>, a: Assignment)
    requires Built(p, universe, given, rules, parts) && AllDecide(rules, universe, a)
    ensures AllTrue(Elements(p.constraints), p.events, a) <==>
            && AllTrue(given, p.events, a) && InHorizon(universe, p.horizon, a)
            && forall k :: 0 <= k < |rules| ==> RuleHolds(rules[k], universe, a)
  {
    BoundsMean(universe, p.horizon, a);
    PartsTrue(parts, p.events, a);
    forall k | 0 <= k < |rules|
      ensures AllTrue(Elements(parts[k].constraints), p.events, a) <==> RuleHolds(rules[k], universe, a)
    {
      assert RuleCompiled(rules[k], universe, parts[k]);
      PartMeans(rules[k], universe, parts[k], a);
    }
    assert AllTrue(Elements(p.constraints), p.events, a) <==>
           AllTrue(given, p.events, a) && AllTrue(Bounds(universe, p.horizon), p.events, a)
           && AllTrue(Elements(JoinAll(parts).constraints), p.events, a);
  }

  /** True constraints of a built problem make the given ones, the horizon and every rule hold, also when undecided. */
  lemma BuiltProblemIsSound(p: Problem, universe: seq<NamedEvent>, given: set<Expr>, rules: seq<Rule>,
                            parts: seq<Instantiation>, a: Assignment)
    requires Built(p, universe, given, rules, parts) && forall k :: 0 <= k < |rules| ==> ValidRule(rules[k])
    requires AllTrue(Elements(p.constraints), p.events, a)
    ensures AllTrue(given, p.events, a) && InHorizon(universe, p.horizon, a)
    ensures forall k :: 0 <= k < |rules| ==> RuleHolds(rules[k], universe, a)
  {
    assert AllTrue(Bounds(universe, p.horizon), p.events, a);
    forall e | e in universe && HasCycle(e) && IsTrue(Occurrence(e.id), p.events, a)
      ensures ValidCycle(Evaluate(CycleField(e.id), p.events, a), p.horizon)
    {
      assert CycleBound(e.id, p.horizon) in Bounds(universe, p.horizon);
      BoundHolds(e.id, p.horizon, p.events, a);
    }
    PartsTrue(parts, p.events, a);
    forall k | 0 <= k < |rules| ensures RuleHolds(rules[k], universe, a) {
      assert RuleCompiled(rules[k], universe, parts[k]);
      PartIsSound(rules[k], universe, parts[k], a);
    }
  }

  // ----- Anchors stay inside the horizon

  /** Some state effect is anchored at the role. */
  predicate Anchors(rule: Rule, at: string) {
    (exists q | q in rule.requirements :: q.at == at) || (exists u | u in rule.updates :: u.at == at)
  }

  /** Events that may anchor a state effect have a cycle. */
  ghost predicate Anchorable(rule: Rule, universe: seq<NamedEvent>) {
    forall role :: role in rule.inputs + rule.outputs && Anchors(rule, role.name) ==>
      forall e :: e in universe && e.event.eventType == role.eventType ==> HasCycle(e)
  }

  /** A role is bound to an event of its type in the tuple. */
  lemma BoundRole(roles: seq<Role>, universe: seq<NamedEvent>, t: seq<Id>, at: string)
    returns (role: Role, e: NamedEvent)
    requires NoDup(Names(roles)) && IsTuple(roles, universe, t) && at in Names(roles)
    ensures role in roles && role.name == at && e in universe && e.event.eventType == role.eventType
    ensures at in Bind(roles, t) && Bind(roles, t)[at] == e.id && e.id in t
  {
    var k :| 0 <= k < |roles| && Names(roles)[k] == at;
    ZipAt(Names(roles), t, k);
    role := roles[k];
    IdsOfTypeMembers(universe, role.eventType);
    assert t[k] in IdsOfType(universe, role.eventType);
    e :| e in universe && e.id == t[k] && e.event.eventType == role.eventType;
  }

  lemma SidesNoDup(rule: Rule)
    requires ValidRule(rule)
    ensures NoDup(Names(rule.inputs)) && NoDup(Names(rule.outputs))
    ensures Elements(Names(rule.inputs + rule.outputs)) == Elements(Names(rule.inputs)) + Elements(Names(rule.outputs))
  {
    var all := Names(rule.inputs + rule.outputs);
    assert all == Names(rule.inputs) + Names(rule.outputs);
    forall j, k | 0 <= j < k < |rule.outputs| ensures Names(rule.outputs)[j] != Names(rule.outputs)[k] {
      assert all[|rule.inputs| + j] == Names(rule.outputs)[j] && all[|rule.inputs| + k] == Names(rule.outputs)[k];
    }
    forall j, k | 0 <= j < k < |rule.inputs| ensures Names(rule.inputs)[j] != Names(rule.inputs)[k] {
      assert all[j] == Names(rule.inputs)[j] && all[k] == Names(rule.inputs)[k];
    }
    AppendAll(Names(rule.inputs), Names(rule.outputs));
  }

  /** What the assignment gives the anchors of a rule. */
  ghost predicate AnchorsReady(rule: Rule, universe: seq<NamedEvent>, horizon: nat, a: Assignment) {
    && ValidRule(rule) && Anchorable(rule, universe)
    && AllTrue(Bounds(universe, horizon), EventMap(universe), a)
  }

  /** An occurring anchor has its cycle inside the horizon. */
  lemma SideInRange(rule: Rule, roles: seq<Role>, universe: seq<NamedEvent>, t: seq<Id>, at: string, horizon: nat,
                    a: Assignment)
    requires AnchorsReady(rule, universe, horizon, a) && Anchors(rule, at) && roles in {rule.inputs, rule.outputs}
    requires IsTuple(roles, universe, t) && at in Names(roles) && AllOccur(t, EventMap(universe), a)
    ensures at in Bind(roles, t) && ValidCycle(Evaluate(CycleOf(Bind(roles, t), at), EventMap(universe), a), horizon)
  {
    SidesNoDup(rule);
    var role, e := BoundRole(roles, universe, t, at);
    assert role in rule.inputs + rule.outputs && HasCycle(e);
    assert CycleBound(e.id, horizon) in Bounds(universe, horizon);
    BoundHolds(e.id, horizon, EventMap(universe), a);
  }

  lemma AnchorInRange(rule: Rule, universe: seq<NamedEvent>, i: seq<Id>, o: seq<Id>, at: string, horizon: nat,
                      a: Assignment)
    requires AnchorsReady(rule, universe, horizon, a) && Anchors(rule, at) && at in Names(rule.inputs + rule.outputs)
    requires IsTuple(rule.inputs, universe, i) && IsTuple(rule.outputs, universe, o)
    requires AllOccur(i, EventMap(universe), a) && AllOccur(o, EventMap(universe), a)
    ensures ValidCycle(Evaluate(CycleOf(BindAll(rule, i, o), at), EventMap(universe), a), horizon)
  {
    SidesNoDup(rule);
    BindKeys(rule.outputs, o);
    assert at in Elements(Names(rule.inputs + rule.outputs));
    if at in Names(rule.outputs) {
      SideInRange(rule, rule.outputs, universe, o, at, horizon, a);
    } else {
      SideInRange(rule, rule.inputs, universe, i, at, horizon, a);
    }
  }

  /** Effects of one rule have their cycles in range. */
  ghost predicate PartInRange(part: Instantiation, p: Problem, a: Assignment) {
    && (forall r :: r in part.requirements && IsTrue(r.activation, p.events, a) ==>
          ValidCycle(Ev(p, a, r.cycle), p.horizon))
    && (forall u :: u in part.updates && IsTrue(u.activation, p.events, a) ==> ValidCycle(Ev(p, a, u.cycle), p.horizon))
    && (forall f :: f in part.forwards && IsTrue(f.antecedent, p.events, a) ==> GuardsInRange(p, a, f.predicates))
    && (forall s :: s in part.supports && IsTrue(s.antecedent, p.events, a) ==> CandidatesInRange(p, a, s.supports))
  }

  lemma EffectsInRange(rule: Rule, universe: seq<NamedEvent>, ins: seq<seq<Id>>, outs: seq<seq<Id>>,
                       part: Instantiation, p: Problem, a: Assignment)
    requires AnchorsReady(rule, universe, p.horizon, a) && p.events == EventMap(universe)
    requires Tuples(rule.inputs, universe, ins) && Tuples(rule.outputs, universe, outs)
    requires Compiled(rule, ins, outs, part)
    ensures forall r :: r in part.requirements && IsTrue(r.activation, p.events, a) ==>
      ValidCycle(Ev(p, a, r.cycle), p.horizon)
    ensures forall u :: u in part.updates && IsTrue(u.activation, p.events, a) ==>
      ValidCycle(Ev(p, a, u.cycle), p.horizon)
  {
    forall r | r in part.requirements && IsTrue(r.activation, p.events, a)
      ensures ValidCycle(Ev(p, a, r.cycle), p.horizon)
    {
      assert r in Elements(part.requirements);
      var f, q :| f in Firings(rule, ins, outs) && q in rule.requirements && r == RequirementOf(q, f);
      var i, o :| i in ins && o in outs && NoDup(i + o) && f == FiringOf(rule, i, o);
      FiringMeans(rule, i, o, p.events, a);
      AnchorInRange(rule, universe, i, o, q.at, p.horizon, a);
    }
    forall u | u in part.updates && IsTrue(u.activation, p.events, a) ensures ValidCycle(Ev(p, a, u.cycle), p.horizon) {
      assert u in Elements(part.updates);
      var f, q :| f in Firings(rule, ins, outs) && q in rule.updates && u == UpdateOf(q, f);
      var i, o :| i in ins && o in outs && NoDup(i + o) && f == FiringOf(rule, i, o);
      FiringMeans(rule, i, o, p.events, a);
      AnchorInRange(rule, universe, i, o, q.at, p.horizon, a);
    }
  }

  lemma GuardCyclesInRange(rule: Rule, m: Binding, p: Problem, a: Assignment)
    requires forall q :: q in rule.requirements ==> ValidCycle(Ev(p, a, CycleOf(m, q.at)), p.horizon)
    ensures GuardsInRange(p, a, GuardsOf(rule, m))
  {
    forall g | g in GuardsOf(rule, m) ensures ValidCycle(Ev(p, a, g.cycle), p.horizon) {
      var k :| 0 <= k < |rule.requirements| && GuardsOf(rule, m)[k] == g;
      assert rule.requirements[k] in rule.requirements;
    }
  }

  lemma ForwardInRange(rule: Rule, universe: seq<NamedEvent>, i: seq<Id>, p: Problem, a: Assignment)
    requires AnchorsReady(rule, universe, p.horizon, a) && p.events == EventMap(universe) && InputAnchored(rule)
    requires IsTuple(rule.inputs, universe, i) && IsTrue(Antecedent(rule, i), p.events, a)
    ensures GuardsInRange(p, a, GuardsOf(rule, Bind(rule.inputs, i)))
  {
    AntecedentMeans(rule, i, p.events, a);
    forall q | q in rule.requirements ensures ValidCycle(Ev(p, a, CycleOf(Bind(rule.inputs, i), q.at)), p.horizon) {
      SideInRange(rule, rule.inputs, universe, i, q.at, p.horizon, a);
    }
    GuardCyclesInRange(rule, Bind(rule.inputs, i), p, a);
  }

  lemma CandidateInRange(rule: Rule, universe: seq<NamedEvent>, i: seq<Id>, o: seq<Id>, p: Problem, a: Assignment)
    requires AnchorsReady(rule, universe, p.horizon, a) && p.events == EventMap(universe)
    requires IsTuple(rule.inputs, universe, i) && IsTuple(rule.outputs, universe, o) && AllOccur(o, p.events, a)
    requires IsTrue(CandidateOf(rule, i, o).expression, p.events, a)
    ensures GuardsInRange(p, a, CandidateOf(rule, i, o).predicates)
  {
    var m := BindAll(rule, i, o);
    BoundConjunction(i, rule.when, rule.ensured, m, p.events, a);
    forall q | q in rule.requirements ensures ValidCycle(Ev(p, a, CycleOf(m, q.at)), p.horizon) {
      AnchorInRange(rule, universe, i, o, q.at, p.horizon, a);
    }
    GuardCyclesInRange(rule, m, p, a);
  }

  lemma SupportInRange(rule: Rule, universe: seq<NamedEvent>, ins: seq<seq<Id>>, o: seq<Id>, p: Problem, a: Assignment)
    requires AnchorsReady(rule, universe, p.horizon, a) && p.events == EventMap(universe)
    requires Tuples(rule.inputs, universe, ins) && IsTuple(rule.outputs, universe, o)
    requires IsTrue(InScope(rule, o), p.events, a)
    ensures CandidatesInRange(p, a, SupportCandidates(rule, ins, o))
  {
    InScopeMeans(rule, o, p.events, a);
    CandidateMembers(rule, ins, o);
    forall k | k in SupportCandidates(rule, ins, o) && IsTrue(k.expression, p.events, a)
      ensures GuardsInRange(p, a, k.predicates)
    {
      var i :| i in ins && NoDup(i + o) && k == CandidateOf(rule, i, o);
      CandidateInRange(rule, universe, i, o, p, a);
    }
  }

  lemma RuleInRange(rule: Rule, universe: seq<NamedEvent>, part: Instantiation, p: Problem, a: Assignment)
    requires AnchorsReady(rule, universe, p.horizon, a) && p.events == EventMap(universe)
    requires RuleCompiled(rule, universe, part)
    ensures PartInRange(part, p, a)
  {
    var ins, outs :| Tuples(rule.inputs, universe, ins) && Tuples(rule.outputs, universe, outs)
        && Compiled(rule, ins, outs, part);
    EffectsInRange(rule, universe, ins, outs, part, p, a);
    forall f | f in part.forwards && IsTrue(f.antecedent, p.events, a) ensures GuardsInRange(p, a, f.predicates) {
      assert f in Elements(part.forwards);
      var i :| i in ins && NoDup(i) && f == ForwardGuarded(rule, i, outs);
      ForwardInRange(rule, universe, i, p, a);
    }
    forall s | s in part.supports && IsTrue(s.antecedent, p.events, a) ensures CandidatesInRange(p, a, s.supports) {
      assert s in Elements(part.supports);
      var o :| o in outs && NoDup(o) && s == SupportGuarded(rule, ins, o);
      SupportInRange(rule, universe, ins, o, p, a);
    }
  }

  /** In a built problem whose constraints hold, every active effect has a cycle inside the horizon. */
  lemma BuiltCyclesInRange(p: Problem, universe: seq<NamedEvent>, given: set<Expr>, rules: seq<Rule>,
                           parts: seq<Instantiation>, a: Assignment)
    requires Built(p, universe, given, rules, parts) && AllTrue(Elements(p.constraints), p.events, a)
    requires forall k :: 0 <= k < |rules| ==> ValidRule(rules[k]) && Anchorable(rules[k], universe)
    ensures CyclesInRange(p, a)
  {
    forall k | 0 <= k < |rules| ensures PartInRange(parts[k], p, a) {
      assert RuleCompiled(rules[k], universe, parts[k]);
      assert AllTrue(Bounds(universe, p.horizon), p.events, a);
      RuleInRange(rules[k], universe, parts[k], p, a);
    }
    JoinAllEffects(parts);
  }
}
