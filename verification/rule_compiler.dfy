/** The loops that instantiate rules over a bounded universe of events, and build the bounded problem. */
module RuleCompiler {
  import opened Common
  import opened Enumeration
  import opened Expressions
  import opened Problems
  import opened Rules

  // ----- Role bindings

  lemma PrefixIds(events: seq<NamedEvent>, k: nat, eventType: string)
    requires k < |events|
    ensures IdsOfType(events[..k + 1], eventType)
         == IdsOfType(events[..k], eventType) + if events[k].event.eventType == eventType then [events[k].id] else []
  {
    assert events[..k + 1][..k] == events[..k];
  }

  /** The events of each type, in order. */
  method GroupByType(events: seq<NamedEvent>) returns (byType: map<string, seq<Id>>)
    ensures forall t :: t in byType <==> IdsOfType(events, t) != []
    ensures forall t :: t in byType ==> byType[t] == IdsOfType(events, t)
  {
    byType := map[];
    for k := 0 to |events|
      invariant forall t :: t in byType <==> IdsOfType(events[..k], t) != []
      invariant forall t :: t in byType ==> byType[t] == IdsOfType(events[..k], t)
    {
      var e := events[k];
      forall t ensures IdsOfType(events[..k + 1], t)
                    == IdsOfType(events[..k], t) + if e.event.eventType == t then [e.id] else []
      {
        PrefixIds(events, k, t);
      }
      var earlier := if e.event.eventType in byType then byType[e.event.eventType] else [];
      byType := byType[e.event.eventType := earlier + [e.id]];
    }
    WholePrefix(events);
  }

  /** Every tuple of events that fills the roles, once. */
  method RoleBindings(roles: seq<Role>, byType: map<string, seq<Id>>, ghost events: seq<NamedEvent>)
    returns (tuples: seq<seq<Id>>)
    requires DistinctIds(events)
    requires forall t :: t in byType <==> IdsOfType(events, t) != []
    requires forall t :: t in byType ==> byType[t] == IdsOfType(events, t)
    ensures Tuples(roles, events, tuples)
  {
    var lists := [];
    for k := 0 to |roles|
      invariant |lists| == k && forall j :: 0 <= j < k ==> lists[j] == IdsOfType(events, roles[j].eventType)
    {
      lists := lists + [if roles[k].eventType in byType then byType[roles[k].eventType] else []];
    }
    forall k | 0 <= k < |lists| ensures NoDup(lists[k]) { IdsOfTypeMembers(events, roles[k].eventType); }
    ProductExact(lists);
    forall t: seq<Id> ensures Chooses(t, lists) <==> IsTuple(roles, events, t) { }
    if exists k :: 0 <= k < |lists| && lists[k] == [] {
      assert forall t :: t in Product(lists) ==> Chooses(t, lists);
      tuples := [];
    } else {
      tuples := Product(lists);
    }
  }

  // ----- One input tuple

  /** The alternatives and the firings of one input tuple. */
  method Fire(rule: Rule, i: seq<Id>, outs: seq<seq<Id>>) returns (alternatives: seq<Expr>, firings: seq<Firing>)
    ensures alternatives == Alternatives(rule, i, outs)
    ensures Elements(firings) == Firings(rule, [i], outs)
  {
    alternatives, firings := [], [];
    for k := 0 to |outs|
      invariant alternatives == Alternatives(rule, i, outs[..k])
      invariant Elements(firings) == set o | o in Elements(outs[..k]) && NoDup(i + o) :: FiringOf(rule, i, o)
    {
      assert outs[..k + 1][..k] == outs[..k];
      PrefixElements(outs, k);
      if NoDup(i + outs[k]) {
        alternatives := alternatives + [Conjunction(Producing(rule, i, outs[k]))];
        AppendOne(firings, FiringOf(rule, i, outs[k]));
        firings := firings + [FiringOf(rule, i, outs[k])];
      }
    }
    WholePrefix(outs);
    assert forall o :: o in outs <==> o in Elements(outs);
  }

  method FiringRequirements(rule: Rule, f: Firing) returns (requirements: seq<Requirement>)
    ensures Elements(requirements) == set q | q in rule.requirements :: RequirementOf(q, f)
  {
    requirements := [];
    for k := 0 to |rule.requirements|
      invariant Elements(requirements) == set q | q in Elements(rule.requirements[..k]) :: RequirementOf(q, f)
    {
      PrefixElements(rule.requirements, k);
      AppendOne(requirements, RequirementOf(rule.requirements[k], f));
      requirements := requirements + [RequirementOf(rule.requirements[k], f)];
    }
    WholePrefix(rule.requirements);
    assert forall q :: q in rule.requirements <==> q in Elements(rule.requirements);
  }

  method FiringUpdates(rule: Rule, f: Firing) returns (updates: seq<Update>)
    ensures Elements(updates) == set u | u in rule.updates :: UpdateOf(u, f)
  {
    updates := [];
    for k := 0 to |rule.updates|
      invariant Elements(updates) == set u | u in Elements(rule.updates[..k]) :: UpdateOf(u, f)
    {
      PrefixElements(rule.updates, k);
      AppendOne(updates, UpdateOf(rule.updates[k], f));
      updates := updates + [UpdateOf(rule.updates[k], f)];
    }
    WholePrefix(rule.updates);
    assert forall u :: u in rule.updates <==> u in Elements(rule.updates);
  }

  /** The state effects of complete bindings. */
  method Effects(rule: Rule, firings: seq<Firing>) returns (requirements: seq<Requirement>, updates: seq<Update>)
    ensures Elements(requirements) == set f, q | f in Elements(firings) && q in rule.requirements :: RequirementOf(q, f)
    ensures Elements(updates) == set f, u | f in Elements(firings) && u in rule.updates :: UpdateOf(u, f)
  {
    requirements, updates := [], [];
    for k := 0 to |firings|
      invariant Elements(requirements) ==
                set f, q | f in Elements(firings[..k]) && q in rule.requirements :: RequirementOf(q, f)
      invariant Elements(updates) == set f, u | f in Elements(firings[..k]) && u in rule.updates :: UpdateOf(u, f)
    {
      PrefixElements(firings, k);
      var required := FiringRequirements(rule, firings[k]);
      var updated := FiringUpdates(rule, firings[k]);
      AppendAll(requirements, required);
      AppendAll(updates, updated);
      requirements, updates := requirements + required, updates + updated;
    }
    WholePrefix(firings);
  }

  const NOTHING := Instantiation([], [], [], [], [], [])

  function Join(r: Instantiation, s: Instantiation): Instantiation {
    Instantiation(r.constraints + s.constraints, r.requirements + s.requirements, r.updates + s.updates,
                  r.forwards + s.forwards, r.supports + s.supports, r.firings + s.firings)
  }

  /** The part of a compiled rule that comes from some of its input tuples. */
  ghost predicate InputPart(rule: Rule, ins: seq<seq<Id>>, outs: seq<seq<Id>>, r: Instantiation) {
    && Elements(r.constraints) ==
         (if rule.guardMode then {} else set i | i in ins && NoDup(i) :: Forward(rule, i, outs))
    && Elements(r.forwards) ==
         (if rule.guardMode && InputAnchored(rule)
          then set i | i in ins && NoDup(i) :: ForwardGuarded(rule, i, outs)
          else {})
    && r.supports == []
    && Elements(r.firings) == Firings(rule, ins, outs)
    && Elements(r.requirements) ==
         (if rule.guardMode then {}
          else set f, q | f in Firings(rule, ins, outs) && q in rule.requirements :: RequirementOf(q, f))
    && Elements(r.updates) ==
         (if rule.guardMode then {}
          else set f, u | f in Firings(rule, ins, outs) && u in rule.updates :: UpdateOf(u, f))
  }

  lemma JoinElements(r: Instantiation, s: Instantiation)
    ensures Elements(Join(r, s).constraints) == Elements(r.constraints) + Elements(s.constraints)
    ensures Elements(Join(r, s).requirements) == Elements(r.requirements) + Elements(s.requirements)
    ensures Elements(Join(r, s).updates) == Elements(r.updates) + Elements(s.updates)
    ensures Elements(Join(r, s).forwards) == Elements(r.forwards) + Elements(s.forwards)
    ensures Elements(Join(r, s).supports) == Elements(r.supports) + Elements(s.supports)
    ensures Elements(Join(r, s).firings) == Elements(r.firings) + Elements(s.firings)
  {
    AppendAll(r.constraints, s.constraints);
    AppendAll(r.requirements, s.requirements);
    AppendAll(r.updates, s.updates);
    AppendAll(r.forwards, s.forwards);
    AppendAll(r.supports, s.supports);
    AppendAll(r.firings, s.firings);
  }

  lemma FiringsJoin(rule: Rule, ins: seq<seq<Id>>, more: seq<seq<Id>>, outs: seq<seq<Id>>)
    ensures Firings(rule, ins + more, outs) == Firings(rule, ins, outs) + Firings(rule, more, outs)
  {
    assert forall i :: i in ins + more <==> i in ins || i in more;
  }

  lemma InputPartsJoin(rule: Rule, ins: seq<seq<Id>>, more: seq<seq<Id>>, outs: seq<seq<Id>>, r: Instantiation,
                       s: Instantiation)
    requires InputPart(rule, ins, outs, r) && InputPart(rule, more, outs, s)
    ensures InputPart(rule, ins + more, outs, Join(r, s))
  {
    assert forall i :: i in ins + more <==> i in ins || i in more;
    JoinElements(r, s);
    FiringsJoin(rule, ins, more, outs);
  }

  lemma SkippedInput(rule: Rule, i: seq<Id>, outs: seq<seq<Id>>)
    requires !NoDup(i)
    ensures InputPart(rule, [i], outs, NOTHING)
  {
    var j, k :| 0 <= j < k < |i| && i[j] == i[k];
    forall o: seq<Id> ensures !NoDup(i + o) {
      assert (i + o)[j] == (i + o)[k];
    }
  }

  method InstantiateInput(rule: Rule, i: seq<Id>, outs: seq<seq<Id>>) returns (r: Instantiation)
    ensures InputPart(rule, [i], outs, r)
  {
    if !NoDup(i) {
      SkippedInput(rule, i, outs);
      return NOTHING;
    }
    var alternatives, firings := Fire(rule, i, outs);
    if rule.guardMode {
      var forwards := [];
      if InputAnchored(rule) {
        forwards := [GuardedForward(Antecedent(rule, i), GuardsOf(rule, Bind(rule.inputs, i)),
                                    Disjunction(alternatives))];
        assert forwards == [ForwardGuarded(rule, i, outs)];
      }
      return Instantiation([], [], [], forwards, [], firings);
    }
    var requirements, updates := Effects(rule, firings);
    r := Instantiation([Forward(rule, i, outs)], requirements, updates, [], [], firings);
  }

  // ----- Exact support

  method Candidates(rule: Rule, ins: seq<seq<Id>>, o: seq<Id>) returns (candidates: seq<SupportCandidate>)
    ensures candidates == SupportCandidates(rule, ins, o)
  {
    candidates := [];
    for k := 0 to |ins|
      invariant candidates == SupportCandidates(rule, ins[..k], o)
    {
      assert ins[..k + 1][..k] == ins[..k];
      if NoDup(ins[k] + o) {
        candidates := candidates
          + [SupportCandidate(Conjunction(Supporting(rule, ins[k], o)), GuardsOf(rule, BindAll(rule, ins[k], o)))];
      }
    }
    WholePrefix(ins);
  }

  method InstantiateSupport(rule: Rule, ins: seq<seq<Id>>, outs: seq<seq<Id>>)
    returns (constraints: seq<Expr>, supports: seq<GuardedSupport>)
    ensures Elements(constraints) ==
            if rule.guardMode then {} else set o | o in outs && NoDup(o) :: Support(rule, ins, o)
    ensures Elements(supports) ==
            if rule.guardMode then set o | o in outs && NoDup(o) :: SupportGuarded(rule, ins, o) else {}
  {
    constraints, supports := [], [];
    for k := 0 to |outs|
      invariant Elements(constraints) ==
                if rule.guardMode then {} else set o | o in Elements(outs[..k]) && NoDup(o) :: Support(rule, ins, o)
      invariant Elements(supports) ==
                if rule.guardMode then set o | o in Elements(outs[..k]) && NoDup(o) :: SupportGuarded(rule, ins, o)
                else {}
    {
      PrefixElements(outs, k);
      var o := outs[k];
      if NoDup(o) {
        var candidates := Candidates(rule, ins, o);
        if rule.guardMode {
          AppendOne(supports, SupportGuarded(rule, ins, o));
          supports := supports + [GuardedSupport(InScope(rule, o), candidates)];
        } else {
          AppendOne(constraints, Support(rule, ins, o));
          constraints := constraints
            + [Binary(Implies, InScope(rule, o), Disjunction(CandidateExpressions(candidates)))];
        }
      }
    }
    WholePrefix(outs);
    assert forall o :: o in outs <==> o in Elements(outs);
  }

  // ----- One rule

  /** `r` is the instantiation of the rule over the universe. */
  ghost predicate RuleCompiled(rule: Rule, universe: seq<NamedEvent>, r: Instantiation) {
    exists ins, outs ::
      Tuples(rule.inputs, universe, ins) && Tuples(rule.outputs, universe, outs) && Compiled(rule, ins, outs, r)
  }

  method InstantiateInputs(rule: Rule, ins: seq<seq<Id>>, outs: seq<seq<Id>>) returns (r: Instantiation)
    ensures InputPart(rule, ins, outs, r)
  {
    r := NOTHING;
    for k := 0 to |ins|
      invariant InputPart(rule, ins[..k], outs, r)
    {
      var part := InstantiateInput(rule, ins[k], outs);
      assert ins[..k + 1] == ins[..k] + [ins[k]];
      InputPartsJoin(rule, ins[..k], [ins[k]], outs, r, part);
      r := Join(r, part);
    }
    WholePrefix(ins);
  }

  method Instantiate(rule: Rule, universe: seq<NamedEvent>) returns (r: Instantiation)
    requires DistinctIds(universe)
    ensures RuleCompiled(rule, universe, r)
  {
    var byType := GroupByType(universe);
    var ins := RoleBindings(rule.inputs, byType, universe);
    var outs := RoleBindings(rule.outputs, byType, universe);
    r := InstantiateInputs(rule, ins, outs);
    if rule.exact {
      var constraints, supports := InstantiateSupport(rule, ins, outs);
      AppendAll(r.constraints, constraints);
      r := r.(constraints := r.constraints + constraints, supports := supports);
    }
    assert Compiled(rule, ins, outs, r);
  }

  // ----- The bounded problem

  function HasCycle(e: NamedEvent): bool {
    e.event.cycle != Concrete(Nothing)
  }

  /** An occurring event has its cycle inside the horizon. */
  function CycleBound(id: Id, horizon: nat): Expr {
    var cycle := CycleField(id);
    Binary(Implies, Occurrence(id),
           Conjunction([Binary(BinaryOp.Le, Literal(Int(0), IntSort), cycle),
                        Binary(BinaryOp.Le, cycle, Literal(Int(horizon), IntSort))]))
  }

  ghost function Bounds(universe: seq<NamedEvent>, horizon: nat): set<Expr> {
    set e | e in universe && HasCycle(e) :: CycleBound(e.id, horizon)
  }

  method CycleBounds(universe: seq<NamedEvent>, horizon: nat) returns (constraints: seq<Expr>)
    ensures Elements(constraints) == Bounds(universe, horizon)
  {
    constraints := [];
    for k := 0 to |universe|
      invariant Elements(constraints) ==
                set e | e in Elements(universe[..k]) && HasCycle(e) :: CycleBound(e.id, horizon)
    {
      PrefixElements(universe, k);
      if HasCycle(universe[k]) {
        AppendOne(constraints, CycleBound(universe[k].id, horizon));
        constraints := constraints + [CycleBound(universe[k].id, horizon)];
      }
    }
    WholePrefix(universe);
    assert forall e :: e in universe <==> e in Elements(universe);
  }

  /** The instantiations of all rules, one after the other. */
  function JoinAll(parts: seq<Instantiation>): Instantiation {
    if parts == [] then NOTHING else Join(JoinAll(parts[..|parts| - 1]), parts[|parts| - 1])
  }

  ghost predicate AllCompiled(rules: seq<Rule>, universe: seq<NamedEvent>, parts: seq<Instantiation>) {
    |parts| == |rules| && forall k :: 0 <= k < |rules| ==> RuleCompiled(rules[k], universe, parts[k])
  }

  /** The problem holds the given constraints, the cycle bounds, and what the rules compile to. */
  ghost predicate Built(p: Problem, universe: seq<NamedEvent>, given: set<Expr>, rules: seq<Rule>,
                        parts: seq<Instantiation>) {
    && p.events == EventMap(universe) && AllCompiled(rules, universe, parts)
    && Elements(p.constraints) == given + Bounds(universe, p.horizon) + Elements(JoinAll(parts).constraints)
    && p.requirements == JoinAll(parts).requirements && p.updates == JoinAll(parts).updates
    && p.forwards == JoinAll(parts).forwards && p.supports == JoinAll(parts).supports
  }

  method BuildProblem(universe: seq<NamedEvent>, traceConstraints: seq<Expr>, completionConstraints: seq<Expr>,
                      horizon: nat, variables: seq<StateVariable>, rules: seq<Rule>)
    returns (p: Problem, firings: seq<Firing>, ghost parts: seq<Instantiation>)
    requires DistinctIds(universe)
    ensures p.horizon == horizon && p.variables == variables && firings == JoinAll(parts).firings
    ensures Built(p, universe, Elements(traceConstraints) + Elements(completionConstraints), rules, parts)
  {
    var bounds := CycleBounds(universe, horizon);
    parts := [];
    var all := NOTHING;
    for k := 0 to |rules|
      invariant |parts| == k && forall j :: 0 <= j < k ==> RuleCompiled(rules[j], universe, parts[j])
      invariant all == JoinAll(parts)
    {
      var part := Instantiate(rules[k], universe);
      all := Join(all, part);
      assert (parts + [part])[..k] == parts;
      parts := parts + [part];
    }
    AppendAll(traceConstraints, completionConstraints);
    AppendAll(traceConstraints + completionConstraints, bounds);
    AppendAll(traceConstraints + completionConstraints + bounds, all.constraints);
    p := Problem(EventMap(universe), traceConstraints + completionConstraints + bounds + all.constraints, horizon,
                 variables,
                 all.requirements, all.updates, all.forwards, all.supports);
    firings := all.firings;
  }
}
