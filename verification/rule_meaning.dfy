/** Compiled rules mean what the rules say. */
module RuleMeaning {
  import opened Common
  import opened Enumeration
  import opened Expressions
  import opened Evaluator
  import opened Problems
  import opened Rules
  import opened State

  // ----- What a rule says about an assignment

  ghost predicate AllOccur(ids: seq<Id>, events: Events, a: Assignment) {
    forall id :: id in ids ==> IsTrue(Occurrence(id), events, a)
  }

  /** The expression is true with the roles bound to events. */
  predicate Says(e: Expr, m: Binding, events: Events, a: Assignment) {
    IsTrue(e, Rebind(events, m), a)
  }

  /** The inputs occur and satisfy the guard. */
  ghost predicate Enabled(rule: Rule, i: seq<Id>, events: Events, a: Assignment) {
    AllOccur(i, events, a) && Says(rule.when, Bind(rule.inputs, i), events, a)
  }

  /** The outputs occur and are in scope. */
  ghost predicate Derived(rule: Rule, o: seq<Id>, events: Events, a: Assignment) {
    AllOccur(o, events, a) && Says(rule.outputWhen, Bind(rule.outputs, o), events, a)
  }

  ghost predicate Related(rule: Rule, i: seq<Id>, o: seq<Id>, events: Events, a: Assignment) {
    forall e :: e in rule.ensured ==> Says(e, BindAll(rule, i, o), events, a)
  }

  /** Every enabled input tuple has a related output tuple, with all events distinct. */
  ghost predicate Forwards(rule: Rule, universe: seq<NamedEvent>, a: Assignment) {
    var events := EventMap(universe);
    forall i :: IsTuple(rule.inputs, universe, i) && NoDup(i) && Enabled(rule, i, events, a) ==>
      exists o :: IsTuple(rule.outputs, universe, o) && NoDup(i + o) && Derived(rule, o, events, a)
          && Related(rule, i, o, events, a)
  }

  /** Every derived output tuple has a related enabled input tuple, with all events distinct. */
  ghost predicate Supported(rule: Rule, universe: seq<NamedEvent>, a: Assignment) {
    var events := EventMap(universe);
    forall o :: IsTuple(rule.outputs, universe, o) && NoDup(o) && Derived(rule, o, events, a) ==>
      exists i :: IsTuple(rule.inputs, universe, i) && NoDup(i + o) && Enabled(rule, i, events, a)
          && Related(rule, i, o, events, a)
  }

  /** Every instance of the expressions of the rule evaluates to a boolean. */
  ghost predicate RuleDecided(rule: Rule, universe: seq<NamedEvent>, a: Assignment) {
    var events := EventMap(universe);
    && (forall e :: e in universe ==> Decided(Occurrence(e.id), events, a))
    && (forall i :: IsTuple(rule.inputs, universe, i) ==> Decided(rule.when, Rebind(events, Bind(rule.inputs, i)), a))
    && (forall o :: IsTuple(rule.outputs, universe, o) ==>
          Decided(rule.outputWhen, Rebind(events, Bind(rule.outputs, o)), a))
    && (forall i, o, e | IsTuple(rule.inputs, universe, i) && IsTuple(rule.outputs, universe, o) ::
          e in rule.ensured ==> Decided(e, Rebind(events, BindAll(rule, i, o)), a))
  }

  // ----- Bindings

  lemma BindKeys(roles: seq<Role>, t: seq<Id>)
    requires |t| == |roles|
    ensures Bind(roles, t).Keys == Elements(Names(roles))
  {
  }

  lemma SidesAreDisjoint(rule: Rule)
    requires ValidRule(rule)
    ensures Elements(Names(rule.inputs)) !! Elements(Names(rule.outputs))
  {
    var all := Names(rule.inputs + rule.outputs);
    forall j, k | 0 <= j < |rule.inputs| && 0 <= k < |rule.outputs|
      ensures Names(rule.inputs)[j] != Names(rule.outputs)[k]
    {
      assert all[j] == Names(rule.inputs)[j] && all[|rule.inputs| + k] == Names(rule.outputs)[k];
    }
  }

  /** With both sides bound, a guard reads what it reads with its own side bound. */
  lemma SidesAgree(rule: Rule, i: seq<Id>, o: seq<Id>, events: Events, a: Assignment)
    requires ValidRule(rule) && |i| == |rule.inputs| && |o| == |rule.outputs|
    ensures Evaluate(rule.when, Rebind(events, BindAll(rule, i, o)), a)
            == Evaluate(rule.when, Rebind(events, Bind(rule.inputs, i)), a)
    ensures Evaluate(rule.outputWhen, Rebind(events, BindAll(rule, i, o)), a)
         == Evaluate(rule.outputWhen, Rebind(events, Bind(rule.outputs, o)), a)
  {
    SidesAreDisjoint(rule);
    BindKeys(rule.inputs, i);
    BindKeys(rule.outputs, o);
    EvaluationReadsMentions(rule.when, Rebind(events, BindAll(rule, i, o)), Rebind(events, Bind(rule.inputs, i)), a);
    EvaluationReadsMentions(rule.outputWhen, Rebind(events, BindAll(rule, i, o)), Rebind(events, Bind(rule.outputs, o)),
                            a);
  }

  lemma {:induction false} SubstituteAllAt(es: seq<Expr>, m: Binding)
    ensures |SubstituteAll(es, m)| == |es|
    ensures forall k :: 0 <= k < |es| ==> SubstituteAll(es, m)[k] == Substitute(es[k], m)
  {
    if es != [] {
      SubstituteAllAt(es[1..], m);
      forall k | 0 <= k < |es| ensures SubstituteAll(es, m)[k] == Substitute(es[k], m) {
        if k > 0 { assert es[1..][k - 1] == es[k]; }
      }
    }
  }

  lemma SubstituteAllMembers(es: seq<Expr>, m: Binding)
    ensures forall x :: x in SubstituteAll(es, m) <==> exists e :: e in es && x == Substitute(e, m)
  {
    SubstituteAllAt(es, m);
    forall x | x in SubstituteAll(es, m) ensures exists e :: e in es && x == Substitute(e, m) {
      var k :| 0 <= k < |es| && SubstituteAll(es, m)[k] == x;
      assert es[k] in es;
    }
    forall e | e in es ensures Substitute(e, m) in SubstituteAll(es, m) {
      var k :| 0 <= k < |es| && es[k] == e;
      assert SubstituteAll(es, m)[k] == Substitute(e, m);
    }
  }

  /** Occurrences, one bound guard and bound relations. */
  function BoundParts(ids: seq<Id>, guard: Expr, relations: seq<Expr>, m: Binding): seq<Expr> {
    Occurrences(ids) + [Substitute(guard, m)] + SubstituteAll(relations, m)
  }

  lemma BoundMembers(ids: seq<Id>, guard: Expr, relations: seq<Expr>, m: Binding)
    ensures forall x :: x in BoundParts(ids, guard, relations, m) <==>
              || (exists id :: id in ids && x == Occurrence(id)) || x == Substitute(guard, m)
              || (exists e :: e in relations && x == Substitute(e, m))
  {
    SubstituteAllMembers(relations, m);
    OccurrenceMembers(ids);
  }

  lemma RelationsEvaluate(relations: seq<Expr>, m: Binding, events: Events, a: Assignment)
    ensures forall e :: e in relations ==> Evaluate(Substitute(e, m), events, a) == Evaluate(e, Rebind(events, m), a)
  {
    forall e | e in relations ensures Evaluate(Substitute(e, m), events, a) == Evaluate(e, Rebind(events, m), a) {
      SubstitutionLemma(e, m, events, a);
    }
  }

  /** When every part is true. */
  lemma BoundConjunction(ids: seq<Id>, guard: Expr, relations: seq<Expr>, m: Binding, events: Events, a: Assignment)
    ensures IsTrue(Conjunction(BoundParts(ids, guard, relations, m)), events, a) <==>
            && AllOccur(ids, events, a) && Says(guard, m, events, a)
            && forall e :: e in relations ==> Says(e, m, events, a)
  {
    ConjunctionIsTrue(BoundParts(ids, guard, relations, m), events, a);
    BoundMembers(ids, guard, relations, m);
    SubstitutionLemma(guard, m, events, a);
    RelationsEvaluate(relations, m, events, a);
    var parts := BoundParts(ids, guard, relations, m);
    if forall x :: x in parts ==> IsTrue(x, events, a) {
      assert Substitute(guard, m) in parts;
      forall id | id in ids ensures IsTrue(Occurrence(id), events, a) { assert Occurrence(id) in parts; }
      forall e | e in relations ensures Says(e, m, events, a) { assert Substitute(e, m) in parts; }
    }
  }

  /** When every part is decided. */
  lemma BoundDecided(ids: seq<Id>, guard: Expr, relations: seq<Expr>, m: Binding, events: Events, a: Assignment)
    requires forall id :: id in ids ==> Decided(Occurrence(id), events, a)
    requires Decided(guard, Rebind(events, m), a) && forall e :: e in relations ==> Decided(e, Rebind(events, m), a)
    ensures Decided(Conjunction(BoundParts(ids, guard, relations, m)), events, a)
  {
    BoundMembers(ids, guard, relations, m);
    SubstitutionLemma(guard, m, events, a);
    RelationsEvaluate(relations, m, events, a);
    ConjunctionIsTrue(BoundParts(ids, guard, relations, m), events, a);
  }

  lemma OccurrenceMembers(ids: seq<Id>)
    ensures forall x :: x in Occurrences(ids) <==> exists id :: id in ids && x == Occurrence(id)
  {
    forall id | id in ids ensures Occurrence(id) in Occurrences(ids) {
      var k :| 0 <= k < |ids| && ids[k] == id;
      assert Occurrences(ids)[k] == Occurrence(id);
    }
  }

  // ----- The compiled expressions

  lemma TupleDecided(roles: seq<Role>, universe: seq<NamedEvent>, t: seq<Id>, events: Events, a: Assignment)
    requires IsTuple(roles, universe, t) && forall e :: e in universe ==> Decided(Occurrence(e.id), events, a)
    ensures forall id :: id in t ==> Decided(Occurrence(id), events, a)
  {
    forall k | 0 <= k < |t| ensures Decided(Occurrence(t[k]), events, a) {
      IdsOfTypeMembers(universe, roles[k].eventType);
    }
  }

  lemma AntecedentMeans(rule: Rule, i: seq<Id>, events: Events, a: Assignment)
    ensures IsTrue(Antecedent(rule, i), events, a) <==> Enabled(rule, i, events, a)
  {
    BoundConjunction(i, rule.when, [], Bind(rule.inputs, i), events, a);
    assert BoundParts(i, rule.when, [], Bind(rule.inputs, i)) == Enabling(rule, i);
  }

  lemma AntecedentDecided(rule: Rule, universe: seq<NamedEvent>, i: seq<Id>, a: Assignment)
    requires RuleDecided(rule, universe, a) && IsTuple(rule.inputs, universe, i)
    ensures Decided(Antecedent(rule, i), EventMap(universe), a)
  {
    TupleDecided(rule.inputs, universe, i, EventMap(universe), a);
    BoundDecided(i, rule.when, [], Bind(rule.inputs, i), EventMap(universe), a);
    assert BoundParts(i, rule.when, [], Bind(rule.inputs, i)) == Enabling(rule, i);
  }

  /** Every expression of one complete binding evaluates to a boolean. */
  ghost predicate BindingDecided(rule: Rule, events: Events, i: seq<Id>, o: seq<Id>, a: Assignment) {
    && (forall id :: id in i || id in o ==> Decided(Occurrence(id), events, a))
    && Decided(rule.when, Rebind(events, Bind(rule.inputs, i)), a)
    && Decided(rule.outputWhen, Rebind(events, Bind(rule.outputs, o)), a)
    && (forall e :: e in rule.ensured ==> Decided(e, Rebind(events, BindAll(rule, i, o)), a))
  }

  lemma InstanceDecided(rule: Rule, universe: seq<NamedEvent>, i: seq<Id>, o: seq<Id>, a: Assignment)
    requires RuleDecided(rule, universe, a)
    requires IsTuple(rule.inputs, universe, i) && IsTuple(rule.outputs, universe, o)
    ensures BindingDecided(rule, EventMap(universe), i, o, a)
  {
    TupleDecided(rule.inputs, universe, i, EventMap(universe), a);
    TupleDecided(rule.outputs, universe, o, EventMap(universe), a);
  }

  lemma AlternativeMeans(rule: Rule, events: Events, i: seq<Id>, o: seq<Id>, a: Assignment)
    requires ValidRule(rule) && |i| == |rule.inputs| && |o| == |rule.outputs|
    ensures IsTrue(Conjunction(Producing(rule, i, o)), events, a) <==>
            Derived(rule, o, events, a) && Related(rule, i, o, events, a)
    ensures BindingDecided(rule, events, i, o, a) ==> Decided(Conjunction(Producing(rule, i, o)), events, a)
  {
    SidesAgree(rule, i, o, events, a);
    BoundConjunction(o, rule.outputWhen, rule.ensured, BindAll(rule, i, o), events, a);
    if BindingDecided(rule, events, i, o, a) {
      BoundDecided(o, rule.outputWhen, rule.ensured, BindAll(rule, i, o), events, a);
    }
  }

  lemma CandidateMeans(rule: Rule, events: Events, i: seq<Id>, o: seq<Id>, a: Assignment)
    requires ValidRule(rule) && |i| == |rule.inputs| && |o| == |rule.outputs|
    ensures IsTrue(Conjunction(Supporting(rule, i, o)), events, a) <==>
            Enabled(rule, i, events, a) && Related(rule, i, o, events, a)
    ensures BindingDecided(rule, events, i, o, a) ==> Decided(Conjunction(Supporting(rule, i, o)), events, a)
  {
    SidesAgree(rule, i, o, events, a);
    BoundConjunction(i, rule.when, rule.ensured, BindAll(rule, i, o), events, a);
    if BindingDecided(rule, events, i, o, a) {
      BoundDecided(i, rule.when, rule.ensured, BindAll(rule, i, o), events, a);
    }
  }

  lemma InScopeDecided(rule: Rule, universe: seq<NamedEvent>, o: seq<Id>, a: Assignment)
    requires RuleDecided(rule, universe, a) && IsTuple(rule.outputs, universe, o)
    ensures Decided(InScope(rule, o), EventMap(universe), a)
  {
    var events, m := EventMap(universe), Bind(rule.outputs, o);
    TupleDecided(rule.outputs, universe, o, events, a);
    OccurrenceMembers(o);
    ConjunctionIsTrue(Occurrences(o), events, a);
    SubstitutionLemma(rule.outputWhen, m, events, a);
    var parts := [Conjunction(Occurrences(o)), Substitute(rule.outputWhen, m)];
    ConjunctionIsTrue(parts, events, a);
    assert forall e :: e in parts ==> e == parts[0] || e == parts[1];
  }

  lemma InScopeMeans(rule: Rule, o: seq<Id>, events: Events, a: Assignment)
    ensures IsTrue(InScope(rule, o), events, a) <==> Derived(rule, o, events, a)
  {
    var m := Bind(rule.outputs, o);
    OccurrenceMembers(o);
    ConjunctionIsTrue(Occurrences(o), events, a);
    SubstitutionLemma(rule.outputWhen, m, events, a);
    var parts := [Conjunction(Occurrences(o)), Substitute(rule.outputWhen, m)];
    ConjunctionIsTrue(parts, events, a);
    assert parts[0] in parts && parts[1] in parts && forall e :: e in parts ==> e == parts[0] || e == parts[1];
    if AllOccur(o, events, a) { assert IsTrue(Conjunction(Occurrences(o)), events, a); }
    if IsTrue(Conjunction(Occurrences(o)), events, a) {
      forall id | id in o ensures IsTrue(Occurrence(id), events, a) { assert Occurrence(id) in Occurrences(o); }
    }
  }

  lemma {:induction false} AlternativeMembers(rule: Rule, i: seq<Id>, outs: seq<seq<Id>>)
    ensures forall x :: x in Alternatives(rule, i, outs) <==>
              exists o :: o in outs && NoDup(i + o) && x == Conjunction(Producing(rule, i, o))
  {
    if outs != [] {
      var shorter, last := outs[..|outs| - 1], outs[|outs| - 1];
      AlternativeMembers(rule, i, shorter);
      assert outs == shorter + [last];
      assert forall o :: o in outs <==> o in shorter || o == last;
    }
  }

  lemma {:induction false} CandidateMembers(rule: Rule, ins: seq<seq<Id>>, o: seq<Id>)
    ensures forall k :: k in SupportCandidates(rule, ins, o) <==>
              exists i :: i in ins && NoDup(i + o)
                          && k == SupportCandidate(Conjunction(Supporting(rule, i, o)),
                                                   GuardsOf(rule, BindAll(rule, i, o)))
  {
    if ins != [] {
      var shorter, last := ins[..|ins| - 1], ins[|ins| - 1];
      CandidateMembers(rule, shorter, o);
      assert ins == shorter + [last];
      assert forall i :: i in ins <==> i in shorter || i == last;
    }
  }

  /** Some output tuple is derived from the inputs. */
  ghost predicate HasOutput(rule: Rule, universe: seq<NamedEvent>, i: seq<Id>, a: Assignment) {
    exists o :: IsTuple(rule.outputs, universe, o) && NoDup(i + o) && Derived(rule, o, EventMap(universe), a)
                && Related(rule, i, o, EventMap(universe), a)
  }

  /** Some enabled input tuple justifies the outputs. */
  ghost predicate HasInput(rule: Rule, universe: seq<NamedEvent>, o: seq<Id>, a: Assignment) {
    exists i :: IsTuple(rule.inputs, universe, i) && NoDup(i + o) && Enabled(rule, i, EventMap(universe), a)
                && Related(rule, i, o, EventMap(universe), a)
  }

  lemma AlternativesMean(rule: Rule, universe: seq<NamedEvent>, i: seq<Id>, outs: seq<seq<Id>>, a: Assignment)
    requires ValidRule(rule) && IsTuple(rule.inputs, universe, i) && Tuples(rule.outputs, universe, outs)
    ensures IsTrue(Disjunction(Alternatives(rule, i, outs)), EventMap(universe), a) ==> HasOutput(rule, universe, i, a)
    ensures RuleDecided(rule, universe, a) ==>
      && (HasOutput(rule, universe, i, a) ==> IsTrue(Disjunction(Alternatives(rule, i, outs)), EventMap(universe), a))
      && Decided(Disjunction(Alternatives(rule, i, outs)), EventMap(universe), a)
  {
    AlternativeMembers(rule, i, outs);
    forall o | IsTuple(rule.outputs, universe, o)
      ensures IsTrue(Conjunction(Producing(rule, i, o)), EventMap(universe), a) <==>
              Derived(rule, o, EventMap(universe), a) && Related(rule, i, o, EventMap(universe), a)
      ensures RuleDecided(rule, universe, a) ==> Decided(Conjunction(Producing(rule, i, o)), EventMap(universe), a)
    {
      if RuleDecided(rule, universe, a) { InstanceDecided(rule, universe, i, o, a); }
      AlternativeMeans(rule, EventMap(universe), i, o, a);
    }
    DisjunctionIsTrue(Alternatives(rule, i, outs), EventMap(universe), a);
    if HasOutput(rule, universe, i, a) {
      var o :| IsTuple(rule.outputs, universe, o) && NoDup(i + o) && Derived(rule, o, EventMap(universe), a)
               && Related(rule, i, o, EventMap(universe), a);
      assert o in outs && Conjunction(Producing(rule, i, o)) in Alternatives(rule, i, outs);
    }
  }

  lemma CandidateExpressionMembers(rule: Rule, ins: seq<seq<Id>>, o: seq<Id>)
    ensures forall x :: x in CandidateExpressions(SupportCandidates(rule, ins, o)) <==>
              exists i :: i in ins && NoDup(i + o) && x == Conjunction(Supporting(rule, i, o))
  {
    var candidates := SupportCandidates(rule, ins, o);
    var es := CandidateExpressions(candidates);
    CandidateMembers(rule, ins, o);
    forall x | x in es ensures exists i :: i in ins && NoDup(i + o) && x == Conjunction(Supporting(rule, i, o)) {
      var k :| 0 <= k < |es| && es[k] == x;
      assert candidates[k] in candidates;
    }
    forall i | i in ins && NoDup(i + o) ensures Conjunction(Supporting(rule, i, o)) in es {
      var candidate := SupportCandidate(Conjunction(Supporting(rule, i, o)), GuardsOf(rule, BindAll(rule, i, o)));
      assert candidate in candidates;
      var k :| 0 <= k < |candidates| && candidates[k] == candidate;
      assert es[k] in es;
    }
  }

  lemma CandidatesMean(rule: Rule, universe: seq<NamedEvent>, ins: seq<seq<Id>>, o: seq<Id>, a: Assignment)
    requires ValidRule(rule) && IsTuple(rule.outputs, universe, o) && Tuples(rule.inputs, universe, ins)
    ensures var es := CandidateExpressions(SupportCandidates(rule, ins, o));
            && (IsTrue(Disjunction(es), EventMap(universe), a) ==> HasInput(rule, universe, o, a))
            && (RuleDecided(rule, universe, a) ==>
                  && (HasInput(rule, universe, o, a) ==> IsTrue(Disjunction(es), EventMap(universe), a))
                  && Decided(Disjunction(es), EventMap(universe), a))
  {
    var es := CandidateExpressions(SupportCandidates(rule, ins, o));
    CandidateExpressionMembers(rule, ins, o);
    forall i | IsTuple(rule.inputs, universe, i)
      ensures IsTrue(Conjunction(Supporting(rule, i, o)), EventMap(universe), a) <==>
              Enabled(rule, i, EventMap(universe), a) && Related(rule, i, o, EventMap(universe), a)
      ensures RuleDecided(rule, universe, a) ==> Decided(Conjunction(Supporting(rule, i, o)), EventMap(universe), a)
    {
      if RuleDecided(rule, universe, a) { InstanceDecided(rule, universe, i, o, a); }
      CandidateMeans(rule, EventMap(universe), i, o, a);
    }
    DisjunctionIsTrue(es, EventMap(universe), a);
    if HasInput(rule, universe, o, a) {
      var i :| IsTuple(rule.inputs, universe, i) && NoDup(i + o) && Enabled(rule, i, EventMap(universe), a)
               && Related(rule, i, o, EventMap(universe), a);
      assert i in ins && Conjunction(Supporting(rule, i, o)) in es;
    }
  }

  /** A true implication with a true left side has a true right side; decided sides decide it. */
  lemma ImplicationMeans(l: Expr, r: Expr, events: Events, a: Assignment)
    ensures IsTrue(Binary(Implies, l, r), events, a) ==> (IsTrue(l, events, a) ==> IsTrue(r, events, a))
    ensures Decided(l, events, a) && Decided(r, events, a) && (IsTrue(l, events, a) ==> IsTrue(r, events, a)) ==>
      IsTrue(Binary(Implies, l, r), events, a)
  {
  }

  lemma ForwardMeans(rule: Rule, universe: seq<NamedEvent>, i: seq<Id>, outs: seq<seq<Id>>, a: Assignment)
    requires ValidRule(rule) && IsTuple(rule.inputs, universe, i) && Tuples(rule.outputs, universe, outs)
    ensures var demanded := Enabled(rule, i, EventMap(universe), a) ==> HasOutput(rule, universe, i, a);
            && (IsTrue(Forward(rule, i, outs), EventMap(universe), a) ==> demanded)
            && (RuleDecided(rule, universe, a) && demanded ==> IsTrue(Forward(rule, i, outs), EventMap(universe), a))
  {
    AntecedentMeans(rule, i, EventMap(universe), a);
    AlternativesMean(rule, universe, i, outs, a);
    if RuleDecided(rule, universe, a) { AntecedentDecided(rule, universe, i, a); }
    ImplicationMeans(Antecedent(rule, i), Disjunction(Alternatives(rule, i, outs)), EventMap(universe), a);
  }

  lemma SupportMeans(rule: Rule, universe: seq<NamedEvent>, ins: seq<seq<Id>>, o: seq<Id>, a: Assignment)
    requires ValidRule(rule) && IsTuple(rule.outputs, universe, o) && Tuples(rule.inputs, universe, ins)
    ensures var demanded := Derived(rule, o, EventMap(universe), a) ==> HasInput(rule, universe, o, a);
            && (IsTrue(Support(rule, ins, o), EventMap(universe), a) ==> demanded)
            && (RuleDecided(rule, universe, a) && demanded ==> IsTrue(Support(rule, ins, o), EventMap(universe), a))
  {
    InScopeMeans(rule, o, EventMap(universe), a);
    CandidatesMean(rule, universe, ins, o, a);
    if RuleDecided(rule, universe, a) { InScopeDecided(rule, universe, o, a); }
    ImplicationMeans(InScope(rule, o), Disjunction(CandidateExpressions(SupportCandidates(rule, ins, o))),
                     EventMap(universe), a);
  }

  // ----- The main result

  /** The rule holds: outputs for enabled inputs and, for an exact rule, inputs for derived outputs. */
  ghost predicate Kept(rule: Rule, universe: seq<NamedEvent>, a: Assignment) {
    Forwards(rule, universe, a) && (rule.exact ==> Supported(rule, universe, a))
  }

  ghost predicate ConstraintsHold(r: Instantiation, universe: seq<NamedEvent>, a: Assignment) {
    forall e :: e in r.constraints ==> IsTrue(e, EventMap(universe), a)
  }

  /** True ground constraints make the rule hold, whatever else is undecided. */
  lemma CompilationIsSound(rule: Rule, universe: seq<NamedEvent>, ins: seq<seq<Id>>, outs: seq<seq<Id>>,
                           r: Instantiation, a: Assignment)
    requires ValidRule(rule) && !rule.guardMode
    requires Tuples(rule.inputs, universe, ins) && Tuples(rule.outputs, universe, outs) && Compiled(rule, ins, outs, r)
    requires ConstraintsHold(r, universe, a)
    ensures Kept(rule, universe, a)
  {
    var events := EventMap(universe);
    forall i | IsTuple(rule.inputs, universe, i) && NoDup(i) && Enabled(rule, i, events, a)
      ensures HasOutput(rule, universe, i, a)
    {
      assert i in ins && Forward(rule, i, outs) in Elements(r.constraints);
      ForwardMeans(rule, universe, i, outs, a);
    }
    if rule.exact {
      forall o | IsTuple(rule.outputs, universe, o) && NoDup(o) && Derived(rule, o, events, a)
        ensures HasInput(rule, universe, o, a)
      {
        assert o in outs && Support(rule, ins, o) in Elements(r.constraints);
        SupportMeans(rule, universe, ins, o, a);
      }
    }
  }

  /** The ground constraints of a rule without guards hold exactly when the rule does. */
  lemma CompilationPreservesMeaning(rule: Rule, universe: seq<NamedEvent>, ins: seq<seq<Id>>, outs: seq<seq<Id>>,
                                    r: Instantiation, a: Assignment)
    requires ValidRule(rule) && !rule.guardMode && RuleDecided(rule, universe, a)
    requires Tuples(rule.inputs, universe, ins) && Tuples(rule.outputs, universe, outs) && Compiled(rule, ins, outs, r)
    ensures ConstraintsHold(r, universe, a) <==> Kept(rule, universe, a)
  {
    if ConstraintsHold(r, universe, a) {
      CompilationIsSound(rule, universe, ins, outs, r, a);
    }
    if Kept(rule, universe, a) {
      forall i | i in ins && NoDup(i) ensures IsTrue(Forward(rule, i, outs), EventMap(universe), a) {
        ForwardMeans(rule, universe, i, outs, a);
      }
      if rule.exact {
        forall o | o in outs && NoDup(o) ensures IsTrue(Support(rule, ins, o), EventMap(universe), a) {
          SupportMeans(rule, universe, ins, o, a);
        }
      }
      assert forall e :: e in r.constraints <==> e in Elements(r.constraints);
    }
  }

  // ----- Firings and their effects

  lemma ConjunctionSplits(es: seq<Expr>, fs: seq<Expr>, events: Events, a: Assignment)
    ensures IsTrue(Conjunction(es + fs), events, a) <==>
            IsTrue(Conjunction(es), events, a) && IsTrue(Conjunction(fs), events, a)
  {
    ConjunctionIsTrue(es + fs, events, a);
    ConjunctionIsTrue(es, events, a);
    ConjunctionIsTrue(fs, events, a);
    assert forall e :: e in es + fs <==> e in es || e in fs;
  }

  /** A rule fires for a binding exactly when its inputs are enabled, its outputs derived, and both related. */
  lemma FiringMeans(rule: Rule, i: seq<Id>, o: seq<Id>, events: Events, a: Assignment)
    requires ValidRule(rule) && |i| == |rule.inputs| && |o| == |rule.outputs|
    ensures IsTrue(FiringOf(rule, i, o).expression, events, a) <==>
            Enabled(rule, i, events, a) && Derived(rule, o, events, a) && Related(rule, i, o, events, a)
  {
    ConjunctionSplits(Enabling(rule, i), Producing(rule, i, o), events, a);
    AntecedentMeans(rule, i, events, a);
    AlternativeMeans(rule, events, i, o, a);
  }

  /** Effects observe and write, with the roles bound, at the cycle of their anchor. */
  lemma EffectMeans(rule: Rule, i: seq<Id>, o: seq<Id>, q: RuleRequirement, u: RuleUpdate, events: Events,
                    a: Assignment)
    ensures var (f, bound) := (FiringOf(rule, i, o), Rebind(events, BindAll(rule, i, o)));
            && Evaluate(RequirementOf(q, f).expected, events, a) == Evaluate(q.value, bound, a)
            && Evaluate(RequirementOf(q, f).cycle, events, a) == Field(bound, q.at, "cycle", a)
            && Evaluate(UpdateOf(u, f).value, events, a) == Evaluate(u.value, bound, a)
            && Evaluate(UpdateOf(u, f).cycle, events, a) == Field(bound, u.at, "cycle", a)
  {
    var m := BindAll(rule, i, o);
    SubstitutionLemma(q.value, m, events, a);
    SubstitutionLemma(EventField(q.at, "cycle", IntSort), m, events, a);
    SubstitutionLemma(u.value, m, events, a);
    SubstitutionLemma(EventField(u.at, "cycle", IntSort), m, events, a);
  }

  // ----- Rules guarded by state

  /** An enabled input tuple whose state guards hold has outputs. */
  lemma GuardedForwardMeans(rule: Rule, universe: seq<NamedEvent>, i: seq<Id>, outs: seq<seq<Id>>, p: Problem,
                            a: Assignment)
    requires ValidRule(rule) && RuleDecided(rule, universe, a) && p.events == EventMap(universe)
    requires IsTuple(rule.inputs, universe, i) && Tuples(rule.outputs, universe, outs)
    ensures ForwardOk(p, a, ForwardGuarded(rule, i, outs)) <==>
            (Enabled(rule, i, p.events, a) ==>
               var guards := GuardScan(p, a, GuardsOf(rule, Bind(rule.inputs, i)));
               guards == GuardFails || (guards == GuardsHold && HasOutput(rule, universe, i, a)))
  {
    AntecedentMeans(rule, i, EventMap(universe), a);
    AntecedentDecided(rule, universe, i, a);
    AlternativesMean(rule, universe, i, outs, a);
  }

  /** With every scan resolved, some candidate whose guards hold is true. */
  lemma {:induction false} ResolvedSupport(p: Problem, a: Assignment, candidates: seq<SupportCandidate>)
    requires forall k :: k in candidates ==> Decided(k.expression, p.events, a)
    requires forall k :: k in candidates && IsTrue(k.expression, p.events, a) ==>
      GuardScan(p, a, k.predicates) in {GuardsHold, GuardFails}
    ensures SupportScan(p, a, candidates) <==>
            exists k :: k in candidates && IsTrue(k.expression, p.events, a)
                && GuardScan(p, a, k.predicates) == GuardsHold
  {
    if candidates != [] {
      assert forall k :: k in candidates <==> k == candidates[0] || k in candidates[1..];
      ResolvedSupport(p, a, candidates[1..]);
    }
  }

  /** The state guards of one complete binding. */
  ghost function BoundScan(rule: Rule, i: seq<Id>, o: seq<Id>, p: Problem, a: Assignment): GuardResult {
    GuardScan(p, a, GuardsOf(rule, BindAll(rule, i, o)))
  }

  /** The candidate of an input tuple without repetition. */
  function CandidateOf(rule: Rule, i: seq<Id>, o: seq<Id>): SupportCandidate {
    SupportCandidate(Conjunction(Supporting(rule, i, o)), GuardsOf(rule, BindAll(rule, i, o)))
  }

  /** The inputs are enabled and related to the output. */
  ghost predicate Justifies(rule: Rule, i: seq<Id>, o: seq<Id>, events: Events, a: Assignment) {
    NoDup(i + o) && Enabled(rule, i, events, a) && Related(rule, i, o, events, a)
  }

  lemma CandidateJustifies(rule: Rule, universe: seq<NamedEvent>, i: seq<Id>, o: seq<Id>, a: Assignment)
    requires ValidRule(rule) && RuleDecided(rule, universe, a) && NoDup(i + o)
    requires IsTuple(rule.outputs, universe, o) && IsTuple(rule.inputs, universe, i)
    ensures IsTrue(CandidateOf(rule, i, o).expression, EventMap(universe), a) <==>
            Justifies(rule, i, o, EventMap(universe), a)
    ensures Decided(CandidateOf(rule, i, o).expression, EventMap(universe), a)
  {
    InstanceDecided(rule, universe, i, o, a);
    CandidateMeans(rule, EventMap(universe), i, o, a);
  }

  lemma CandidatesJustify(rule: Rule, universe: seq<NamedEvent>, ins: seq<seq<Id>>, o: seq<Id>, a: Assignment)
    requires ValidRule(rule) && RuleDecided(rule, universe, a)
    requires IsTuple(rule.outputs, universe, o) && forall i :: i in ins ==> IsTuple(rule.inputs, universe, i)
    ensures Justified(rule, ins, o, EventMap(universe), a)
  {
    CandidateMembers(rule, ins, o);
    forall i | i in ins && NoDup(i + o)
      ensures Decided(CandidateOf(rule, i, o).expression, EventMap(universe), a)
      ensures IsTrue(CandidateOf(rule, i, o).expression, EventMap(universe), a) <==>
              Justifies(rule, i, o, EventMap(universe), a)
    {
      CandidateJustifies(rule, universe, i, o, a);
    }
  }

  /** The candidates of an output are those of the input tuples, and each is decided by what it justifies. */
  ghost predicate Justified(rule: Rule, ins: seq<seq<Id>>, o: seq<Id>, events: Events, a: Assignment) {
    && (forall k :: k in SupportCandidates(rule, ins, o) ==>
          exists i :: i in ins && NoDup(i + o) && k == CandidateOf(rule, i, o))
    && (forall i :: i in ins && NoDup(i + o) ==>
          && CandidateOf(rule, i, o) in SupportCandidates(rule, ins, o)
          && Decided(CandidateOf(rule, i, o).expression, events, a)
          && (IsTrue(CandidateOf(rule, i, o).expression, events, a) <==> Justifies(rule, i, o, events, a)))
  }

  lemma SupportScanMeans(rule: Rule, ins: seq<seq<Id>>, o: seq<Id>, p: Problem, a: Assignment)
    requires Justified(rule, ins, o, p.events, a)
    requires forall i :: i in ins && Justifies(rule, i, o, p.events, a) ==>
      BoundScan(rule, i, o, p, a) in {GuardsHold, GuardFails}
    ensures SupportScan(p, a, SupportCandidates(rule, ins, o)) <==>
            exists i :: i in ins && Justifies(rule, i, o, p.events, a) && BoundScan(rule, i, o, p, a) == GuardsHold
  {
    ResolvedSupport(p, a, SupportCandidates(rule, ins, o));
    if i :| i in ins && Justifies(rule, i, o, p.events, a) && BoundScan(rule, i, o, p, a) == GuardsHold {
      assert CandidateOf(rule, i, o) in SupportCandidates(rule, ins, o);
    }
  }

  /** Every derived output has a related enabled input whose state guards hold. */
  lemma GuardedSupportMeans(rule: Rule, universe: seq<NamedEvent>, ins: seq<seq<Id>>, o: seq<Id>, p: Problem,
                            a: Assignment)
    requires ValidRule(rule) && RuleDecided(rule, universe, a) && p.events == EventMap(universe)
    requires IsTuple(rule.outputs, universe, o) && Tuples(rule.inputs, universe, ins)
    requires forall i :: i in ins && Justifies(rule, i, o, p.events, a) ==>
      BoundScan(rule, i, o, p, a) in {GuardsHold, GuardFails}
    ensures SupportOk(p, a, SupportGuarded(rule, ins, o)) <==>
            (Derived(rule, o, p.events, a) ==>
               exists i :: i in ins && Justifies(rule, i, o, p.events, a) && BoundScan(rule, i, o, p, a) == GuardsHold)
  {
    InScopeMeans(rule, o, EventMap(universe), a);
    InScopeDecided(rule, universe, o, a);
    CandidatesJustify(rule, universe, ins, o, a);
    SupportScanMeans(rule, ins, o, p, a);
  }
}
