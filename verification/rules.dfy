/** Role-based rules, and what their instantiation over a bounded universe of events contains. */
module Rules {
  import opened Common
  import opened Enumeration
  import opened Expressions
  import opened Problems

  datatype Role = Role(name: string, eventType: string)

  /** A comparison with the pre-state, anchored at the cycle of a role. */
  datatype RuleRequirement = RuleRequirement(state: string, at: string, op: BinaryOp, value: Expr)

  datatype RuleUpdate = RuleUpdate(state: string, at: string, value: Expr)

  /** Occurring inputs that satisfy `when` have occurring outputs that satisfy `outputWhen` and `ensured`. */
  datatype Rule = Rule(
    inputs: seq<Role>,
    outputs: seq<Role>,
    when: Expr,
    outputWhen: Expr,
    ensured: seq<Expr>,
    requirements: seq<RuleRequirement>,
    updates: seq<RuleUpdate>,
    exact: bool,
    guardMode: bool)

  function Names(roles: seq<Role>): (names: seq<string>)
    ensures |names| == |roles| && forall k :: 0 <= k < |roles| ==> names[k] == roles[k].name
  {
    seq(|roles|, k requires 0 <= k < |roles| => roles[k].name)
  }

  /**
   * Role names are distinct, guards read roles of their own side, effects are anchored at roles, exact rules derive
   * one output, and guarded rules do not update.
   */
  ghost predicate ValidRule(rule: Rule) {
    && NoDup(Names(rule.inputs + rule.outputs))
    && Mentions(rule.when) <= Elements(Names(rule.inputs))
    && Mentions(rule.outputWhen) <= Elements(Names(rule.outputs))
    && (forall r :: r in rule.requirements ==> r.at in Names(rule.inputs + rule.outputs) && IsComparison(r.op))
    && (forall u :: u in rule.updates ==> u.at in Names(rule.inputs + rule.outputs))
    && (rule.exact ==> |rule.outputs| == 1)
    && (rule.guardMode ==> rule.outputs != [] && rule.updates == [])
  }

  // ----- The universe of events

  datatype NamedEvent = NamedEvent(id: Id, event: Event)

  predicate DistinctIds(events: seq<NamedEvent>) {
    forall i, j :: 0 <= i < j < |events| ==> events[i].id != events[j].id
  }

  function EventMap(events: seq<NamedEvent>): Events {
    if events == [] then map[]
    else EventMap(events[..|events| - 1])[events[|events| - 1].id := events[|events| - 1].event]
  }

  /** Identifiers of the events of a type, in the order of the events. */
  function IdsOfType(events: seq<NamedEvent>, eventType: string): seq<Id> {
    if events == [] then []
    else
      var last := events[|events| - 1];
      IdsOfType(events[..|events| - 1], eventType) + (if last.event.eventType == eventType then [last.id] else [])
  }

  lemma {:induction false} IdsOfTypeMembers(events: seq<NamedEvent>, eventType: string)
    ensures forall id :: id in IdsOfType(events, eventType) <==>
              exists e :: e in events && e.id == id && e.event.eventType == eventType
    ensures DistinctIds(events) ==> NoDup(IdsOfType(events, eventType))
  {
    if events != [] {
      var shorter, last := events[..|events| - 1], events[|events| - 1];
      IdsOfTypeMembers(shorter, eventType);
      assert events == shorter + [last];
      assert forall e :: e in events <==> e in shorter || e == last;
      if DistinctIds(events) {
        assert forall e :: e in shorter ==> e.id != last.id;
        assert last.id !in IdsOfType(shorter, eventType);
      }
    }
  }

  // ----- Tuples of events that fill roles

  ghost predicate IsTuple(roles: seq<Role>, events: seq<NamedEvent>, t: seq<Id>) {
    |t| == |roles| && forall k :: 0 <= k < |t| ==> t[k] in IdsOfType(events, roles[k].eventType)
  }

  /** `tuples` lists every tuple once. */
  ghost predicate Tuples(roles: seq<Role>, events: seq<NamedEvent>, tuples: seq<seq<Id>>) {
    NoDup(tuples) && forall t :: t in tuples <==> IsTuple(roles, events, t)
  }

  function Bind(roles: seq<Role>, t: seq<Id>): Binding {
    if |t| == |roles| then Zip(Names(roles), t) else map[]
  }

  function BindAll(rule: Rule, i: seq<Id>, o: seq<Id>): Binding {
    Bind(rule.inputs, i) + Bind(rule.outputs, o)
  }

  // ----- The instances of one rule

  function Occurrence(id: Id): Expr {
    EventField(id, "occurs", BoolSort)
  }

  function Occurrences(ids: seq<Id>): (es: seq<Expr>)
    ensures |es| == |ids| && forall k :: 0 <= k < |es| ==> es[k] == Occurrence(ids[k])
  {
    seq(|ids|, k requires 0 <= k < |ids| => Occurrence(ids[k]))
  }

  function CycleField(id: Id): Expr {
    EventField(id, "cycle", IntSort)
  }

  /** The cycle of the event that a role is bound to. */
  function CycleOf(m: Binding, at: string): Expr {
    CycleField(Rename(m, at))
  }

  function GuardOf(r: RuleRequirement, m: Binding): GuardPredicate {
    GuardPredicate(r.state, CycleOf(m, r.at), r.op, Substitute(r.value, m))
  }

  function GuardsOf(rule: Rule, m: Binding): (gs: seq<GuardPredicate>)
    ensures |gs| == |rule.requirements| && forall k :: 0 <= k < |gs| ==> gs[k] == GuardOf(rule.requirements[k], m)
  {
    seq(|rule.requirements|, k requires 0 <= k < |rule.requirements| => GuardOf(rule.requirements[k], m))
  }

  /** The inputs occur and satisfy the guard. */
  function Enabling(rule: Rule, i: seq<Id>): seq<Expr> {
    Occurrences(i) + [Substitute(rule.when, Bind(rule.inputs, i))]
  }

  /** The outputs occur, are in scope, and are related to the inputs. */
  function Producing(rule: Rule, i: seq<Id>, o: seq<Id>): seq<Expr> {
    var m := BindAll(rule, i, o);
    Occurrences(o) + [Substitute(rule.outputWhen, m)] + SubstituteAll(rule.ensured, m)
  }

  /** The outputs that inputs may have, one alternative for each tuple without repetition. */
  function Alternatives(rule: Rule, i: seq<Id>, outs: seq<seq<Id>>): seq<Expr> {
    if outs == [] then []
    else
      var o := outs[|outs| - 1];
      Alternatives(rule, i, outs[..|outs| - 1]) + (if NoDup(i + o) then [Conjunction(Producing(rule, i, o))] else [])
  }

  function Antecedent(rule: Rule, i: seq<Id>): Expr {
    Conjunction(Enabling(rule, i))
  }

  function Forward(rule: Rule, i: seq<Id>, outs: seq<seq<Id>>): Expr {
    Binary(Implies, Antecedent(rule, i), Disjunction(Alternatives(rule, i, outs)))
  }

  function ForwardGuarded(rule: Rule, i: seq<Id>, outs: seq<seq<Id>>): GuardedForward {
    GuardedForward(Antecedent(rule, i), GuardsOf(rule, Bind(rule.inputs, i)), Disjunction(Alternatives(rule, i, outs)))
  }

  /** The inputs that may justify an output. */
  function Supporting(rule: Rule, i: seq<Id>, o: seq<Id>): seq<Expr> {
    var m := BindAll(rule, i, o);
    Occurrences(i) + [Substitute(rule.when, m)] + SubstituteAll(rule.ensured, m)
  }

  function SupportCandidates(rule: Rule, ins: seq<seq<Id>>, o: seq<Id>): seq<SupportCandidate> {
    if ins == [] then []
    else
      var i := ins[|ins| - 1];
      SupportCandidates(rule, ins[..|ins| - 1], o)
      + (if NoDup(i + o)
         then [SupportCandidate(Conjunction(Supporting(rule, i, o)), GuardsOf(rule, BindAll(rule, i, o)))]
         else [])
  }

  function CandidateExpressions(candidates: seq<SupportCandidate>): (es: seq<Expr>)
    ensures |es| == |candidates| && forall k :: 0 <= k < |es| ==> es[k] == candidates[k].expression
  {
    seq(|candidates|, k requires 0 <= k < |candidates| => candidates[k].expression)
  }

  function InScope(rule: Rule, o: seq<Id>): Expr {
    Conjunction([Conjunction(Occurrences(o)), Substitute(rule.outputWhen, Bind(rule.outputs, o))])
  }

  function Support(rule: Rule, ins: seq<seq<Id>>, o: seq<Id>): Expr {
    Binary(Implies, InScope(rule, o), Disjunction(CandidateExpressions(SupportCandidates(rule, ins, o))))
  }

  function SupportGuarded(rule: Rule, ins: seq<seq<Id>>, o: seq<Id>): GuardedSupport {
    GuardedSupport(InScope(rule, o), SupportCandidates(rule, ins, o))
  }

  /** One complete binding of a rule and the condition under which it fires. */
  datatype Firing = Firing(binding: Binding, expression: Expr, predicates: seq<GuardPredicate>)

  function FiringOf(rule: Rule, i: seq<Id>, o: seq<Id>): Firing {
    Firing(BindAll(rule, i, o), Conjunction(Enabling(rule, i) + Producing(rule, i, o)),
           if rule.guardMode then GuardsOf(rule, BindAll(rule, i, o)) else [])
  }

  function RequirementOf(r: RuleRequirement, f: Firing): Requirement {
    Requirement(r.state, CycleOf(f.binding, r.at), f.expression, r.op, Substitute(r.value, f.binding))
  }

  function UpdateOf(u: RuleUpdate, f: Firing): Update {
    Update(u.state, CycleOf(f.binding, u.at), f.expression, Substitute(u.value, f.binding))
  }

  /** Every guard is anchored at an input. */
  predicate InputAnchored(rule: Rule) {
    forall r | r in rule.requirements :: r.at in Names(rule.inputs)
  }

  datatype Instantiation = Instantiation(
    constraints: seq<Expr>,
    requirements: seq<Requirement>,
    updates: seq<Update>,
    forwards: seq<GuardedForward>,
    supports: seq<GuardedSupport>,
    firings: seq<Firing>)

  ghost function Firings(rule: Rule, ins: seq<seq<Id>>, outs: seq<seq<Id>>): set<Firing> {
    set i, o | i in ins && o in outs && NoDup(i + o) :: FiringOf(rule, i, o)
  }

  /** What the instantiation of a rule over its input and output tuples contains. */
  ghost predicate Compiled(rule: Rule, ins: seq<seq<Id>>, outs: seq<seq<Id>>, r: Instantiation) {
    && Elements(r.constraints) ==
         (if rule.guardMode then {} else
            (set i | i in ins && NoDup(i) :: Forward(rule, i, outs))
            + if rule.exact then set o | o in outs && NoDup(o) :: Support(rule, ins, o) else {})
    && Elements(r.forwards) ==
         (if rule.guardMode && InputAnchored(rule)
          then set i | i in ins && NoDup(i) :: ForwardGuarded(rule, i, outs)
          else {})
    && Elements(r.supports) ==
         (if rule.guardMode && rule.exact then set o | o in outs && NoDup(o) :: SupportGuarded(rule, ins, o) else {})
    && Elements(r.firings) == Firings(rule, ins, outs)
    && Elements(r.requirements) ==
         (if rule.guardMode then {}
          else set f, q | f in Firings(rule, ins, outs) && q in rule.requirements :: RequirementOf(q, f))
    && Elements(r.updates) ==
         (if rule.guardMode then {}
          else set f, u | f in Firings(rule, ins, outs) && u in rule.updates :: UpdateOf(u, f))
  }
}
