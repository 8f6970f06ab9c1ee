/** The concrete state simulation of one assignment, proved against the state semantics. */
module Simulator {
  import opened Common
  import opened Expressions
  import opened Evaluator
  import opened Problems
  import opened State

  /** One stage of the simulation: a value, a rejection of the assignment, or an exception. */
  datatype Stage<+T> = Done(value: T) | Rejected | Threw

  datatype Step = Step(cycle: int, before: Cells, after: Cells)

  datatype StateResult = SimThrew | Infeasible | SimFeasible(initial: Cells, finalState: Cells, steps: seq<Step>)

  // ----- What raises, when nothing before it has rejected the assignment

  ghost predicate InitialThrows(p: Problem, a: Assignment) {
    exists i :: 0 <= i < |p.variables| && Ev(p, a, p.variables[i].initial).Raised?
        && forall j :: 0 <= j < i ==> Ev(p, a, p.variables[j].initial).Known?
  }

  /** An effect that is read raises: its activation, or when it is active its cycle or value. */
  predicate ReadThrows(active: Outcome, cycle: Outcome, value: Outcome) {
    active.Raised? || (active == Known(TRUE) && (cycle.Raised? || value.Raised?))
  }

  ghost predicate RequirementsThrow(p: Problem, a: Assignment) {
    exists i :: 0 <= i < |p.requirements|
        && ReadThrows(Ev(p, a, p.requirements[i].activation), Ev(p, a, p.requirements[i].cycle),
                      Ev(p, a, p.requirements[i].expected))
        && forall j :: 0 <= j < i ==> RequirementResolves(p, a, p.requirements[j])
  }

  ghost predicate UpdatesThrow(p: Problem, a: Assignment) {
    exists i :: 0 <= i < |p.updates|
        && ReadThrows(Ev(p, a, p.updates[i].activation), Ev(p, a, p.updates[i].cycle), Ev(p, a, p.updates[i].value))
        && forall j :: 0 <= j < i ==> UpdateOk(p, a, p.updates[j])
  }

  /** A comparison raises and the earlier ones hold. */
  ghost predicate ComparisonThrows(state: Cells, listed: seq<(Requirement, Value)>) {
    exists i :: 0 <= i < |listed| && listed[i].0.state in state
        && EvalStrict(listed[i].0.op, state[listed[i].0.state], listed[i].1).Raised?
        && forall j :: 0 <= j < i && listed[j].0.state in state ==>
             EvalStrict(listed[j].0.op, state[listed[j].0.state], listed[j].1) == Known(TRUE)
  }

  ghost predicate CycleThrows(p: Problem, a: Assignment, cycle: nat) {
    ComparisonThrows(PreState(p, a, cycle), Due(p, a, p.requirements, cycle))
  }

  ghost predicate RunThrows(p: Problem, a: Assignment) {
    exists c :: 0 <= c <= p.horizon && CycleThrows(p, a, c)
        && forall d :: 0 <= d < c ==> Agreement(p, a, d) && RequirementsHold(p, a, d)
  }

  ghost predicate ForwardThrows(p: Problem, a: Assignment, f: GuardedForward) {
    || Ev(p, a, f.antecedent).Raised?
    || (Ev(p, a, f.antecedent) == Known(TRUE)
        && (GuardScan(p, a, f.predicates) == GuardRaised
            || (GuardScan(p, a, f.predicates) == GuardsHold && Ev(p, a, f.consequent).Raised?)))
  }

  /** Candidates are read until one holds; its guards count when its expression is true. */
  ghost predicate ScanThrows(p: Problem, a: Assignment, candidates: seq<SupportCandidate>) {
    candidates != []
    && var expression, guards := Ev(p, a, candidates[0].expression), GuardScan(p, a, candidates[0].predicates);
       || expression.Raised?
       || (expression == Known(TRUE) && guards == GuardRaised)
       || ((expression == Known(TRUE) ==> guards == GuardFails) && ScanThrows(p, a, candidates[1..]))
  }

  ghost predicate SupportThrows(p: Problem, a: Assignment, s: GuardedSupport) {
    Ev(p, a, s.antecedent).Raised? || (Ev(p, a, s.antecedent) == Known(TRUE) && ScanThrows(p, a, s.supports))
  }

  ghost predicate ForwardsThrow(p: Problem, a: Assignment) {
    exists i :: 0 <= i < |p.forwards| && ForwardThrows(p, a, p.forwards[i])
        && forall j :: 0 <= j < i ==> ForwardOk(p, a, p.forwards[j])
  }

  ghost predicate SupportsThrow(p: Problem, a: Assignment) {
    exists i :: 0 <= i < |p.supports| && SupportThrows(p, a, p.supports[i])
        && forall j :: 0 <= j < i ==> SupportOk(p, a, p.supports[j])
  }

  ghost predicate TransitionsThrow(p: Problem, a: Assignment) {
    ForwardsThrow(p, a) || ((forall f :: f in p.forwards ==> ForwardOk(p, a, f)) && SupportsThrow(p, a))
  }

  /** The stages run in turn: initial values, requirements, updates, cycles, guarded transitions. */
  ghost predicate StateThrows(p: Problem, a: Assignment) {
    || InitialThrows(p, a)
    || ((forall v :: v in p.variables ==> Ev(p, a, v.initial).Known?)
        && (RequirementsThrow(p, a)
            || ((forall r :: r in p.requirements ==> RequirementResolves(p, a, r))
                && (UpdatesThrow(p, a)
                    || ((forall u :: u in p.updates ==> UpdateOk(p, a, u))
                        && (RunThrows(p, a) || (RunAccepts(p, a) && TransitionsThrow(p, a))))))))
  }

  ghost predicate RunAccepts(p: Problem, a: Assignment) {
    forall c :: 0 <= c <= p.horizon ==> Agreement(p, a, c) && RequirementsHold(p, a, c)
  }

  // ----- Initial state and active effects

  /** The first initial value that is not known decides. */
  lemma InitialStops(p: Problem, a: Assignment, i: nat)
    requires i < |p.variables| && !Ev(p, a, p.variables[i].initial).Known?
    requires forall j :: 0 <= j < i ==> Ev(p, a, p.variables[j].initial).Known?
    ensures InitialThrows(p, a) <==> Ev(p, a, p.variables[i].initial).Raised?
    ensures !forall v :: v in p.variables ==> Ev(p, a, v.initial).Known?
  {
    assert p.variables[i] in p.variables;
  }

  lemma InitialPasses(p: Problem, a: Assignment)
    requires forall i :: 0 <= i < |p.variables| ==> Ev(p, a, p.variables[i].initial).Known?
    ensures !InitialThrows(p, a) && forall v :: v in p.variables ==> Ev(p, a, v.initial).Known?
  {
  }

  method InitialState(p: Problem, a: Assignment) returns (stage: Stage<Cells>)
    ensures stage.Done? <==> forall v :: v in p.variables ==> Ev(p, a, v.initial).Known?
    ensures stage.Done? ==> stage.value == InitialCells(p, a, p.variables)
    ensures stage.Threw? <==> InitialThrows(p, a)
  {
    var state: Cells := map[];
    for i := 0 to |p.variables|
      invariant forall j :: 0 <= j < i ==> Ev(p, a, p.variables[j].initial).Known?
      invariant state == InitialCells(p, a, p.variables[..i])
    {
      var value := Ev(p, a, p.variables[i].initial);
      if !value.Known? {
        InitialStops(p, a, i);
        return if value.Raised? then Threw else Rejected;
      }
      InitialStep(p, a, p.variables[..i], p.variables[i]);
      assert p.variables[..i + 1] == p.variables[..i] + [p.variables[i]];
      state := state[p.variables[i].name := value.value];
    }
    WholePrefix(p.variables);
    InitialPasses(p, a);
    stage := Done(state);
  }

  /** `byCycle` lists `x` under `cycle`. */
  predicate Lists<T(==)>(byCycle: map<int, seq<T>>, cycle: int, x: T) {
    cycle in byCycle && x in byCycle[cycle]
  }

  function Listed<T>(byCycle: map<int, seq<T>>, cycle: int): seq<T> {
    if cycle in byCycle then byCycle[cycle] else []
  }

  /** The requirement is active in `cycle` and expects `expected`. */
  predicate Requires(p: Problem, a: Assignment, r: Requirement, cycle: int, expected: Value) {
    && Ev(p, a, r.activation) == Known(TRUE)
    && Ev(p, a, r.cycle) == Known(Int(cycle)) && 0 <= cycle <= p.horizon
    && Ev(p, a, r.expected) == Known(expected)
  }

  predicate RequirementResolves(p: Problem, a: Assignment, r: Requirement) {
    && Ev(p, a, r.activation).Known?
    && (Ev(p, a, r.activation) == Known(TRUE) ==>
          ValidCycle(Ev(p, a, r.cycle), p.horizon) && Ev(p, a, r.expected).Known?)
  }

  /** The requirements that are active in a cycle, in their order, with the values they expect. */
  function Due(p: Problem, a: Assignment, requirements: seq<Requirement>, cycle: int): seq<(Requirement, Value)> {
    if requirements == [] then []
    else
      var last := |requirements| - 1;
      var (r, expected) := (requirements[last], Ev(p, a, requirements[last].expected));
      Due(p, a, requirements[..last], cycle)
      + if expected.Known? && Requires(p, a, r, cycle, expected.value) then [(r, expected.value)] else []
  }

  lemma {:induction false} DueMembers(p: Problem, a: Assignment, requirements: seq<Requirement>, cycle: int)
    ensures forall x :: x in Due(p, a, requirements, cycle) <==>
            x.0 in requirements && Requires(p, a, x.0, cycle, x.1)
  {
    if requirements != [] {
      var last := |requirements| - 1;
      DueMembers(p, a, requirements[..last], cycle);
      assert requirements == requirements[..last] + [requirements[last]];
    }
  }

  lemma DueMore(p: Problem, a: Assignment, i: nat, cycle: int)
    requires i < |p.requirements|
    ensures var (r, expected) := (p.requirements[i], Ev(p, a, p.requirements[i].expected));
            Due(p, a, p.requirements[..i + 1], cycle) == Due(p, a, p.requirements[..i], cycle)
            + if expected.Known? && Requires(p, a, r, cycle, expected.value) then [(r, expected.value)] else []
  {
    assert p.requirements[..i + 1][..i] == p.requirements[..i];
  }

  /** The index lists what is due among the first `n` requirements. */
  ghost predicate ListsDue(p: Problem, a: Assignment, byCycle: map<int, seq<(Requirement, Value)>>, n: nat)
    requires n <= |p.requirements|
  {
    && (forall c :: c in byCycle ==> byCycle[c] != [])
    && forall c :: Listed(byCycle, c) == Due(p, a, p.requirements[..n], c)
  }

  /** Listing an active requirement under its cycle keeps the index. */
  lemma DueListed(p: Problem, a: Assignment, i: nat, byCycle: map<int, seq<(Requirement, Value)>>, cycle: int,
                  expected: Value)
    requires i < |p.requirements| && Requires(p, a, p.requirements[i], cycle, expected)
    requires ListsDue(p, a, byCycle, i)
    ensures ListsDue(p, a, byCycle[cycle := Listed(byCycle, cycle) + [(p.requirements[i], expected)]], i + 1)
  {
    var after := byCycle[cycle := Listed(byCycle, cycle) + [(p.requirements[i], expected)]];
    forall c ensures Listed(after, c) == Due(p, a, p.requirements[..i + 1], c) {
      DueMore(p, a, i, c);
      assert Listed(byCycle, c) == Due(p, a, p.requirements[..i], c);
    }
  }

  lemma NotDue(p: Problem, a: Assignment, i: nat, byCycle: map<int, seq<(Requirement, Value)>>)
    requires i < |p.requirements| && Ev(p, a, p.requirements[i].activation) != Known(TRUE)
    requires ListsDue(p, a, byCycle, i)
    ensures ListsDue(p, a, byCycle, i + 1)
  {
    forall c ensures Listed(byCycle, c) == Due(p, a, p.requirements[..i + 1], c) { DueMore(p, a, i, c); }
  }

  /** Reads one requirement or update: inactive, or active in a cycle of the horizon with a value. */
  method ReadEffect(active: Outcome, cycle: Outcome, value: Outcome, horizon: nat)
    returns (stage: Stage<Option<(int, Value)>>)
    ensures stage.Threw? <==> ReadThrows(active, cycle, value)
    ensures stage.Done? <==> active.Known? && (active == Known(TRUE) ==> ValidCycle(cycle, horizon) && value.Known?)
    ensures stage.Done? ==> (stage.value.Some? <==> active == Known(TRUE))
    ensures stage.Done? && stage.value.Some? ==>
      cycle == Known(Int(stage.value.value.0)) && value == Known(stage.value.value.1)
  {
    if active.Raised? { return Threw; }
    if active.Unknown? { return Rejected; }
    if active != Known(TRUE) { return Done(None); }
    if cycle.Raised? || value.Raised? { return Threw; }
    if !ValidCycle(cycle, horizon) || value.Unknown? { return Rejected; }
    stage := Done(Some((cycle.value.n, value.value)));
  }

  /** The first requirement that does not resolve decides. */
  lemma RequirementsStop(p: Problem, a: Assignment, i: nat)
    requires i < |p.requirements| && !RequirementResolves(p, a, p.requirements[i])
    requires forall j :: 0 <= j < i ==> RequirementResolves(p, a, p.requirements[j])
    ensures var r := p.requirements[i];
            RequirementsThrow(p, a) <==> ReadThrows(Ev(p, a, r.activation), Ev(p, a, r.cycle), Ev(p, a, r.expected))
    ensures !forall r :: r in p.requirements ==> RequirementResolves(p, a, r)
  {
    assert p.requirements[i] in p.requirements;
  }

  method CollectRequirements(p: Problem, a: Assignment) returns (stage: Stage<map<int, seq<(Requirement, Value)>>>)
    ensures stage.Done? <==> forall r :: r in p.requirements ==> RequirementResolves(p, a, r)
    ensures stage.Done? ==> ListsDue(p, a, stage.value, |p.requirements|)
    ensures stage.Threw? <==> RequirementsThrow(p, a)
  {
    var byCycle: map<int, seq<(Requirement, Value)>> := map[];
    for i := 0 to |p.requirements|
      invariant forall j :: 0 <= j < i ==> RequirementResolves(p, a, p.requirements[j])
      invariant ListsDue(p, a, byCycle, i)
    {
      var r := p.requirements[i];
      var read := ReadEffect(Ev(p, a, r.activation), Ev(p, a, r.cycle), Ev(p, a, r.expected), p.horizon);
      if !read.Done? {
        RequirementsStop(p, a, i);
        return if read.Threw? then Threw else Rejected;
      }
      if read.value.Some? {
        var (cycle, expected) := read.value.value;
        DueListed(p, a, i, byCycle, cycle, expected);
        byCycle := byCycle[cycle := Listed(byCycle, cycle) + [(r, expected)]];
      } else {
        NotDue(p, a, i, byCycle);
      }
    }
    stage := Done(byCycle);
  }

  predicate Updates(p: Problem, a: Assignment, u: Update, cycle: int, value: Value) {
    ActiveAt(p, a, u, cycle) && 0 <= cycle <= p.horizon && Ev(p, a, u.value) == Known(value)
  }

  /** The first update that does not resolve decides. */
  lemma UpdatesStop(p: Problem, a: Assignment, i: nat)
    requires i < |p.updates| && !UpdateOk(p, a, p.updates[i])
    requires forall j :: 0 <= j < i ==> UpdateOk(p, a, p.updates[j])
    ensures var u := p.updates[i];
            UpdatesThrow(p, a) <==> ReadThrows(Ev(p, a, u.activation), Ev(p, a, u.cycle), Ev(p, a, u.value))
    ensures !forall u :: u in p.updates ==> UpdateOk(p, a, u)
  {
    assert p.updates[i] in p.updates;
  }

  method CollectUpdates(p: Problem, a: Assignment) returns (stage: Stage<map<int, seq<(Update, Value)>>>)
    ensures stage.Done? <==> forall u :: u in p.updates ==> UpdateOk(p, a, u)
    ensures stage.Done? ==> forall c, x :: Lists(stage.value, c, x) <==> x.0 in p.updates && Updates(p, a, x.0, c, x.1)
    ensures stage.Done? ==> forall c :: c in stage.value ==> stage.value[c] != []
    ensures stage.Threw? <==> UpdatesThrow(p, a)
  {
    var byCycle: map<int, seq<(Update, Value)>> := map[];
    for i := 0 to |p.updates|
      invariant forall j :: 0 <= j < i ==> UpdateOk(p, a, p.updates[j])
      invariant forall c :: c in byCycle ==> byCycle[c] != []
      invariant forall c, x :: Lists(byCycle, c, x) <==> x.0 in p.updates[..i] && Updates(p, a, x.0, c, x.1)
    {
      var u := p.updates[i];
      assert p.updates[..i + 1] == p.updates[..i] + [u];
      var read := ReadEffect(Ev(p, a, u.activation), Ev(p, a, u.cycle), Ev(p, a, u.value), p.horizon);
      if !read.Done? {
        UpdatesStop(p, a, i);
        return if read.Threw? then Threw else Rejected;
      }
      if read.value.Some? {
        var (cycle, value) := read.value.value;
        ghost var was := byCycle;
        byCycle := byCycle[cycle := Listed(byCycle, cycle) + [(u, value)]];
        assert forall c, x :: Lists(byCycle, c, x) <==> Lists(was, c, x) || (c == cycle && x == (u, value));
      }
    }
    WholePrefix(p.updates);
    stage := Done(byCycle);
  }

  // ----- One cycle

  /** Every listed requirement holds of the shared pre-state. */
  method CheckRequirements(state: Cells, listed: seq<(Requirement, Value)>) returns (stage: Stage<()>)
    requires forall x :: x in listed ==> x.0.state in state
    ensures stage.Done? <==> forall x :: x in listed ==> EvalStrict(x.0.op, state[x.0.state], x.1) == Known(TRUE)
    ensures stage.Threw? <==> ComparisonThrows(state, listed)
  {
    for i := 0 to |listed|
      invariant forall j :: 0 <= j < i ==>
        EvalStrict(listed[j].0.op, state[listed[j].0.state], listed[j].1) == Known(TRUE)
    {
      var holds := EvalStrict(listed[i].0.op, state[listed[i].0.state], listed[i].1);
      if holds.Raised? { return Threw; }
      if holds != Known(TRUE) { return Rejected; }
    }
    WholePrefix(listed);
    stage := Done(());
  }

  function WrittenValues(listed: seq<(Update, Value)>, state: string): set<Value> {
    set x | x in listed && x.0.state == state :: x.1
  }

  ghost predicate Agree(listed: seq<(Update, Value)>, state: string) {
    forall x, y :: x in listed && y in listed && x.0.state == state && y.0.state == state ==> x.1 == y.1
  }

  /** The one value that is written to a cell, unless the writes conflict. */
  method AgreedValue(listed: seq<(Update, Value)>, state: string) returns (agreed: Option<Value>)
    requires exists x :: x in listed && x.0.state == state
    ensures agreed.Some? <==> Agree(listed, state)
    ensures agreed.Some? ==> WrittenValues(listed, state) == {agreed.value}
  {
    var values := WrittenValues(listed, state);
    var x :| x in listed && x.0.state == state;
    assert x.1 in values;
    if |values| != 1 {
      assert values != {x.1};
      var v :| v in values && v != x.1;
      return None;
    }
    CardinalityOfSubset({x.1}, values);
    assert forall y :: y in listed && y.0.state == state ==> y.1 in values;
    agreed := Some(x.1);
  }

  /** Applies the writes of one cycle at once; conflicting writes reject the assignment. */
  method ApplyUpdates(state: Cells, listed: seq<(Update, Value)>) returns (stage: Stage<Cells>)
    requires forall x :: x in listed ==> x.0.state in state
    ensures stage.Done? <==> forall s :: Agree(listed, s)
    ensures stage.Done? ==> stage.value == map s | s in state :: NextValue(state[s], WrittenValues(listed, s))
    ensures !stage.Threw?
  {
    var after := state;
    var written := set x | x in listed :: x.0.state;
    var names := Sorted(written);
    for i := 0 to |names|
      invariant after == map s | s in state ::
                           if s in Elements(names[..i]) then NextValue(state[s], WrittenValues(listed, s)) else state[s]
      invariant forall s :: s in Elements(names[..i]) ==> Agree(listed, s)
    {
      PrefixElements(names, i);
      assert names[i] in written;
      var agreed := AgreedValue(listed, names[i]);
      if agreed.None? { return Rejected; }
      after := after[names[i] := agreed.value];
    }
    WholePrefix(names);
    forall s | s !in written ensures WrittenValues(listed, s) == {} && Agree(listed, s) {
    }
    stage := Done(after);
  }

  // ----- Guards

  /** Reads guard predicates against the recorded pre-states, stopping at the first that decides. */
  method GuardPredicatesHold(p: Problem, a: Assignment, predicates: seq<GuardPredicate>, pres: seq<Cells>)
    returns (result: GuardResult)
    requires |pres| == p.horizon + 1 && forall c :: 0 <= c <= p.horizon ==> pres[c] == PreState(p, a, c)
    requires forall g, c :: g in predicates && 0 <= c <= p.horizon ==> g.state in pres[c]
    ensures result == GuardScan(p, a, predicates)
  {
    for i := 0 to |predicates|
      invariant GuardScan(p, a, predicates) == GuardScan(p, a, predicates[i..])
    {
      var g := predicates[i];
      assert predicates[i..][0] == g && predicates[i..][1..] == predicates[i + 1..];
      var cycle := Evaluate(g.cycle, p.events, a);
      var expected := Evaluate(g.expected, p.events, a);
      if cycle.Raised? || expected.Raised? { return GuardRaised; }
      if !ValidCycle(cycle, p.horizon) || expected.Unknown? { return Unresolved; }
      var actual := pres[cycle.value.n][g.state];
      var holds := EvalStrict(g.op, actual, expected.value);
      if !holds.Known? { return GuardRaised; }
      if holds != Known(TRUE) { return GuardFails; }
    }
    result := GuardsHold;
  }

  /** The guards read cells that every recorded pre-state holds. */
  ghost predicate GuardsReadable(predicates: seq<GuardPredicate>, pres: seq<Cells>) {
    forall g, c :: g in predicates && 0 <= c < |pres| ==> g.state in pres[c]
  }

  ghost predicate Recorded(p: Problem, a: Assignment, pres: seq<Cells>) {
    |pres| == p.horizon + 1 && forall c :: 0 <= c <= p.horizon ==> pres[c] == PreState(p, a, c)
  }

  method CheckForward(p: Problem, a: Assignment, f: GuardedForward, pres: seq<Cells>) returns (stage: Stage<()>)
    requires Recorded(p, a, pres) && GuardsReadable(f.predicates, pres)
    ensures stage.Done? <==> ForwardOk(p, a, f)
    ensures stage.Threw? <==> ForwardThrows(p, a, f)
  {
    var antecedent := Evaluate(f.antecedent, p.events, a);
    if antecedent.Raised? { return Threw; }
    if antecedent.Unknown? { return Rejected; }
    if antecedent != Known(TRUE) { return Done(()); }
    var guards := GuardPredicatesHold(p, a, f.predicates, pres);
    if guards.GuardRaised? { return Threw; }
    if guards.Unresolved? { return Rejected; }
    if guards.GuardFails? { return Done(()); }
    var consequent := Evaluate(f.consequent, p.events, a);
    if consequent.Raised? { return Threw; }
    if consequent != Known(TRUE) { return Rejected; }
    stage := Done(());
  }

  method CheckSupport(p: Problem, a: Assignment, s: GuardedSupport, pres: seq<Cells>) returns (stage: Stage<()>)
    requires Recorded(p, a, pres) && forall c :: c in s.supports ==> GuardsReadable(c.predicates, pres)
    ensures stage.Done? <==> SupportOk(p, a, s)
    ensures stage.Threw? <==> SupportThrows(p, a, s)
  {
    var antecedent := Evaluate(s.antecedent, p.events, a);
    if antecedent.Raised? { return Threw; }
    if antecedent.Unknown? { return Rejected; }
    if antecedent != Known(TRUE) { return Done(()); }
    for i := 0 to |s.supports|
      invariant SupportScan(p, a, s.supports) == SupportScan(p, a, s.supports[i..])
      invariant ScanThrows(p, a, s.supports) == ScanThrows(p, a, s.supports[i..])
    {
      var c := s.supports[i];
      assert s.supports[i..][0] == c && s.supports[i..][1..] == s.supports[i + 1..];
      var expression := Evaluate(c.expression, p.events, a);
      if expression.Raised? { return Threw; }
      if expression == Known(TRUE) {
        var guards := GuardPredicatesHold(p, a, c.predicates, pres);
        if guards.GuardRaised? { return Threw; }
        if guards.Unresolved? { return Rejected; }
        if guards.GuardsHold? { return Done(()); }
      }
    }
    stage := Rejected;
  }

  method CheckForwards(p: Problem, a: Assignment, pres: seq<Cells>) returns (stage: Stage<()>)
    requires Recorded(p, a, pres) && forall f :: f in p.forwards ==> GuardsReadable(f.predicates, pres)
    ensures stage.Done? <==> forall f :: f in p.forwards ==> ForwardOk(p, a, f)
    ensures stage.Threw? <==> ForwardsThrow(p, a)
  {
    for i := 0 to |p.forwards|
      invariant forall j :: 0 <= j < i ==> ForwardOk(p, a, p.forwards[j]) && !ForwardThrows(p, a, p.forwards[j])
    {
      assert p.forwards[i] in p.forwards;
      stage := CheckForward(p, a, p.forwards[i], pres);
      if !stage.Done? { return; }
    }
    stage := Done(());
  }

  method CheckSupports(p: Problem, a: Assignment, pres: seq<Cells>) returns (stage: Stage<()>)
    requires Recorded(p, a, pres)
    requires forall s :: s in p.supports ==> forall c :: c in s.supports ==> GuardsReadable(c.predicates, pres)
    ensures stage.Done? <==> forall s :: s in p.supports ==> SupportOk(p, a, s)
    ensures stage.Threw? <==> SupportsThrow(p, a)
  {
    for i := 0 to |p.supports|
      invariant forall j :: 0 <= j < i ==> SupportOk(p, a, p.supports[j]) && !SupportThrows(p, a, p.supports[j])
    {
      assert p.supports[i] in p.supports;
      stage := CheckSupport(p, a, p.supports[i], pres);
      if !stage.Done? { return; }
    }
    stage := Done(());
  }

  /** The guarded forwards, then the guarded supports. */
  method CheckGuardedTransitions(p: Problem, a: Assignment, pres: seq<Cells>) returns (stage: Stage<()>)
    requires Recorded(p, a, pres)
    requires forall f :: f in p.forwards ==> GuardsReadable(f.predicates, pres)
    requires forall s :: s in p.supports ==> forall c :: c in s.supports ==> GuardsReadable(c.predicates, pres)
    ensures stage.Done? <==>
            (forall f :: f in p.forwards ==> ForwardOk(p, a, f)) && (forall s :: s in p.supports ==> SupportOk(p, a, s))
    ensures stage.Threw? <==> TransitionsThrow(p, a)
  {
    stage := CheckForwards(p, a, pres);
    if stage.Done? { stage := CheckSupports(p, a, pres); }
  }

  // ----- The run

  /** Some requirement or update is active in the cycle. */
  ghost predicate ActiveCycle(p: Problem, a: Assignment, cycle: int) {
    || (exists r, v :: r in p.requirements && Requires(p, a, r, cycle, v))
    || (exists u, v :: u in p.updates && Updates(p, a, u, cycle, v))
  }

  /** The steps are the active cycles below `bound` in order, each with its pre- and post-state. */
  ghost predicate StepsDescribe(p: Problem, a: Assignment, steps: seq<Step>, bound: nat) {
    && (forall i, j :: 0 <= i < j < |steps| ==> steps[i].cycle < steps[j].cycle)
    && (forall i :: 0 <= i < |steps| ==>
          && 0 <= steps[i].cycle < bound && ActiveCycle(p, a, steps[i].cycle)
          && steps[i].before == PreState(p, a, steps[i].cycle)
          && steps[i].after == PreState(p, a, steps[i].cycle + 1))
    && (forall c :: 0 <= c < bound && ActiveCycle(p, a, c) ==> exists i :: 0 <= i < |steps| && steps[i].cycle == c)
  }

  /** The state after the listed writes of a cycle is the next pre-state. */
  lemma NextPreState(p: Problem, a: Assignment, cycle: nat, listed: seq<(Update, Value)>)
    requires cycle <= p.horizon && forall u :: u in p.updates ==> UpdateOk(p, a, u)
    requires forall x :: x in listed <==> x.0 in p.updates && Updates(p, a, x.0, cycle, x.1)
    ensures PreState(p, a, cycle + 1)
         == map s | s in PreState(p, a, cycle) :: NextValue(PreState(p, a, cycle)[s], WrittenValues(listed, s))
  {
    forall s ensures WrittenValues(listed, s) == Writes(p, a, s, cycle) {
      ListedWrites(p, a, cycle, listed, s);
    }
  }

  lemma ListedWrites(p: Problem, a: Assignment, cycle: nat, listed: seq<(Update, Value)>, s: string)
    requires cycle <= p.horizon
    requires forall x :: x in listed <==> x.0 in p.updates && Updates(p, a, x.0, cycle, x.1)
    ensures WrittenValues(listed, s) == Writes(p, a, s, cycle)
  {
    forall v ensures v in WrittenValues(listed, s) <==> v in Writes(p, a, s, cycle) {
      if v in Writes(p, a, s, cycle) {
        var u :| u in p.updates && u.state == s && ActiveAt(p, a, u, cycle) && Ev(p, a, u.value) == Known(v);
        assert (u, v) in listed;
      }
    }
  }

  /** Agreement of the cycle is agreement of its listed writes. */
  lemma ListedAgreement(p: Problem, a: Assignment, cycle: nat, listed: seq<(Update, Value)>)
    requires cycle <= p.horizon && forall u :: u in p.updates ==> UpdateOk(p, a, u)
    requires forall x :: x in listed <==> x.0 in p.updates && Updates(p, a, x.0, cycle, x.1)
    ensures Agreement(p, a, cycle) <==> forall s :: Agree(listed, s)
  {
    if forall s :: Agree(listed, s) {
      forall u, w | u in p.updates && w in p.updates && u.state == w.state
                    && ActiveAt(p, a, u, cycle) && ActiveAt(p, a, w, cycle)
        ensures Ev(p, a, u.value) == Ev(p, a, w.value)
      {
        assert UpdateOk(p, a, u) && UpdateOk(p, a, w);
        assert Agree(listed, u.state);
        assert (u, Ev(p, a, u.value).value) in listed && (w, Ev(p, a, w.value).value) in listed;
      }
    }
  }

  lemma StepListed(p: Problem, a: Assignment, steps: seq<Step>, cycle: nat, step: Step)
    requires StepsDescribe(p, a, steps, cycle) && ActiveCycle(p, a, cycle)
    requires step == Step(cycle, PreState(p, a, cycle), PreState(p, a, cycle + 1))
    ensures StepsDescribe(p, a, steps + [step], cycle + 1)
  {
    var longer := steps + [step];
    forall c | 0 <= c < cycle + 1 && ActiveCycle(p, a, c)
      ensures exists i :: 0 <= i < |longer| && longer[i].cycle == c
    {
      if c == cycle {
        assert longer[|steps|].cycle == c;
      } else {
        var i :| 0 <= i < |steps| && steps[i].cycle == c;
        assert longer[i].cycle == c;
      }
    }
  }

  /** An active cycle adds a step, a quiet one does not. */
  lemma StepOrStutter(p: Problem, a: Assignment, steps: seq<Step>, cycle: nat, after: Cells, active: bool)
    requires StepsDescribe(p, a, steps, cycle) && (active <==> ActiveCycle(p, a, cycle))
    requires after == PreState(p, a, cycle + 1)
    ensures StepsDescribe(p, a, if active then steps + [Step(cycle, PreState(p, a, cycle), after)] else steps,
                          cycle + 1)
  {
    if active { StepListed(p, a, steps, cycle, Step(cycle, PreState(p, a, cycle), after)); }
  }

  /** The indexes list, per cycle, the active requirements and updates. */
  ghost predicate Indexed(p: Problem, a: Assignment, required: map<int, seq<(Requirement, Value)>>,
                          updated: map<int, seq<(Update, Value)>>)
  {
    && ListsDue(p, a, required, |p.requirements|)
    && (forall c :: c in updated ==> updated[c] != [])
    && (forall c, x :: Lists(updated, c, x) <==> x.0 in p.updates && Updates(p, a, x.0, c, x.1))
  }

  /** The keys of the two indexes are the active cycles. */
  lemma ActiveKeys(p: Problem, a: Assignment, required: map<int, seq<(Requirement, Value)>>,
                   updated: map<int, seq<(Update, Value)>>, cycle: int)
    requires Indexed(p, a, required, updated)
    ensures cycle in required.Keys + updated.Keys <==> ActiveCycle(p, a, cycle)
    ensures Listed(required, cycle) == Due(p, a, p.requirements, cycle)
    ensures forall x :: x in Listed(updated, cycle) <==> x.0 in p.updates && Updates(p, a, x.0, cycle, x.1)
  {
    assert p.requirements[..|p.requirements|] == p.requirements;
    assert Listed(required, cycle) == Due(p, a, p.requirements, cycle);
    DueMembers(p, a, p.requirements, cycle);
    assert forall x :: x in Listed(updated, cycle) <==> Lists(updated, cycle, x);
    if cycle in required { assert required[cycle][0] in Listed(required, cycle); }
    if cycle in updated { assert Lists(updated, cycle, updated[cycle][0]); }
    if r, v :| r in p.requirements && Requires(p, a, r, cycle, v) {
      assert (r, v) in Listed(required, cycle);
    }
    if u, v :| u in p.updates && Updates(p, a, u, cycle, v) { assert Lists(updated, cycle, (u, v)); }
  }

  lemma AllGuardsReadable(p: Problem, a: Assignment, pres: seq<Cells>)
    requires ValidProblem(p) && Recorded(p, a, pres)
    requires forall v :: v in p.variables ==> Ev(p, a, v.initial).Known?
    ensures forall f :: f in p.forwards ==> GuardsReadable(f.predicates, pres)
    ensures forall s :: s in p.supports ==> forall c :: c in s.supports ==> GuardsReadable(c.predicates, pres)
  {
    forall state, c | Declares(p, state) && 0 <= c < |pres| ensures state in pres[c] {
      DeclaredInPreState(p, a, state, c);
    }
    forall f, g | f in p.forwards && g in f.predicates ensures Declares(p, g.state) {
      assert ValidPredicate(p, g);
    }
    forall s, c, g | s in p.supports && c in s.supports && g in c.predicates ensures Declares(p, g.state) {
      assert ValidPredicate(p, g);
    }
  }

  lemma RequirementByPreState(p: Problem, a: Assignment, r: Requirement)
    requires RequirementResolves(p, a, r) && ValidProblem(p) && r in p.requirements
    requires forall v :: v in p.variables ==> Ev(p, a, v.initial).Known?
    requires forall c :: 0 <= c <= p.horizon ==> RequirementsHold(p, a, c)
    ensures RequirementOk(p, a, r)
  {
    if Ev(p, a, r.activation) == Known(TRUE) {
      var (c, v) := (Ev(p, a, r.cycle).value.n, Ev(p, a, r.expected).value);
      assert RequirementsHold(p, a, c) && Requires(p, a, r, c, v);
      DeclaredInPreState(p, a, r.state, c);
    }
  }

  /** The requirement's comparison holds in the pre-state of its cycle. */
  ghost predicate CellCompares(p: Problem, a: Assignment, r: Requirement, cycle: int, expected: Value) {
    0 <= cycle && Holds(p, a, r.state, cycle, r.op, expected)
  }

  lemma DeclaredInPreState(p: Problem, a: Assignment, state: string, cycle: nat)
    requires ValidProblem(p) && Declares(p, state)
    requires forall v :: v in p.variables ==> Ev(p, a, v.initial).Known?
    ensures state in PreState(p, a, cycle)
  {
    InitialCellsAre(p, a, p.variables);
    PreStateKeys(p, a, cycle);
  }

  /** The requirements that are active in the cycle compare true with its pre-state. */
  ghost predicate RequirementsHold(p: Problem, a: Assignment, cycle: int) {
    forall r, v :: r in p.requirements && Requires(p, a, r, cycle, v) ==> CellCompares(p, a, r, cycle, v)
  }

  /** What the cycles below `bound` have established. */
  ghost predicate RanTo(p: Problem, a: Assignment, bound: nat, pres: seq<Cells>) {
    && |pres| == bound
    && (forall c :: 0 <= c < bound ==> pres[c] == PreState(p, a, c))
    && (forall c :: 0 <= c < bound ==> Agreement(p, a, c))
    && (forall c :: 0 <= c < bound ==> RequirementsHold(p, a, c))
  }

  lemma ExtendRun(p: Problem, a: Assignment, cycle: nat, pres: seq<Cells>)
    requires RanTo(p, a, cycle, pres) && Agreement(p, a, cycle)
    requires RequirementsHold(p, a, cycle)
    ensures RanTo(p, a, cycle + 1, pres + [PreState(p, a, cycle)])
  {
  }

  lemma RequirementFails(p: Problem, a: Assignment, r: Requirement, cycle: nat, expected: Value)
    requires Requires(p, a, r, cycle, expected) && r.state in PreState(p, a, cycle)
    requires EvalStrict(r.op, PreState(p, a, cycle)[r.state], expected) != Known(TRUE)
    ensures !RequirementOk(p, a, r) && !CellCompares(p, a, r, cycle, expected)
  {
  }

  /** The requirements of one cycle, on the shared pre-state. */
  method ObserveCycle(p: Problem, a: Assignment, cycle: nat, state: Cells, required: seq<(Requirement, Value)>)
    returns (stage: Stage<()>)
    requires ValidProblem(p) && cycle <= p.horizon && state == PreState(p, a, cycle)
    requires forall v :: v in p.variables ==> Ev(p, a, v.initial).Known?
    requires required == Due(p, a, p.requirements, cycle)
    ensures stage.Done? <==> RequirementsHold(p, a, cycle)
    ensures !stage.Done? ==> exists r :: r in p.requirements && !RequirementOk(p, a, r)
    ensures stage.Threw? <==> CycleThrows(p, a, cycle)
  {
    DueMembers(p, a, p.requirements, cycle);
    forall x | x in required ensures x.0.state in state { DeclaredInPreState(p, a, x.0.state, cycle); }
    stage := CheckRequirements(state, required);
    if stage.Done? {
      forall r, v | r in p.requirements && Requires(p, a, r, cycle, v) ensures CellCompares(p, a, r, cycle, v) {
        assert (r, v) in required;
      }
    } else {
      ghost var x :| x in required && EvalStrict(x.0.op, state[x.0.state], x.1) != Known(TRUE);
      RequirementFails(p, a, x.0, cycle, x.1);
    }
  }

  /** The outcome of one cycle on the shared pre-state. */
  method RunCycle(p: Problem, a: Assignment, cycle: nat, state: Cells, required: seq<(Requirement, Value)>,
                  updated: seq<(Update, Value)>)
    returns (stage: Stage<Cells>)
    requires ValidProblem(p) && cycle <= p.horizon && state == PreState(p, a, cycle)
    requires forall v :: v in p.variables ==> Ev(p, a, v.initial).Known?
    requires forall u :: u in p.updates ==> UpdateOk(p, a, u)
    requires required == Due(p, a, p.requirements, cycle)
    requires forall x :: x in updated <==> x.0 in p.updates && Updates(p, a, x.0, cycle, x.1)
    ensures stage.Done? ==> stage.value == PreState(p, a, cycle + 1)
    ensures stage.Done? <==> Agreement(p, a, cycle) && RequirementsHold(p, a, cycle)
    ensures !stage.Done? ==> !Agreement(p, a, cycle) || exists r :: r in p.requirements && !RequirementOk(p, a, r)
    ensures stage.Threw? <==> CycleThrows(p, a, cycle)
  {
    var observed := ObserveCycle(p, a, cycle, state, required);
    if !observed.Done? { return if observed.Threw? then Threw else Rejected; }
    forall x | x in updated ensures x.0.state in state { DeclaredInPreState(p, a, x.0.state, cycle); }
    NextPreState(p, a, cycle, updated);
    ListedAgreement(p, a, cycle, updated);
    stage := ApplyUpdates(state, updated);
  }

  /** A cycle in which a comparison raises is one whose requirements do not all hold. */
  lemma ThrowingFails(p: Problem, a: Assignment, cycle: nat)
    requires ValidProblem(p) && forall v :: v in p.variables ==> Ev(p, a, v.initial).Known?
    ensures CycleThrows(p, a, cycle) ==> !RequirementsHold(p, a, cycle)
  {
    var due := Due(p, a, p.requirements, cycle);
    DueMembers(p, a, p.requirements, cycle);
    if i :| 0 <= i < |due| && due[i].0.state in PreState(p, a, cycle)
            && EvalStrict(due[i].0.op, PreState(p, a, cycle)[due[i].0.state], due[i].1).Raised? {
      assert due[i] in due;
      RequirementFails(p, a, due[i].0, cycle, due[i].1);
    }
  }

  /** The first cycle that does not run decides how the run ends. */
  lemma RunStops(p: Problem, a: Assignment, cycle: nat)
    requires ValidProblem(p) && forall v :: v in p.variables ==> Ev(p, a, v.initial).Known?
    requires cycle <= p.horizon + 1 && forall d :: 0 <= d < cycle ==> Agreement(p, a, d) && RequirementsHold(p, a, d)
    requires cycle <= p.horizon ==> !(Agreement(p, a, cycle) && RequirementsHold(p, a, cycle))
    ensures RunAccepts(p, a) <==> cycle > p.horizon
    ensures RunThrows(p, a) <==> cycle <= p.horizon && CycleThrows(p, a, cycle)
  {
    forall d | 0 <= d < cycle ensures !CycleThrows(p, a, d) { ThrowingFails(p, a, d); }
  }

  /** The loop over the cycles 0..horizon: final state, steps and recorded pre-states. */
  method RunCycles(p: Problem, a: Assignment, initial: Cells, required: map<int, seq<(Requirement, Value)>>,
                   updated: map<int, seq<(Update, Value)>>)
    returns (stage: Stage<(Cells, seq<Step>, seq<Cells>)>)
    requires ValidProblem(p) && initial == PreState(p, a, 0)
    requires forall v :: v in p.variables ==> Ev(p, a, v.initial).Known?
    requires forall u :: u in p.updates ==> UpdateOk(p, a, u)
    requires Indexed(p, a, required, updated)
    ensures stage.Done? ==> stage.value.0 == PreState(p, a, p.horizon + 1)
    ensures stage.Done? ==> StepsDescribe(p, a, stage.value.1, p.horizon + 1)
    ensures stage.Done? ==> RanTo(p, a, p.horizon + 1, stage.value.2)
    ensures !stage.Done? ==> (exists c :: 0 <= c <= p.horizon && !Agreement(p, a, c))
                             || exists r :: r in p.requirements && !RequirementOk(p, a, r)
    ensures stage.Done? <==> RunAccepts(p, a)
    ensures stage.Threw? <==> RunThrows(p, a)
  {
    var state, steps, pres := initial, [], [];
    for cycle := 0 to p.horizon + 1
      invariant state == PreState(p, a, cycle) && RanTo(p, a, cycle, pres)
      invariant StepsDescribe(p, a, steps, cycle)
    {
      ActiveKeys(p, a, required, updated, cycle);
      var outcome := RunCycle(p, a, cycle, state, Listed(required, cycle), Listed(updated, cycle));
      if !outcome.Done? {
        RunStops(p, a, cycle);
        return if outcome.Threw? then Threw else Rejected;
      }
      var active := cycle in required || cycle in updated;
      StepOrStutter(p, a, steps, cycle, outcome.value, active);
      if active { steps := steps + [Step(cycle, state, outcome.value)]; }
      ExtendRun(p, a, cycle, pres);
      pres := pres + [state];
      state := outcome.value;
    }
    RunStops(p, a, p.horizon + 1);
    stage := Done((state, steps, pres));
  }

  /**
   * Simulates the declared state of one assignment. It accepts exactly the feasible assignments, and then reports
   * the initial and final state and one step for each active cycle. It raises exactly when something raises before
   * anything rejects the assignment.
   */
  method CheckStateSemantics(p: Problem, a: Assignment) returns (result: StateResult)
    requires ValidProblem(p)
    ensures result.SimFeasible? <==> Feasible(p, a)
    ensures result.SimFeasible? ==>
      result.initial == PreState(p, a, 0) && result.finalState == PreState(p, a, p.horizon + 1)
    ensures result.SimFeasible? ==> StepsDescribe(p, a, result.steps, p.horizon + 1)
    ensures result.SimThrew? <==> StateThrows(p, a)
  {
    var initial := InitialState(p, a);
    if !initial.Done? { return if initial.Threw? then SimThrew else Infeasible; }
    var required := CollectRequirements(p, a);
    if !required.Done? { return if required.Threw? then SimThrew else Infeasible; }
    var updated := CollectUpdates(p, a);
    if !updated.Done? { return if updated.Threw? then SimThrew else Infeasible; }
    result := RunStages(p, a, initial.value, required.value, updated.value);
  }

  /** The stages that need the collected effects: the cycles, then the guarded transitions. */
  method RunStages(p: Problem, a: Assignment, initial: Cells, required: map<int, seq<(Requirement, Value)>>,
                   updated: map<int, seq<(Update, Value)>>)
    returns (result: StateResult)
    requires ValidProblem(p) && initial == PreState(p, a, 0)
    requires forall v :: v in p.variables ==> Ev(p, a, v.initial).Known?
    requires forall r :: r in p.requirements ==> RequirementResolves(p, a, r)
    requires forall u :: u in p.updates ==> UpdateOk(p, a, u)
    requires Indexed(p, a, required, updated)
    ensures result.SimFeasible? <==> Feasible(p, a)
    ensures result.SimFeasible? ==>
      result.initial == initial && result.finalState == PreState(p, a, p.horizon + 1)
    ensures result.SimFeasible? ==> StepsDescribe(p, a, result.steps, p.horizon + 1)
    ensures result.SimThrew? <==> RunThrows(p, a) || (RunAccepts(p, a) && TransitionsThrow(p, a))
  {
    var run := RunCycles(p, a, initial, required, updated);
    if !run.Done? { return if run.Threw? then SimThrew else Infeasible; }
    var (state, steps, pres) := run.value;
    forall r | r in p.requirements ensures RequirementOk(p, a, r) {
      RequirementByPreState(p, a, r);
    }
    AllGuardsReadable(p, a, pres);
    var guarded := CheckGuardedTransitions(p, a, pres);
    if !guarded.Done? { return if guarded.Threw? then SimThrew else Infeasible; }
    result := SimFeasible(initial, state, steps);
  }

  // ----- What raises is something that may raise

  lemma {:induction false} ScanThrowsRaises(p: Problem, a: Assignment, candidates: seq<SupportCandidate>)
    requires ScanThrows(p, a, candidates)
    ensures exists k :: k in candidates && (Ev(p, a, k.expression).Raised? || GuardsRaise(p, a, k.predicates))
  {
    var k := candidates[0];
    if GuardScan(p, a, k.predicates) == GuardRaised { ScanRaises(p, a, k.predicates); }
    if !Ev(p, a, k.expression).Raised? && !GuardsRaise(p, a, k.predicates) { ScanThrowsRaises(p, a, candidates[1..]); }
  }

  lemma RunThrowsRaises(p: Problem, a: Assignment)
    requires RunThrows(p, a)
    ensures exists r :: r in p.requirements && RequirementRaises(p, a, r)
  {
    var c :| 0 <= c <= p.horizon && CycleThrows(p, a, c);
    var due := Due(p, a, p.requirements, c);
    DueMembers(p, a, p.requirements, c);
    var i :| 0 <= i < |due| && due[i].0.state in PreState(p, a, c)
        && EvalStrict(due[i].0.op, PreState(p, a, c)[due[i].0.state], due[i].1).Raised?;
    assert due[i] in due;
    assert RequirementRaises(p, a, due[i].0);
  }

  lemma TransitionsThrowRaises(p: Problem, a: Assignment)
    requires TransitionsThrow(p, a)
    ensures StateRaises(p, a)
  {
    if ForwardsThrow(p, a) {
      var i :| 0 <= i < |p.forwards| && ForwardThrows(p, a, p.forwards[i]);
      var f := p.forwards[i];
      if GuardScan(p, a, f.predicates) == GuardRaised { ScanRaises(p, a, f.predicates); }
      assert f in p.forwards && ForwardRaises(p, a, f);
    } else {
      var i :| 0 <= i < |p.supports| && SupportThrows(p, a, p.supports[i]);
      var s := p.supports[i];
      if !Ev(p, a, s.antecedent).Raised? { ScanThrowsRaises(p, a, s.supports); }
      assert s in p.supports && SupportRaises(p, a, s);
    }
  }

  lemma StateThrowsRaises(p: Problem, a: Assignment)
    requires StateThrows(p, a)
    ensures StateRaises(p, a)
  {
    if InitialThrows(p, a) {
      var i :| 0 <= i < |p.variables| && Ev(p, a, p.variables[i].initial).Raised?;
      assert p.variables[i] in p.variables;
    } else if RequirementsThrow(p, a) {
      var i :| 0 <= i < |p.requirements|
          && ReadThrows(Ev(p, a, p.requirements[i].activation), Ev(p, a, p.requirements[i].cycle),
                        Ev(p, a, p.requirements[i].expected));
      assert p.requirements[i] in p.requirements && RequirementRaises(p, a, p.requirements[i]);
    } else if UpdatesThrow(p, a) {
      var i :| 0 <= i < |p.updates|
          && ReadThrows(Ev(p, a, p.updates[i].activation), Ev(p, a, p.updates[i].cycle), Ev(p, a, p.updates[i].value));
      assert p.updates[i] in p.updates && UpdateRaises(p, a, p.updates[i]);
    } else if RunThrows(p, a) {
      RunThrowsRaises(p, a);
    } else {
      TransitionsThrowRaises(p, a);
    }
  }
}
