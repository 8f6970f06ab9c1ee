/** Operational state of a fully assigned trace: its meaning, its simulation, and the views that agree with it. */
module State {
  import opened Common
  import opened Expressions
  import opened Evaluator
  import opened Problems

  type Cells = map<string, Value>

  // ----- Meaning

  function Ev(p: Problem, a: Assignment, e: Expr): Outcome {
    Evaluate(e, p.events, a)
  }

  predicate ValidCycle(o: Outcome, horizon: nat) {
    o.Known? && o.value.Int? && 0 <= o.value.n <= horizon
  }

  predicate ActiveAt(p: Problem, a: Assignment, u: Update, cycle: int) {
    Ev(p, a, u.activation) == Known(TRUE) && Ev(p, a, u.cycle) == Known(Int(cycle))
  }

  /** The values that active updates give a cell in a cycle. */
  ghost function Writes(p: Problem, a: Assignment, state: string, cycle: int): set<Value> {
    set u | u in p.updates && u.state == state && ActiveAt(p, a, u, cycle) && Ev(p, a, u.value).Known? ::
      Ev(p, a, u.value).value
  }

  function InitialCells(p: Problem, a: Assignment, variables: seq<StateVariable>): Cells {
    if variables == [] then map[]
    else
      var last := variables[|variables| - 1];
      var before := InitialCells(p, a, variables[..|variables| - 1]);
      var value := Ev(p, a, last.initial);
      if value.Known? then before[last.name := value.value] else before
  }

  ghost function NextValue(current: Value, writes: set<Value>): Value {
    if writes == {} then current else var v :| v in writes; v
  }

  /** The cells that a cycle observes: the writes of earlier cycles are atomic, unwritten cells keep their value. */
  ghost function PreState(p: Problem, a: Assignment, cycle: nat): Cells {
    if cycle == 0 then InitialCells(p, a, p.variables)
    else
      var before := PreState(p, a, cycle - 1);
      map s | s in before :: NextValue(before[s], Writes(p, a, s, cycle - 1))
  }

  /** Active writes to one cell in one cycle agree. */
  ghost predicate Agreement(p: Problem, a: Assignment, cycle: int) {
    forall u, w | u in p.updates && w in p.updates && u.state == w.state ::
      ActiveAt(p, a, u, cycle) && ActiveAt(p, a, w, cycle) ==> Ev(p, a, u.value) == Ev(p, a, w.value)
  }

  /** A comparison with the pre-state of a cycle. */
  ghost predicate Holds(p: Problem, a: Assignment, state: string, cycle: int, op: BinaryOp, expected: Value) {
    && cycle >= 0 && state in PreState(p, a, cycle)
    && EvalStrict(op, PreState(p, a, cycle)[state], expected) == Known(TRUE)
  }

  ghost predicate RequirementOk(p: Problem, a: Assignment, r: Requirement) {
    && Ev(p, a, r.activation).Known?
    && (Ev(p, a, r.activation) == Known(TRUE) ==>
          && ValidCycle(Ev(p, a, r.cycle), p.horizon) && Ev(p, a, r.expected).Known?
          && Holds(p, a, r.state, Ev(p, a, r.cycle).value.n, r.op, Ev(p, a, r.expected).value))
  }

  ghost predicate UpdateOk(p: Problem, a: Assignment, u: Update) {
    && Ev(p, a, u.activation).Known?
    && (Ev(p, a, u.activation) == Known(TRUE) ==> ValidCycle(Ev(p, a, u.cycle), p.horizon) && Ev(p, a, u.value).Known?)
  }

  datatype GuardResult = GuardsHold | GuardFails | Unresolved | GuardRaised

  /** Guard predicates are read in order; the first that fails or is unresolved decides. */
  ghost function GuardScan(p: Problem, a: Assignment, predicates: seq<GuardPredicate>): GuardResult {
    if predicates == [] then GuardsHold
    else
      var g := predicates[0];
      var (cycle, expected) := (Ev(p, a, g.cycle), Ev(p, a, g.expected));
      if cycle.Raised? || expected.Raised? then GuardRaised
      else if !ValidCycle(cycle, p.horizon) || expected.Unknown?
          || g.state !in PreState(p, a, cycle.value.n) then Unresolved
      else
        var actual := PreState(p, a, cycle.value.n)[g.state];
        var holds := EvalStrict(g.op, actual, expected.value);
        if !holds.Known? then GuardRaised
        else if holds == Known(TRUE) then GuardScan(p, a, predicates[1..])
        else GuardFails
  }

  /** An enabled transition has its consequent. */
  ghost predicate ForwardOk(p: Problem, a: Assignment, f: GuardedForward) {
    && Ev(p, a, f.antecedent).Known?
    && (Ev(p, a, f.antecedent) == Known(TRUE) ==>
          var guards := GuardScan(p, a, f.predicates);
          guards == GuardFails || (guards == GuardsHold && Ev(p, a, f.consequent) == Known(TRUE)))
  }

  /** Some candidate, read in order, is true with its guards; an unresolved guard on the way is an error. */
  ghost predicate SupportScan(p: Problem, a: Assignment, candidates: seq<SupportCandidate>) {
    candidates != []
    && var expression := Ev(p, a, candidates[0].expression);
       if expression.Raised? then false
       else if expression != Known(TRUE) then SupportScan(p, a, candidates[1..])
       else
         var guards := GuardScan(p, a, candidates[0].predicates);
         guards == GuardsHold || (guards == GuardFails && SupportScan(p, a, candidates[1..]))
  }

  ghost predicate SupportOk(p: Problem, a: Assignment, s: GuardedSupport) {
    && Ev(p, a, s.antecedent).Known?
    && (Ev(p, a, s.antecedent) == Known(TRUE) ==> SupportScan(p, a, s.supports))
  }

  /** The assignment respects the operational state semantics. */
  ghost predicate Feasible(p: Problem, a: Assignment) {
    && (forall v :: v in p.variables ==> Ev(p, a, v.initial).Known?)
    && (forall r :: r in p.requirements ==> RequirementOk(p, a, r))
    && (forall u :: u in p.updates ==> UpdateOk(p, a, u))
    && (forall c :: 0 <= c <= p.horizon ==> Agreement(p, a, c))
    && (forall f :: f in p.forwards ==> ForwardOk(p, a, f))
    && (forall s :: s in p.supports ==> SupportOk(p, a, s))
  }

  // ----- When the simulation raises

  /** Comparing a cell with the expected value in a cycle of the run raises. */
  ghost predicate ComparisonRaises(p: Problem, a: Assignment, state: string, cycle: Expr, op: BinaryOp,
                                   expected: Expr) {
    || Ev(p, a, cycle).Raised? || Ev(p, a, expected).Raised?
    || (ValidCycle(Ev(p, a, cycle), p.horizon) && Ev(p, a, expected).Known?
        && state in PreState(p, a, Ev(p, a, cycle).value.n)
        && !EvalStrict(op, PreState(p, a, Ev(p, a, cycle).value.n)[state], Ev(p, a, expected).value).Known?)
  }

  ghost predicate RequirementRaises(p: Problem, a: Assignment, r: Requirement) {
    Ev(p, a, r.activation).Raised? || ComparisonRaises(p, a, r.state, r.cycle, r.op, r.expected)
  }

  predicate UpdateRaises(p: Problem, a: Assignment, u: Update) {
    Ev(p, a, u.activation).Raised? || Ev(p, a, u.cycle).Raised? || Ev(p, a, u.value).Raised?
  }

  ghost predicate GuardsRaise(p: Problem, a: Assignment, predicates: seq<GuardPredicate>) {
    exists g :: g in predicates && ComparisonRaises(p, a, g.state, g.cycle, g.op, g.expected)
  }

  ghost predicate ForwardRaises(p: Problem, a: Assignment, f: GuardedForward) {
    Ev(p, a, f.antecedent).Raised? || Ev(p, a, f.consequent).Raised? || GuardsRaise(p, a, f.predicates)
  }

  ghost predicate SupportRaises(p: Problem, a: Assignment, s: GuardedSupport) {
    || Ev(p, a, s.antecedent).Raised?
    || exists k :: k in s.supports && (Ev(p, a, k.expression).Raised? || GuardsRaise(p, a, k.predicates))
  }

  /** Some evaluation or comparison that the simulation may make raises. */
  ghost predicate StateRaises(p: Problem, a: Assignment) {
    || (exists v :: v in p.variables && Ev(p, a, v.initial).Raised?)
    || (exists r :: r in p.requirements && RequirementRaises(p, a, r))
    || (exists u :: u in p.updates && UpdateRaises(p, a, u))
    || (exists f :: f in p.forwards && ForwardRaises(p, a, f))
    || (exists s :: s in p.supports && SupportRaises(p, a, s))
  }

  lemma {:induction false} ScanRaises(p: Problem, a: Assignment, predicates: seq<GuardPredicate>)
    requires GuardScan(p, a, predicates) == GuardRaised
    ensures GuardsRaise(p, a, predicates)
  {
    var g := predicates[0];
    if ComparisonRaises(p, a, g.state, g.cycle, g.op, g.expected) {
      assert g in predicates;
    } else {
      ScanRaises(p, a, predicates[1..]);
    }
  }

  // ----- Cycles inside the horizon

  ghost predicate GuardsInRange(p: Problem, a: Assignment, predicates: seq<GuardPredicate>) {
    forall g :: g in predicates ==> ValidCycle(Ev(p, a, g.cycle), p.horizon)
  }

  /** The guards of true candidates have cycles in range. */
  ghost predicate CandidatesInRange(p: Problem, a: Assignment, candidates: seq<SupportCandidate>) {
    forall k :: k in candidates && IsTrue(k.expression, p.events, a) ==> GuardsInRange(p, a, k.predicates)
  }

  /** Every active effect has a cycle inside the horizon. */
  ghost predicate CyclesInRange(p: Problem, a: Assignment) {
    && (forall r :: r in p.requirements && IsTrue(r.activation, p.events, a) ==>
          ValidCycle(Ev(p, a, r.cycle), p.horizon))
    && (forall u :: u in p.updates && IsTrue(u.activation, p.events, a) ==> ValidCycle(Ev(p, a, u.cycle), p.horizon))
    && (forall f :: f in p.forwards && IsTrue(f.antecedent, p.events, a) ==> GuardsInRange(p, a, f.predicates))
    && (forall s :: s in p.supports && IsTrue(s.antecedent, p.events, a) ==> CandidatesInRange(p, a, s.supports))
  }

  lemma {:induction false} PreStateKeys(p: Problem, a: Assignment, cycle: nat)
    ensures PreState(p, a, cycle).Keys == InitialCells(p, a, p.variables).Keys
  {
    if cycle > 0 { PreStateKeys(p, a, cycle - 1); }
  }

  lemma InitialStep(p: Problem, a: Assignment, variables: seq<StateVariable>, last: StateVariable)
    requires Ev(p, a, last.initial).Known?
    ensures InitialCells(p, a, variables + [last])
            == InitialCells(p, a, variables)[last.name := Ev(p, a, last.initial).value]
  {
    assert (variables + [last])[..|variables|] == variables;
  }

  lemma {:induction false} InitialCellsAre(p: Problem, a: Assignment, variables: seq<StateVariable>)
    requires forall i, j :: 0 <= i < j < |variables| ==> variables[i].name != variables[j].name
    requires forall v :: v in variables ==> Ev(p, a, v.initial).Known?
    ensures InitialCells(p, a, variables).Keys == set v | v in variables :: v.name
    ensures forall v :: v in variables ==> InitialCells(p, a, variables)[v.name] == Ev(p, a, v.initial).value
  {
    if variables != [] {
      var shorter := variables[..|variables| - 1];
      var last := variables[|variables| - 1];
      assert last in variables && variables == shorter + [last];
      InitialStep(p, a, shorter, last);
      InitialCellsAre(p, a, shorter);
      assert forall v :: v in variables <==> v in shorter || v == last;
    }
  }

  // ----- Three views of the state

  lemma CellStep(p: Problem, a: Assignment, cycle: nat, state: string)
    requires state in PreState(p, a, cycle)
    ensures state in PreState(p, a, cycle + 1)
    ensures PreState(p, a, cycle + 1)[state] == NextValue(PreState(p, a, cycle)[state], Writes(p, a, state, cycle))
  {
  }

  /** The cell has the value before the cycle. */
  ghost predicate CellIs(p: Problem, a: Assignment, cycle: nat, state: string, value: Value) {
    state in PreState(p, a, cycle) && PreState(p, a, cycle)[state] == value
  }

  lemma QuietStep(p: Problem, a: Assignment, cycle: nat, state: string, value: Value)
    requires CellIs(p, a, cycle, state, value) && Writes(p, a, state, cycle) == {}
    ensures CellIs(p, a, cycle + 1, state, value)
  {
    CellStep(p, a, cycle, state);
  }

  /** A cell keeps its value while nothing writes it. */
  lemma UnwrittenStays(p: Problem, a: Assignment, first: nat, last: nat, state: string, value: Value)
    requires first <= last && CellIs(p, a, first, state, value)
    requires forall d :: first <= d < last ==> Writes(p, a, state, d) == {}
    ensures CellIs(p, a, last, state, value)
  {
    ghost var holds := (d: nat) => CellIs(p, a, first + d, state, value);
    forall d: nat | d < last - first && holds(d) ensures holds(d + 1) { QuietStep(p, a, first + d, state, value); }
    StepByStep(holds, last - first, last - first);
  }

  /** In a run without conflicts the pre-state of a cell is its latest earlier write, or its initial value. */
  lemma PreStateIsLatestWrite(p: Problem, a: Assignment, cycle: nat, state: string)
    requires state in InitialCells(p, a, p.variables)
    ensures state in PreState(p, a, cycle)
    ensures (forall c :: 0 <= c < cycle ==> Writes(p, a, state, c) == {}) ==>
      PreState(p, a, cycle)[state] == InitialCells(p, a, p.variables)[state]
    ensures forall c :: 0 <= c < cycle && Writes(p, a, state, c) != {}
                        && (forall d :: c < d < cycle ==> Writes(p, a, state, d) == {}) ==>
      PreState(p, a, cycle)[state] in Writes(p, a, state, c)
  {
    PreStateKeys(p, a, cycle);
    if forall c :: 0 <= c < cycle ==> Writes(p, a, state, c) == {} {
      UnwrittenStays(p, a, 0, cycle, state, InitialCells(p, a, p.variables)[state]);
    }
    forall c | 0 <= c < cycle && Writes(p, a, state, c) != {}
               && (forall d :: c < d < cycle ==> Writes(p, a, state, d) == {})
      ensures PreState(p, a, cycle)[state] in Writes(p, a, state, c)
    {
      WriteShows(p, a, c, cycle, state);
    }
  }

  /** A write shows until the next one. */
  lemma WriteShows(p: Problem, a: Assignment, written: nat, cycle: nat, state: string)
    requires state in InitialCells(p, a, p.variables) && written < cycle && Writes(p, a, state, written) != {}
    requires forall d :: written < d < cycle ==> Writes(p, a, state, d) == {}
    ensures state in PreState(p, a, cycle) && PreState(p, a, cycle)[state] in Writes(p, a, state, written)
  {
    PreStateKeys(p, a, written);
    CellStep(p, a, written, state);
    UnwrittenStays(p, a, written + 1, cycle, state, PreState(p, a, written + 1)[state]);
  }

  /** The written value is the one every active update gives. */
  lemma AgreedWrite(p: Problem, a: Assignment, u: Update, cycle: nat)
    requires Agreement(p, a, cycle) && u in p.updates && ActiveAt(p, a, u, cycle) && Ev(p, a, u.value).Known?
    ensures Writes(p, a, u.state, cycle) == {Ev(p, a, u.value).value}
  {
    assert Ev(p, a, u.value).value in Writes(p, a, u.state, cycle);
    forall v | v in Writes(p, a, u.state, cycle) ensures v == Ev(p, a, u.value).value {
      var w :| w in p.updates && w.state == u.state && ActiveAt(p, a, w, cycle) && Ev(p, a, w.value) == Known(v);
    }
  }

  // ----- The order of the effect lists does not matter

  /** The problems differ at most in the order and repetition of their effects. */
  ghost predicate SameEffects(p: Problem, q: Problem) {
    && p.events == q.events && p.horizon == q.horizon && p.variables == q.variables
    && Elements(p.requirements) == Elements(q.requirements)
    && Elements(p.updates) == Elements(q.updates)
    && Elements(p.forwards) == Elements(q.forwards)
    && Elements(p.supports) == Elements(q.supports)
  }

  lemma SameWrites(p: Problem, q: Problem, a: Assignment, state: string, cycle: int)
    requires SameEffects(p, q)
    ensures Writes(p, a, state, cycle) == Writes(q, a, state, cycle)
  {
    assert forall u :: u in p.updates <==> u in Elements(p.updates);
    assert forall u :: u in q.updates <==> u in Elements(q.updates);
  }

  lemma {:induction false} SameInitial(p: Problem, q: Problem, a: Assignment, variables: seq<StateVariable>)
    requires p.events == q.events
    ensures InitialCells(p, a, variables) == InitialCells(q, a, variables)
  {
    if variables != [] { SameInitial(p, q, a, variables[..|variables| - 1]); }
  }

  /** Reordering effects leaves every pre-state, and so the final state, unchanged. */
  lemma {:induction false} OrderDoesNotChangeState(p: Problem, q: Problem, a: Assignment, cycle: nat)
    requires SameEffects(p, q)
    ensures PreState(p, a, cycle) == PreState(q, a, cycle)
  {
    if cycle == 0 {
      SameInitial(p, q, a, p.variables);
    } else {
      OrderDoesNotChangeState(p, q, a, cycle - 1);
      SameNext(p, q, a, cycle - 1);
    }
  }

  lemma SameNext(p: Problem, q: Problem, a: Assignment, cycle: nat)
    requires SameEffects(p, q) && PreState(p, a, cycle) == PreState(q, a, cycle)
    ensures PreState(p, a, cycle + 1) == PreState(q, a, cycle + 1)
  {
    assert PreState(p, a, cycle + 1).Keys == PreState(q, a, cycle + 1).Keys;
    forall s | s in PreState(p, a, cycle) ensures PreState(p, a, cycle + 1)[s] == PreState(q, a, cycle + 1)[s] {
      SameWrites(p, q, a, s, cycle);
      CellStep(p, a, cycle, s);
      CellStep(q, a, cycle, s);
    }
  }

  lemma {:induction false} SameGuards(p: Problem, q: Problem, a: Assignment, predicates: seq<GuardPredicate>)
    requires SameEffects(p, q)
    ensures GuardScan(p, a, predicates) == GuardScan(q, a, predicates)
  {
    if predicates != [] {
      var cycle := Ev(p, a, predicates[0].cycle);
      if ValidCycle(cycle, p.horizon) { OrderDoesNotChangeState(p, q, a, cycle.value.n); }
      SameGuards(p, q, a, predicates[1..]);
    }
  }

  lemma {:induction false} SameSupport(p: Problem, q: Problem, a: Assignment, candidates: seq<SupportCandidate>)
    requires SameEffects(p, q)
    ensures SupportScan(p, a, candidates) == SupportScan(q, a, candidates)
  {
    if candidates != [] {
      SameGuards(p, q, a, candidates[0].predicates);
      SameSupport(p, q, a, candidates[1..]);
    }
  }

  /** ... and so the verdict. */
  lemma OrderDoesNotChangeVerdict(p: Problem, q: Problem, a: Assignment)
    requires SameEffects(p, q) && Feasible(p, a)
    ensures Feasible(q, a)
  {
    forall r | r in q.requirements ensures RequirementOk(q, a, r) {
      assert r in Elements(q.requirements);
      assert RequirementOk(p, a, r);
      var cycle := Ev(p, a, r.cycle);
      if ValidCycle(cycle, p.horizon) { OrderDoesNotChangeState(p, q, a, cycle.value.n); }
    }
    forall u | u in q.updates ensures u in p.updates { assert u in Elements(q.updates); }
    forall u | u in q.updates ensures UpdateOk(q, a, u) { assert UpdateOk(p, a, u); }
    forall c | 0 <= c <= q.horizon ensures Agreement(q, a, c) { assert Agreement(p, a, c); }
    forall f | f in q.forwards ensures ForwardOk(q, a, f) {
      assert f in Elements(q.forwards);
      assert ForwardOk(p, a, f);
      SameGuards(p, q, a, f.predicates);
    }
    forall s | s in q.supports ensures SupportOk(q, a, s) {
      assert s in Elements(q.supports);
      assert SupportOk(p, a, s);
      SameSupport(p, q, a, s.supports);
    }
  }
}
