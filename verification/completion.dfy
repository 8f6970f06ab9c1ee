/** Reporting a completed trace: guard predicates are checked again by replaying the sparse steps. */
module Completion {
  import opened Common
  import opened Expressions
  import opened Evaluator
  import opened Problems
  import opened Rules
  import opened State
  import opened Simulator

  /** The pre-state that a replay shows for any cycle, also outside 0..horizon. */
  ghost function ReplayedState(p: Problem, a: Assignment, cycle: int): Cells {
    PreState(p, a, if cycle < 0 then 0 else if cycle > p.horizon then p.horizon + 1 else cycle)
  }

  lemma NoWrites(p: Problem, a: Assignment, cycle: nat, state: string)
    requires Feasible(p, a) && cycle <= p.horizon && !ActiveCycle(p, a, cycle)
    ensures Writes(p, a, state, cycle) == {}
  {
    forall u | u in p.updates ensures !(ActiveAt(p, a, u, cycle) && Ev(p, a, u.value).Known?) {
      if ActiveAt(p, a, u, cycle) && Ev(p, a, u.value).Known? {
        assert Updates(p, a, u, cycle, Ev(p, a, u.value).value);
        assert false;
      }
    }
  }

  /** Between active cycles the state does not change. */
  lemma {:induction false} QuietCyclesStutter(p: Problem, a: Assignment, first: nat, last: nat)
    requires Feasible(p, a) && first <= last <= p.horizon + 1
    requires forall c :: first <= c < last ==> !ActiveCycle(p, a, c)
    ensures PreState(p, a, first) == PreState(p, a, last)
    decreases last
  {
    if first < last {
      var c := last - 1;
      QuietCyclesStutter(p, a, first, c);
      forall s ensures Writes(p, a, s, c) == {} { NoWrites(p, a, c, s); }
      assert PreState(p, a, last) == map s | s in PreState(p, a, c) ::
        NextValue(PreState(p, a, c)[s], Writes(p, a, s, c));
    }
  }

  /** Steps whose cycles lie before `cycle` are those below `i`; none lies from the last of them up to `goal`. */
  lemma NoStepBetween(p: Problem, a: Assignment, steps: seq<Step>, i: nat, cycle: int, goal: nat)
    requires StepsDescribe(p, a, steps, p.horizon + 1) && i <= |steps| && goal <= p.horizon + 1
    requires i < |steps| ==> steps[i].cycle >= cycle
    requires goal <= cycle || goal == 0
    ensures forall c :: (if i == 0 then 0 else steps[i - 1].cycle + 1) <= c < goal ==> !ActiveCycle(p, a, c)
  {
    forall c | (if i == 0 then 0 else steps[i - 1].cycle + 1) <= c < goal ensures !ActiveCycle(p, a, c) {
      forall k | 0 <= k < |steps| ensures steps[k].cycle != c {
        if k < i { assert k == i - 1 || steps[k].cycle < steps[i - 1].cycle; }
        if k > i { assert steps[i].cycle < steps[k].cycle; }
      }
    }
  }

  /** Where a replay stands after its first `i` steps. */
  function Reached(steps: seq<Step>, i: nat): int
    requires i <= |steps|
  {
    if i == 0 then 0 else steps[i - 1].cycle + 1
  }

  ghost function AfterSteps(p: Problem, a: Assignment, steps: seq<Step>, i: nat): Cells
    requires i <= |steps|
  {
    if Reached(steps, i) < 0 then map[] else PreState(p, a, Reached(steps, i))
  }

  lemma AfterStepsEnds(p: Problem, a: Assignment, steps: seq<Step>, i: nat, cycle: int)
    requires Feasible(p, a) && StepsDescribe(p, a, steps, p.horizon + 1) && i <= |steps|
    requires i > 0 ==> steps[i - 1].cycle < cycle
    requires i < |steps| ==> steps[i].cycle >= cycle
    ensures AfterSteps(p, a, steps, i) == ReplayedState(p, a, cycle)
  {
    var goal: nat := if cycle < 0 then 0 else if cycle > p.horizon then p.horizon + 1 else cycle;
    NoStepBetween(p, a, steps, i, cycle, goal);
    QuietCyclesStutter(p, a, Reached(steps, i), goal);
  }

  lemma AfterStepsAt(p: Problem, a: Assignment, steps: seq<Step>, i: nat)
    requires StepsDescribe(p, a, steps, p.horizon + 1) && i < |steps|
    ensures AfterSteps(p, a, steps, i + 1) == steps[i].after
  {
  }

  /** The state after the steps before the cycle, and their number. */
  method ReplaySteps(p: Problem, a: Assignment, initial: Cells, steps: seq<Step>, cycle: int)
    returns (state: Cells, ghost i: nat)
    requires initial == PreState(p, a, 0) && StepsDescribe(p, a, steps, p.horizon + 1)
    ensures i <= |steps| && state == AfterSteps(p, a, steps, i)
    ensures (i > 0 ==> steps[i - 1].cycle < cycle) && (i < |steps| ==> steps[i].cycle >= cycle)
  {
    state := initial;
    var k := 0;
    while k < |steps| && steps[k].cycle < cycle
      invariant 0 <= k <= |steps| && (k > 0 ==> steps[k - 1].cycle < cycle)
      invariant state == AfterSteps(p, a, steps, k)
    {
      AfterStepsAt(p, a, steps, k);
      state := steps[k].after;
      k := k + 1;
    }
    i := k;
  }

  /** Overwrites the initial state with the result of every step before the cycle. */
  method ReplayPreState(p: Problem, a: Assignment, run: StateResult, cycle: int) returns (state: Cells)
    requires run.SimFeasible? && Feasible(p, a)
    requires run.initial == PreState(p, a, 0) && StepsDescribe(p, a, run.steps, p.horizon + 1)
    ensures state == ReplayedState(p, a, cycle)
  {
    ghost var i;
    state, i := ReplaySteps(p, a, run.initial, run.steps, cycle);
    AfterStepsEnds(p, a, run.steps, i, cycle);
  }

  /** A predicate holds in the replayed state. */
  ghost predicate HoldsInReplay(p: Problem, a: Assignment, g: GuardPredicate) {
    var (cycle, expected) := (Ev(p, a, g.cycle), Ev(p, a, g.expected));
    && cycle.Known? && cycle.value.Int? && expected.Known?
    && g.state in ReplayedState(p, a, cycle.value.n)
    && EvalStrict(g.op, ReplayedState(p, a, cycle.value.n)[g.state], expected.value) == Known(TRUE)
  }

  /** Evaluating the predicate raises, or its values have no order. */
  ghost predicate ReplayRaises(p: Problem, a: Assignment, g: GuardPredicate) {
    var (cycle, expected) := (Ev(p, a, g.cycle), Ev(p, a, g.expected));
    || cycle.Raised? || expected.Raised?
    || (cycle.Known? && cycle.value.Int? && expected.Known? && g.state in ReplayedState(p, a, cycle.value.n)
        && Less(ReplayedState(p, a, cycle.value.n)[g.state], expected.value).None?)
  }

  /** Some predicate raises after all earlier ones held. */
  ghost predicate ReplayThrows(p: Problem, a: Assignment, predicates: seq<GuardPredicate>) {
    exists k :: 0 <= k < |predicates| && ReplayRaises(p, a, predicates[k]) && HoldsBefore(p, a, predicates, k)
  }

  ghost predicate HoldsBefore(p: Problem, a: Assignment, predicates: seq<GuardPredicate>, k: int)
    requires k <= |predicates|
  {
    forall j :: 0 <= j < k ==> HoldsInReplay(p, a, predicates[j]) && !ReplayRaises(p, a, predicates[j])
  }

  lemma NoThrow(p: Problem, a: Assignment, predicates: seq<GuardPredicate>, i: nat)
    requires i < |predicates| && HoldsBefore(p, a, predicates, i) && !ReplayRaises(p, a, predicates[i])
    requires !HoldsInReplay(p, a, predicates[i])
    ensures !ReplayThrows(p, a, predicates)
  {
  }

  /** Evaluates the predicates over replayed states; values that cannot be ordered raise whatever the operator. */
  method StatePredicatesHold(p: Problem, a: Assignment, predicates: seq<GuardPredicate>, run: StateResult)
    returns (result: Stage<()>)
    requires run.SimFeasible? && Feasible(p, a) && forall g :: g in predicates ==> IsComparison(g.op)
    requires run.initial == PreState(p, a, 0) && StepsDescribe(p, a, run.steps, p.horizon + 1)
    ensures result.Threw? <==> ReplayThrows(p, a, predicates)
    ensures !result.Threw? ==> (result.Done? <==> forall g :: g in predicates ==> HoldsInReplay(p, a, g))
  {
    for i := 0 to |predicates|
      invariant HoldsBefore(p, a, predicates, i)
    {
      var holds := StatePredicateHolds(p, a, predicates[i], run);
      if holds.Threw? { return Threw; }
      if holds.Rejected? {
        NoThrow(p, a, predicates, i);
        return Rejected;
      }
    }
    result := Done(());
  }

  /** One round of the loop. */
  method StatePredicateHolds(p: Problem, a: Assignment, g: GuardPredicate, run: StateResult) returns (result: Stage<()>)
    requires run.SimFeasible? && Feasible(p, a) && IsComparison(g.op)
    requires run.initial == PreState(p, a, 0) && StepsDescribe(p, a, run.steps, p.horizon + 1)
    ensures result.Threw? <==> ReplayRaises(p, a, g)
    ensures result.Done? ==> HoldsInReplay(p, a, g)
    ensures result.Rejected? ==> !HoldsInReplay(p, a, g)
  {
    var cycle := Evaluate(g.cycle, p.events, a);
    var expected := Evaluate(g.expected, p.events, a);
    if cycle.Raised? || expected.Raised? { return Threw; }
    if !(cycle.Known? && cycle.value.Int?) { return Rejected; }
    var state := ReplayPreState(p, a, run, cycle.value.n);
    if g.state !in state || expected.Unknown? { return Rejected; }
    if Less(state[g.state], expected.value).None? { return Threw; }
    result := if EvalStrict(g.op, state[g.state], expected.value) == Known(TRUE) then Done(()) else Rejected;
  }

  /** For guards anchored inside the horizon the replay agrees with the guard scan of the simulation. */
  lemma {:induction false} ReplayAgreesWithScan(p: Problem, a: Assignment, predicates: seq<GuardPredicate>)
    requires forall g :: g in predicates ==> ValidCycle(Ev(p, a, g.cycle), p.horizon)
    ensures GuardScan(p, a, predicates) == GuardsHold <==> forall g :: g in predicates ==> HoldsInReplay(p, a, g)
  {
    if predicates != [] {
      assert predicates == [predicates[0]] + predicates[1..];
      assert forall g :: g in predicates <==> g == predicates[0] || g in predicates[1..];
      assert ValidCycle(Ev(p, a, predicates[0].cycle), p.horizon);
      ReplayAgreesWithScan(p, a, predicates[1..]);
      var cycle := Ev(p, a, predicates[0].cycle).value.n;
      assert ReplayedState(p, a, cycle) == PreState(p, a, cycle);
      assert GuardScan(p, a, predicates) == GuardsHold <==>
             HoldsInReplay(p, a, predicates[0]) && GuardScan(p, a, predicates[1..]) == GuardsHold;
    }
  }

  /** The rule instance fires in the run. */
  ghost predicate Fires(p: Problem, a: Assignment, f: Firing) {
    IsTrue(f.expression, p.events, a) && forall g :: g in f.predicates ==> HoldsInReplay(p, a, g)
  }

  ghost predicate FiringRaises(p: Problem, a: Assignment, f: Firing) {
    Ev(p, a, f.expression).Raised? || (IsTrue(f.expression, p.events, a) && ReplayThrows(p, a, f.predicates))
  }

  /** Raises exactly when some rule instance does, and otherwise reports exactly the instances that fire in the run. */
  method ActiveTransformations(p: Problem, a: Assignment, firings: seq<Firing>, run: StateResult)
    returns (active: Result<seq<Firing>>)
    requires run.SimFeasible? && Feasible(p, a)
    requires forall f :: f in firings ==> forall g :: g in f.predicates ==> IsComparison(g.op)
    requires run.initial == PreState(p, a, 0) && StepsDescribe(p, a, run.steps, p.horizon + 1)
    ensures active.Ok? ==> forall f :: f in Elements(active.value) <==> f in Elements(firings) && Fires(p, a, f)
    ensures active.Err? <==> exists f :: f in firings && FiringRaises(p, a, f)
  {
    var found := [];
    for k := 0 to |firings|
      invariant forall f :: f in Elements(found) <==> f in Elements(firings[..k]) && Fires(p, a, f)
      invariant forall f :: f in Elements(firings[..k]) ==> !FiringRaises(p, a, f)
    {
      PrefixElements(firings, k);
      var f := firings[k];
      var value := Evaluate(f.expression, p.events, a);
      if value.Raised? { return Err; }
      if value == Known(TRUE) {
        var holds := StatePredicatesHold(p, a, f.predicates, run);
        if holds.Threw? { return Err; }
        if holds.Done? {
          AppendOne(found, f);
          found := found + [f];
        }
      }
    }
    WholePrefix(firings);
    assert forall f :: f in firings <==> f in Elements(firings);
    active := Ok(found);
  }

  // ----- Where the report and the simulation differ

  /** The cell and the expected value of the predicate have an order, or there is nothing to compare. */
  ghost predicate Orderable(p: Problem, a: Assignment, g: GuardPredicate)
    requires ValidCycle(Ev(p, a, g.cycle), p.horizon)
  {
    var (cells, expected) := (PreState(p, a, Ev(p, a, g.cycle).value.n), Ev(p, a, g.expected));
    !expected.Raised? && (expected.Known? && g.state in cells ==> Less(cells[g.state], expected.value).Some?)
  }

  lemma ReplayRaisesInRange(p: Problem, a: Assignment, g: GuardPredicate)
    requires ValidCycle(Ev(p, a, g.cycle), p.horizon)
    ensures ReplayRaises(p, a, g) <==> !Orderable(p, a, g)
  {
    assert ReplayedState(p, a, Ev(p, a, g.cycle).value.n) == PreState(p, a, Ev(p, a, g.cycle).value.n);
  }

  /** Predicate `k` has no order, and the simulation finds all earlier ones orderable and true. */
  ghost predicate StopsAt(p: Problem, a: Assignment, predicates: seq<GuardPredicate>, k: int)
    requires GuardsInRange(p, a, predicates) && 0 <= k < |predicates|
  {
    && !Orderable(p, a, predicates[k])
    && GuardScan(p, a, predicates[..k]) == GuardsHold
    && forall j :: 0 <= j < k ==> Orderable(p, a, predicates[j])
  }

  lemma PrefixScan(p: Problem, a: Assignment, predicates: seq<GuardPredicate>, k: nat)
    requires GuardsInRange(p, a, predicates) && k <= |predicates|
    ensures GuardScan(p, a, predicates[..k]) == GuardsHold <==>
            forall j :: 0 <= j < k ==> HoldsInReplay(p, a, predicates[j])
  {
    var before := predicates[..k];
    forall g | g in before ensures ValidCycle(Ev(p, a, g.cycle), p.horizon) {
      assert g in predicates;
    }
    ReplayAgreesWithScan(p, a, before);
    if forall j :: 0 <= j < k ==> HoldsInReplay(p, a, predicates[j]) {
      forall g | g in before ensures HoldsInReplay(p, a, g) {
        var j :| 0 <= j < k && predicates[j] == g;
      }
    }
    if forall g :: g in before ==> HoldsInReplay(p, a, g) {
      forall j | 0 <= j < k ensures HoldsInReplay(p, a, predicates[j]) {
        assert before[j] in before;
      }
    }
  }

  lemma HoldsBeforeIsScan(p: Problem, a: Assignment, predicates: seq<GuardPredicate>, k: nat)
    requires GuardsInRange(p, a, predicates) && k <= |predicates|
    ensures HoldsBefore(p, a, predicates, k) <==>
            GuardScan(p, a, predicates[..k]) == GuardsHold && forall j :: 0 <= j < k ==> Orderable(p, a, predicates[j])
  {
    PrefixScan(p, a, predicates, k);
    forall j | 0 <= j < k
      ensures predicates[j] in predicates && (ReplayRaises(p, a, predicates[j]) <==> !Orderable(p, a, predicates[j]))
    {
      ReplayRaisesInRange(p, a, predicates[j]);
    }
  }

  /**
   * For guards inside the horizon the report of a rule instance raises exactly when the scan of the simulation
   * reaches values without an order, and otherwise the instance is reported exactly when the scan succeeds.
   */
  lemma ReportAgreesWithScan(p: Problem, a: Assignment, f: Firing)
    requires GuardsInRange(p, a, f.predicates) && IsTrue(f.expression, p.events, a)
    ensures FiringRaises(p, a, f) <==> exists k :: 0 <= k < |f.predicates| && StopsAt(p, a, f.predicates, k)
    ensures Fires(p, a, f) <==> GuardScan(p, a, f.predicates) == GuardsHold
  {
    forall k | 0 <= k < |f.predicates|
      ensures ReplayRaises(p, a, f.predicates[k]) && HoldsBefore(p, a, f.predicates, k) <==>
              StopsAt(p, a, f.predicates, k)
    {
      assert f.predicates[k] in f.predicates;
      ReplayRaisesInRange(p, a, f.predicates[k]);
      HoldsBeforeIsScan(p, a, f.predicates, k);
    }
    ReplayAgreesWithScan(p, a, f.predicates);
  }
}
