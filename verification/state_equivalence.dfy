/** The simulation and the transition-relation encoding accept the same assignments. */
module StateEquivalence {
  import opened Common
  import opened Expressions
  import opened Evaluator
  import opened Problems
  import opened State
  import opened Smt
  import opened StateEncoding

  /** A well-sorted problem, and a model whose declared constants encode the assignment. */
  ghost predicate Setting(codec: Codec, types: Signature, p: Problem, a: Assignment, m: Model) {
    WellSortedState(codec, types, p) && EncodesAssignment(codec, types, a, m)
  }

  lemma BoolDenotes(codec: Codec, types: Signature, p: Problem, e: Expr, a: Assignment, m: Model)
    requires WellSorted(codec, types, p.events, e, BoolSort) && EncodesAssignment(codec, types, a, m)
    ensures Denote(T(codec, p, e), m) == B(IsTrue(e, p.events, a)) && Decided(e, p.events, a)
  {
    TranslationAgrees(codec, types, p.events, e, BoolSort, a, m);
  }

  lemma CycleDenotes(codec: Codec, types: Signature, p: Problem, e: Expr, c: nat, a: Assignment, m: Model)
    requires WellSorted(codec, types, p.events, e, IntSort) && EncodesAssignment(codec, types, a, m)
    ensures Denote(CycleIs(codec, p, e, c), m) == B(Ev(p, a, e) == Known(Int(c)))
    ensures Ev(p, a, e).Known? && Ev(p, a, e).value.Int?
  {
    TranslationAgrees(codec, types, p.events, e, IntSort, a, m);
    EqualDenotes(T(codec, p, e), Constant(I(c)), m);
  }

  /** The snapshots of a cycle hold the codes of its pre-state. */
  ghost predicate SnapshotsAre(codec: Codec, p: Problem, a: Assignment, m: Model, c: nat) {
    forall v :: v in p.variables ==>
      && v.name in PreState(p, a, c) && HasSort(codec, v.sort, PreState(p, a, c)[v.name])
      && Denote(Snapshot(v.name, c), m) == Encode(codec, v.sort, PreState(p, a, c)[v.name])
  }

  lemma SameVariable(p: Problem, v: StateVariable, w: StateVariable)
    requires ValidProblem(p) && v in p.variables && w in p.variables && v.name == w.name
    ensures v == w
  {
    var i :| 0 <= i < |p.variables| && p.variables[i] == v;
    var j :| 0 <= j < |p.variables| && p.variables[j] == w;
    assert i == j;
  }

  lemma CompareDenotes(codec: Codec, s: Sort, op: BinaryOp, x: Value, y: Value, t: Term, u: Term, m: Model)
    requires IsComparison(op) && HasSort(codec, s, x) && HasSort(codec, s, y) && (op in {Eq, Ne} || s == IntSort)
    requires Denote(t, m) == Encode(codec, s, x) && Denote(u, m) == Encode(codec, s, y)
    ensures Denote(CompareTerm(op, t, u), m) == B(EvalStrict(op, x, y) == Known(TRUE)) && EvalStrict(op, x, y).Known?
  {
    if op in {Eq, Ne} {
      EqualityAgrees(codec, op, s, Known(x), Known(y), t, u, m);
    } else {
      IntegerBinaryAgrees(codec, op, Known(x), Known(y), t, u, m);
    }
  }

  /** Comparing the snapshot of a cycle is comparing its pre-state. */
  lemma ComparisonDenotes(codec: Codec, types: Signature, p: Problem, a: Assignment, m: Model, state: string,
                          cycle: Expr, op: BinaryOp, expected: Expr, c: nat)
    requires ValidProblem(p) && EncodesAssignment(codec, types, a, m) && SnapshotsAre(codec, p, a, m, c)
    requires ComparisonSorted(codec, types, p, state, cycle, op, expected)
    ensures Ev(p, a, expected).Known? && state in PreState(p, a, c)
    ensures EvalStrict(op, PreState(p, a, c)[state], Ev(p, a, expected).value).Known?
    ensures Denote(CompareTerm(op, Snapshot(state, c), T(codec, p, expected)), m)
         == B(Holds(p, a, state, c, op, Ev(p, a, expected).value))
  {
    var s :| CellSort(p, state, s) && WellSorted(codec, types, p.events, expected, s)
        && (op in {Eq, Ne} || s == IntSort);
    var v :| v in p.variables && v.name == state && v.sort == s;
    TranslationAgrees(codec, types, p.events, expected, s, a, m);
    CompareDenotes(codec, s, op, PreState(p, a, c)[state], Ev(p, a, expected).value,
                   Snapshot(state, c), T(codec, p, expected), m);
  }

  // ----- Initial state and transitions

  lemma InitialSnapshots(codec: Codec, types: Signature, p: Problem, a: Assignment, m: Model)
    requires Setting(codec, types, p, a, m)
    ensures forall v :: v in p.variables ==> Ev(p, a, v.initial).Known?
    ensures (forall v :: v in p.variables ==> Satisfied(InitialTerm(codec, p, v), m)) <==>
            SnapshotsAre(codec, p, a, m, 0)
  {
    forall v | v in p.variables
      ensures Ev(p, a, v.initial).Known? && HasSort(codec, v.sort, Ev(p, a, v.initial).value)
    {
      TranslationAgrees(codec, types, p.events, v.initial, v.sort, a, m);
    }
    InitialCellsAre(p, a, p.variables);
    forall v | v in p.variables
      ensures Satisfied(InitialTerm(codec, p, v), m)
         <==> Denote(Snapshot(v.name, 0), m) == Encode(codec, v.sort, PreState(p, a, 0)[v.name])
    {
      TranslationAgrees(codec, types, p.events, v.initial, v.sort, a, m);
      EqualDenotes(Snapshot(v.name, 0), T(codec, p, v.initial), m);
    }
  }

  lemma ActiveTermDenotes(codec: Codec, types: Signature, p: Problem, a: Assignment, m: Model, u: Update, c: nat)
    requires Setting(codec, types, p, a, m) && u in p.updates
    ensures Denote(ActiveTerm(codec, p, u, c), m) == B(ActiveAt(p, a, u, c))
  {
    assert UpdateSorted(codec, types, p, u);
    BoolDenotes(codec, types, p, u.activation, a, m);
    CycleDenotes(codec, types, p, u.cycle, c, a, m);
    AndDenotes(T(codec, p, u.activation), CycleIs(codec, p, u.cycle, c), m);
  }

  lemma UpdateDenotes(codec: Codec, types: Signature, p: Problem, a: Assignment, m: Model, u: Update, v: StateVariable,
                      c: nat)
    requires Setting(codec, types, p, a, m) && u in p.updates && v in p.variables && v.name == u.state
    ensures Denote(ActiveTerm(codec, p, u, c), m) == B(ActiveAt(p, a, u, c))
    ensures Ev(p, a, u.activation).Known? && Ev(p, a, u.value).Known? && HasSort(codec, v.sort, Ev(p, a, u.value).value)
    ensures Satisfied(UpdateTerm(codec, p, u, c), m) <==>
            (ActiveAt(p, a, u, c) ==>
               Denote(Snapshot(u.state, c + 1), m) == Encode(codec, v.sort, Ev(p, a, u.value).value))
  {
    assert UpdateSorted(codec, types, p, u);
    var s :| CellSort(p, u.state, s) && WellSorted(codec, types, p.events, u.value, s);
    var w :| w in p.variables && w.name == u.state && w.sort == s;
    SameVariable(p, v, w);
    BoolDenotes(codec, types, p, u.activation, a, m);
    ActiveTermDenotes(codec, types, p, a, m, u, c);
    TranslationAgrees(codec, types, p.events, u.value, s, a, m);
    EqualDenotes(Snapshot(u.state, c + 1), T(codec, p, u.value), m);
    ImpliesDenotes(ActiveTerm(codec, p, u, c), EqualTerm(Snapshot(u.state, c + 1), T(codec, p, u.value)), m);
  }

  /** Some update of the cell is active. */
  ghost predicate Written(p: Problem, a: Assignment, state: string, c: nat) {
    exists u :: u in p.updates && u.state == state && ActiveAt(p, a, u, c)
  }

  lemma AnyActive(p: Problem, a: Assignment, m: Model, updates: seq<Update>, active: seq<Term>, c: nat)
    requires |active| == |updates| && forall i :: 0 <= i < |active| ==>
      Denote(active[i], m) == B(ActiveAt(p, a, updates[i], c))
    ensures AsBool(Denote(AnyTerm(active), m)) <==> exists u :: u in updates && ActiveAt(p, a, u, c)
  {
    AnyDenotes(active, m);
    if u :| u in updates && ActiveAt(p, a, u, c) {
      var i :| 0 <= i < |updates| && updates[i] == u;
      assert active[i] in active;
    }
    if t :| t in active && AsBool(Denote(t, m)) {
      var i :| 0 <= i < |active| && active[i] == t;
      assert updates[i] in updates;
    }
  }

  lemma ActiveTermsDenote(codec: Codec, types: Signature, p: Problem, a: Assignment, m: Model, updates: seq<Update>,
                          c: nat)
    requires Setting(codec, types, p, a, m) && forall u :: u in updates ==> u in p.updates
    ensures AsBool(Denote(AnyTerm(ActiveTerms(codec, p, updates, c)), m)) <==>
            exists u :: u in updates && ActiveAt(p, a, u, c)
  {
    var active := ActiveTerms(codec, p, updates, c);
    forall i | 0 <= i < |updates| ensures Denote(active[i], m) == B(ActiveAt(p, a, updates[i], c)) {
      ActiveTermDenotes(codec, types, p, a, m, updates[i], c);
    }
    AnyActive(p, a, m, updates, active, c);
  }

  lemma StutterDenotes(codec: Codec, types: Signature, p: Problem, a: Assignment, m: Model, v: StateVariable, c: nat)
    requires Setting(codec, types, p, a, m) && v in p.variables
    ensures Satisfied(StutterTerm(codec, p, v.name, c), m) <==>
            (!Written(p, a, v.name, c) ==> Denote(Snapshot(v.name, c + 1), m) == Denote(Snapshot(v.name, c), m))
  {
    var active := AnyTerm(ActiveTerms(codec, p, UpdatesOf(p.updates, v.name), c));
    var keeps := EqualTerm(Snapshot(v.name, c + 1), Snapshot(v.name, c));
    ActiveTermsDenote(codec, types, p, a, m, UpdatesOf(p.updates, v.name), c);
    DenoteOne(active, m);
    EqualDenotes(Snapshot(v.name, c + 1), Snapshot(v.name, c), m);
    ImpliesDenotes(App(OpNot, [active]), keeps, m);
  }

  /**
   * The transition terms of one cycle hold exactly when its writes agree and the next snapshots are the next pre-state.
   */
  ghost predicate TransitionSatisfied(codec: Codec, p: Problem, m: Model, c: nat) {
    && (forall u :: u in p.updates ==> Satisfied(UpdateTerm(codec, p, u, c), m))
    && (forall v :: v in p.variables ==> Satisfied(StutterTerm(codec, p, v.name, c), m))
  }

  lemma CellOfUpdate(codec: Codec, types: Signature, p: Problem, u: Update) returns (v: StateVariable)
    requires WellSortedState(codec, types, p) && u in p.updates
    ensures v in p.variables && v.name == u.state
  {
    assert UpdateSorted(codec, types, p, u);
    var s :| CellSort(p, u.state, s);
    v :| v in p.variables && v.name == u.state && v.sort == s;
  }

  lemma TransitionForcesAgreement(codec: Codec, types: Signature, p: Problem, a: Assignment, m: Model, c: nat)
    requires Setting(codec, types, p, a, m) && TransitionSatisfied(codec, p, m, c)
    ensures Agreement(p, a, c)
  {
    forall u, w | u in p.updates && w in p.updates && u.state == w.state && ActiveAt(p, a, u, c) && ActiveAt(p, a, w, c)
      ensures Ev(p, a, u.value) == Ev(p, a, w.value)
    {
      var v := CellOfUpdate(codec, types, p, u);
      UpdateDenotes(codec, types, p, a, m, u, v, c);
      UpdateDenotes(codec, types, p, a, m, w, v, c);
      EncodeInjective(codec, v.sort, Ev(p, a, u.value).value, Ev(p, a, w.value).value);
    }
  }

  /** What one cell becomes: the agreed write, or its old value. */
  lemma NextCell(codec: Codec, types: Signature, p: Problem, a: Assignment, m: Model, v: StateVariable, c: nat)
    requires Setting(codec, types, p, a, m) && Agreement(p, a, c) && v in p.variables
    requires SnapshotsAre(codec, p, a, m, c)
    ensures v.name in PreState(p, a, c + 1) && HasSort(codec, v.sort, PreState(p, a, c + 1)[v.name])
    ensures forall u :: u in p.updates && u.state == v.name && ActiveAt(p, a, u, c) ==>
      Ev(p, a, u.value) == Known(PreState(p, a, c + 1)[v.name])
    ensures !Written(p, a, v.name, c) ==> PreState(p, a, c + 1)[v.name] == PreState(p, a, c)[v.name]
  {
    var before := PreState(p, a, c);
    assert PreState(p, a, c + 1)[v.name] == NextValue(before[v.name], Writes(p, a, v.name, c));
    if u :| u in p.updates && u.state == v.name && ActiveAt(p, a, u, c) {
      UpdateDenotes(codec, types, p, a, m, u, v, c);
      AgreedWrite(p, a, u, c);
    } else {
      assert Writes(p, a, v.name, c) == {};
    }
  }

  lemma TransitionGivesNext(codec: Codec, types: Signature, p: Problem, a: Assignment, m: Model, c: nat)
    requires Setting(codec, types, p, a, m) && Agreement(p, a, c) && SnapshotsAre(codec, p, a, m, c)
    ensures TransitionSatisfied(codec, p, m, c) <==> SnapshotsAre(codec, p, a, m, c + 1)
  {
    forall v | v in p.variables
      ensures v.name in PreState(p, a, c + 1) && HasSort(codec, v.sort, PreState(p, a, c + 1)[v.name])
    {
      NextCell(codec, types, p, a, m, v, c);
    }
    if TransitionSatisfied(codec, p, m, c) {
      forall v | v in p.variables
        ensures Denote(Snapshot(v.name, c + 1), m) == Encode(codec, v.sort, PreState(p, a, c + 1)[v.name])
      {
        NextCell(codec, types, p, a, m, v, c);
        if u :| u in p.updates && u.state == v.name && ActiveAt(p, a, u, c) {
          UpdateDenotes(codec, types, p, a, m, u, v, c);
        } else {
          StutterDenotes(codec, types, p, a, m, v, c);
        }
      }
    }
    if SnapshotsAre(codec, p, a, m, c + 1) {
      forall u | u in p.updates ensures Satisfied(UpdateTerm(codec, p, u, c), m) {
        var v := CellOfUpdate(codec, types, p, u);
        NextCell(codec, types, p, a, m, v, c);
        UpdateDenotes(codec, types, p, a, m, u, v, c);
      }
      forall v | v in p.variables ensures Satisfied(StutterTerm(codec, p, v.name, c), m) {
        NextCell(codec, types, p, a, m, v, c);
        StutterDenotes(codec, types, p, a, m, v, c);
      }
    }
  }

  // ----- Requirements and guards

  lemma RequirementDenotes(codec: Codec, types: Signature, p: Problem, a: Assignment, m: Model, r: Requirement)
    requires Setting(codec, types, p, a, m) && r in p.requirements
    requires forall c: nat :: c <= p.horizon ==> SnapshotsAre(codec, p, a, m, c)
    requires IsTrue(r.activation, p.events, a) ==> ValidCycle(Ev(p, a, r.cycle), p.horizon)
    ensures (forall c: nat :: c <= p.horizon ==> Satisfied(RequirementTerm(codec, p, r, c), m)) <==>
            RequirementOk(p, a, r)
  {
    BoolDenotes(codec, types, p, r.activation, a, m);
    forall c: nat | c <= p.horizon
      ensures Ev(p, a, r.expected).Known?
      ensures Satisfied(RequirementTerm(codec, p, r, c), m) <==>
              (IsTrue(r.activation, p.events, a) && Ev(p, a, r.cycle) == Known(Int(c)) ==>
                 Holds(p, a, r.state, c, r.op, Ev(p, a, r.expected).value))
    {
      CycleDenotes(codec, types, p, r.cycle, c, a, m);
      ComparisonDenotes(codec, types, p, a, m, r.state, r.cycle, r.op, r.expected, c);
      AndDenotes(T(codec, p, r.activation), CycleIs(codec, p, r.cycle, c), m);
      ImpliesDenotes(App(OpAnd, [T(codec, p, r.activation), CycleIs(codec, p, r.cycle, c)]),
                     CompareTerm(r.op, Snapshot(r.state, c), T(codec, p, r.expected)), m);
    }
    assert 0 <= p.horizon;
  }

  /** The predicate holds in the pre-state of its cycle. */
  ghost predicate PredicateHolds(p: Problem, a: Assignment, g: GuardPredicate) {
    && ValidCycle(Ev(p, a, g.cycle), p.horizon) && Ev(p, a, g.expected).Known?
    && Holds(p, a, g.state, Ev(p, a, g.cycle).value.n, g.op, Ev(p, a, g.expected).value)
  }

  /** Every guard holds. */
  ghost predicate GuardsOk(p: Problem, a: Assignment, predicates: seq<GuardPredicate>) {
    forall g :: g in predicates ==> PredicateHolds(p, a, g)
  }

  lemma CaseDenotes(codec: Codec, types: Signature, p: Problem, a: Assignment, m: Model, g: GuardPredicate, c: nat)
    requires ValidProblem(p) && EncodesAssignment(codec, types, a, m) && SnapshotsAre(codec, p, a, m, c)
    requires ComparisonSorted(codec, types, p, g.state, g.cycle, g.op, g.expected)
    ensures Ev(p, a, g.expected).Known?
    ensures AsBool(Denote(PredicateCase(codec, p, g, c), m)) <==>
            Ev(p, a, g.cycle) == Known(Int(c)) && Holds(p, a, g.state, c, g.op, Ev(p, a, g.expected).value)
  {
    CycleDenotes(codec, types, p, g.cycle, c, a, m);
    ComparisonDenotes(codec, types, p, a, m, g.state, g.cycle, g.op, g.expected, c);
    AndDenotes(CycleIs(codec, p, g.cycle, c), CompareTerm(g.op, Snapshot(g.state, c), T(codec, p, g.expected)), m);
  }

  lemma PredicateDenotes(codec: Codec, types: Signature, p: Problem, a: Assignment, m: Model, g: GuardPredicate)
    requires ValidProblem(p) && EncodesAssignment(codec, types, a, m)
    requires ComparisonSorted(codec, types, p, g.state, g.cycle, g.op, g.expected)
    requires forall c: nat :: c <= p.horizon ==> SnapshotsAre(codec, p, a, m, c)
    ensures AsBool(Denote(PredicateTerm(codec, p, g), m)) <==> PredicateHolds(p, a, g)
  {
    var cases := seq(p.horizon + 1, c requires 0 <= c => PredicateCase(codec, p, g, c));
    OrDenotes(cases, m);
    if PredicateHolds(p, a, g) {
      var c: nat := Ev(p, a, g.cycle).value.n;
      CaseDenotes(codec, types, p, a, m, g, c);
      assert cases[c] in cases;
    }
    if t :| t in cases && AsBool(Denote(t, m)) {
      var c :| 0 <= c < |cases| && cases[c] == t;
      CaseDenotes(codec, types, p, a, m, g, c);
    }
  }

  /** One step of the scan: a guard whose cycle is in range either holds or fails. */
  lemma ScanStep(codec: Codec, types: Signature, p: Problem, a: Assignment, m: Model, predicates: seq<GuardPredicate>)
    requires ValidProblem(p) && EncodesAssignment(codec, types, a, m) && predicates != []
    requires ComparisonSorted(codec, types, p, predicates[0].state, predicates[0].cycle, predicates[0].op,
                              predicates[0].expected)
    requires forall c: nat :: c <= p.horizon ==> SnapshotsAre(codec, p, a, m, c)
    ensures GuardScan(p, a, predicates)
         == if !ValidCycle(Ev(p, a, predicates[0].cycle), p.horizon) then Unresolved
            else if PredicateHolds(p, a, predicates[0]) then GuardScan(p, a, predicates[1..])
            else GuardFails
  {
    var g := predicates[0];
    CycleDenotes(codec, types, p, g.cycle, 0, a, m);
    ComparisonDenotes(codec, types, p, a, m, g.state, g.cycle, g.op, g.expected, 0);
    if ValidCycle(Ev(p, a, g.cycle), p.horizon) {
      ComparisonDenotes(codec, types, p, a, m, g.state, g.cycle, g.op, g.expected, Ev(p, a, g.cycle).value.n);
    }
  }

  /** The scan succeeds exactly when every guard holds; with every guard cycle in range it is never left unresolved. */
  lemma {:induction false} ScanDenotes(codec: Codec, types: Signature, p: Problem, a: Assignment, m: Model,
                                       predicates: seq<GuardPredicate>)
    requires ValidProblem(p) && EncodesAssignment(codec, types, a, m) && PredicatesSorted(codec, types, p, predicates)
    requires forall c: nat :: c <= p.horizon ==> SnapshotsAre(codec, p, a, m, c)
    ensures GuardsInRange(p, a, predicates) ==> GuardScan(p, a, predicates) in {GuardsHold, GuardFails}
    ensures GuardScan(p, a, predicates) == GuardsHold <==> GuardsOk(p, a, predicates)
  {
    if predicates != [] {
      assert forall g :: g in predicates <==> g == predicates[0] || g in predicates[1..];
      ScanStep(codec, types, p, a, m, predicates);
      ScanDenotes(codec, types, p, a, m, predicates[1..]);
    }
  }

  ghost predicate AllTrue(ts: seq<Term>, m: Model) {
    forall t :: t in ts ==> AsBool(Denote(t, m))
  }

  lemma PredicatesDenote(codec: Codec, types: Signature, p: Problem, a: Assignment, m: Model,
                         predicates: seq<GuardPredicate>)
    requires ValidProblem(p) && EncodesAssignment(codec, types, a, m) && PredicatesSorted(codec, types, p, predicates)
    requires forall c: nat :: c <= p.horizon ==> SnapshotsAre(codec, p, a, m, c)
    ensures AllTrue(PredicateTerms(codec, p, predicates), m) <==> GuardsOk(p, a, predicates)
  {
    var guards := PredicateTerms(codec, p, predicates);
    forall i | 0 <= i < |predicates|
      ensures guards[i] in guards && predicates[i] in predicates
      ensures AsBool(Denote(guards[i], m)) <==> PredicateHolds(p, a, predicates[i])
    {
      PredicateDenotes(codec, types, p, a, m, predicates[i]);
    }
    if AllTrue(guards, m) {
      forall g | g in predicates ensures PredicateHolds(p, a, g) {
        var i :| 0 <= i < |predicates| && predicates[i] == g;
        assert guards[i] in guards;
      }
    }
    if GuardsOk(p, a, predicates) {
      forall t | t in guards ensures AsBool(Denote(t, m)) {
        var i :| 0 <= i < |guards| && guards[i] == t;
        assert predicates[i] in predicates;
      }
    }
  }

  lemma ConsAllDenotes(t: Term, ts: seq<Term>, m: Model)
    ensures AsBool(Denote(App(OpAnd, [t] + ts), m)) <==> AsBool(Denote(t, m)) && AllTrue(ts, m)
  {
    AndAllDenotes([t] + ts, m);
    assert forall u :: u in [t] + ts <==> u == t || u in ts;
  }

  /** An expression with its guards holds as a term exactly when it is true and its guards hold. */
  lemma GuardedDenotes(codec: Codec, types: Signature, p: Problem, a: Assignment, m: Model, e: Expr,
                       predicates: seq<GuardPredicate>)
    requires ValidProblem(p) && EncodesAssignment(codec, types, a, m) && PredicatesSorted(codec, types, p, predicates)
    requires WellSorted(codec, types, p.events, e, BoolSort)
    requires forall c: nat :: c <= p.horizon ==> SnapshotsAre(codec, p, a, m, c)
    ensures AsBool(Denote(GuardedTerm(codec, p, e, predicates), m)) <==>
            IsTrue(e, p.events, a) && GuardsOk(p, a, predicates)
  {
    BoolDenotes(codec, types, p, e, a, m);
    PredicatesDenote(codec, types, p, a, m, predicates);
    ConsAllDenotes(T(codec, p, e), PredicateTerms(codec, p, predicates), m);
  }

  lemma ForwardDenotes(codec: Codec, types: Signature, p: Problem, a: Assignment, m: Model, f: GuardedForward)
    requires ValidProblem(p) && EncodesAssignment(codec, types, a, m) && PredicatesSorted(codec, types, p, f.predicates)
    requires WellSorted(codec, types, p.events, f.antecedent, BoolSort)
    requires WellSorted(codec, types, p.events, f.consequent, BoolSort)
    requires forall c: nat :: c <= p.horizon ==> SnapshotsAre(codec, p, a, m, c)
    ensures ForwardOk(p, a, f) ==> Satisfied(ForwardTerm(codec, p, f), m)
    ensures Satisfied(ForwardTerm(codec, p, f), m)
            && (IsTrue(f.antecedent, p.events, a) ==> GuardsInRange(p, a, f.predicates)) ==>
      ForwardOk(p, a, f)
  {
    BoolDenotes(codec, types, p, f.antecedent, a, m);
    BoolDenotes(codec, types, p, f.consequent, a, m);
    GuardedDenotes(codec, types, p, a, m, f.antecedent, f.predicates);
    ImpliesDenotes(GuardedTerm(codec, p, f.antecedent, f.predicates), T(codec, p, f.consequent), m);
    ScanDenotes(codec, types, p, a, m, f.predicates);
  }

  /** A support candidate is enabled. */
  ghost predicate CandidateHolds(p: Problem, a: Assignment, k: SupportCandidate) {
    IsTrue(k.expression, p.events, a) && GuardsOk(p, a, k.predicates)
  }

  lemma {:induction false} SupportScanDenotes(codec: Codec, types: Signature, p: Problem, a: Assignment, m: Model,
                                              candidates: seq<SupportCandidate>)
    requires ValidProblem(p) && EncodesAssignment(codec, types, a, m)
    requires forall c: nat :: c <= p.horizon ==> SnapshotsAre(codec, p, a, m, c)
    requires forall k :: k in candidates ==>
      WellSorted(codec, types, p.events, k.expression, BoolSort) && PredicatesSorted(codec, types, p, k.predicates)
    ensures SupportScan(p, a, candidates) ==> exists k :: k in candidates && CandidateHolds(p, a, k)
    ensures CandidatesInRange(p, a, candidates) && (exists k :: k in candidates && CandidateHolds(p, a, k)) ==>
      SupportScan(p, a, candidates)
  {
    if candidates != [] {
      var k := candidates[0];
      assert forall j :: j in candidates <==> j == k || j in candidates[1..];
      BoolDenotes(codec, types, p, k.expression, a, m);
      ScanDenotes(codec, types, p, a, m, k.predicates);
      SupportScanDenotes(codec, types, p, a, m, candidates[1..]);
    }
  }

  lemma SupportDenotes(codec: Codec, types: Signature, p: Problem, a: Assignment, m: Model, s: GuardedSupport)
    requires ValidProblem(p) && EncodesAssignment(codec, types, a, m)
    requires WellSorted(codec, types, p.events, s.antecedent, BoolSort)
    requires forall c: nat :: c <= p.horizon ==> SnapshotsAre(codec, p, a, m, c)
    requires forall k :: k in s.supports ==>
      WellSorted(codec, types, p.events, k.expression, BoolSort) && PredicatesSorted(codec, types, p, k.predicates)
    ensures SupportOk(p, a, s) ==> Satisfied(SupportTerm(codec, p, s), m)
    ensures Satisfied(SupportTerm(codec, p, s), m)
            && (IsTrue(s.antecedent, p.events, a) ==> CandidatesInRange(p, a, s.supports)) ==>
      SupportOk(p, a, s)
  {
    BoolDenotes(codec, types, p, s.antecedent, a, m);
    SupportScanDenotes(codec, types, p, a, m, s.supports);
    CandidatesDenote(codec, types, p, a, m, s.supports);
    ImpliesDenotes(T(codec, p, s.antecedent), AnyTerm(CandidateTerms(codec, p, s.supports)), m);
  }

  lemma CandidatesDenote(codec: Codec, types: Signature, p: Problem, a: Assignment, m: Model,
                         candidates: seq<SupportCandidate>)
    requires ValidProblem(p) && EncodesAssignment(codec, types, a, m)
    requires forall c: nat :: c <= p.horizon ==> SnapshotsAre(codec, p, a, m, c)
    requires forall k :: k in candidates ==>
      WellSorted(codec, types, p.events, k.expression, BoolSort) && PredicatesSorted(codec, types, p, k.predicates)
    ensures AsBool(Denote(AnyTerm(CandidateTerms(codec, p, candidates)), m)) <==>
            exists k :: k in candidates && CandidateHolds(p, a, k)
  {
    var terms := CandidateTerms(codec, p, candidates);
    AnyDenotes(terms, m);
    forall i | 0 <= i < |terms| ensures AsBool(Denote(terms[i], m)) <==> CandidateHolds(p, a, candidates[i]) {
      assert candidates[i] in candidates;
      GuardedDenotes(codec, types, p, a, m, candidates[i].expression, candidates[i].predicates);
    }
    if t :| t in terms && AsBool(Denote(t, m)) {
      var i :| 0 <= i < |terms| && terms[i] == t;
      assert candidates[i] in candidates;
    }
    if k :| k in candidates && CandidateHolds(p, a, k) {
      var i :| 0 <= i < |candidates| && candidates[i] == k;
      assert terms[i] in terms;
    }
  }

  // ----- The two compilations agree

  /** The initial and transition terms of the encoding. */
  ghost predicate RunSatisfied(codec: Codec, p: Problem, m: Model) {
    && (forall v :: v in p.variables ==> Satisfied(InitialTerm(codec, p, v), m))
    && (forall c: nat :: c <= p.horizon ==> TransitionSatisfied(codec, p, m, c))
  }

  lemma RunStep(codec: Codec, types: Signature, p: Problem, a: Assignment, m: Model, c: nat)
    requires Setting(codec, types, p, a, m) && TransitionSatisfied(codec, p, m, c) && SnapshotsAre(codec, p, a, m, c)
    ensures SnapshotsAre(codec, p, a, m, c + 1)
  {
    TransitionForcesAgreement(codec, types, p, a, m, c);
    TransitionGivesNext(codec, types, p, a, m, c);
  }

  /** The encoding determines the snapshots: they are the simulated pre-states. */
  lemma RunDeterminesSnapshots(codec: Codec, types: Signature, p: Problem, a: Assignment, m: Model, c: nat)
    requires Setting(codec, types, p, a, m) && RunSatisfied(codec, p, m) && c <= p.horizon + 1
    ensures SnapshotsAre(codec, p, a, m, c)
  {
    InitialSnapshots(codec, types, p, a, m);
    ghost var holds := (c: nat) => SnapshotsAre(codec, p, a, m, c);
    forall d: nat | d < p.horizon + 1 && holds(d) ensures holds(d + 1) { RunStep(codec, types, p, a, m, d); }
    StepByStep(holds, p.horizon + 1, c);
  }

  lemma StateTermsHold(codec: Codec, p: Problem, m: Model)
    requires AllSatisfied(StateTerms(codec, p), m)
    ensures RunSatisfied(codec, p, m)
  {
    forall v | v in p.variables ensures Satisfied(InitialTerm(codec, p, v), m) {
      assert InitialTerm(codec, p, v) in StateTerms(codec, p);
    }
    forall c: nat | c <= p.horizon ensures TransitionSatisfied(codec, p, m, c) {
      TransitionTermsHold(codec, p, m, c);
    }
  }

  lemma TransitionTermsHold(codec: Codec, p: Problem, m: Model, c: nat)
    requires AllSatisfied(StateTerms(codec, p), m) && c <= p.horizon
    ensures TransitionSatisfied(codec, p, m, c)
  {
    forall u | u in p.updates ensures Satisfied(UpdateTerm(codec, p, u, c), m) {
      assert UpdateTerm(codec, p, u, c) in StateTerms(codec, p);
    }
    forall v | v in p.variables ensures Satisfied(StutterTerm(codec, p, v.name, c), m) {
      assert StutterTerm(codec, p, v.name, c) in StateTerms(codec, p);
    }
  }

  /** The model's snapshots are the simulated run. */
  ghost predicate ShowsRun(codec: Codec, p: Problem, a: Assignment, m: Model) {
    forall c: nat :: c <= p.horizon + 1 ==> SnapshotsAre(codec, p, a, m, c)
  }

  lemma ModelShowsRun(codec: Codec, types: Signature, p: Problem, a: Assignment, m: Model)
    requires Setting(codec, types, p, a, m) && AllSatisfied(StateTerms(codec, p), m)
    ensures ShowsRun(codec, p, a, m) && forall c: nat :: c <= p.horizon ==> Agreement(p, a, c)
  {
    StateTermsHold(codec, p, m);
    forall c: nat | c <= p.horizon + 1 ensures SnapshotsAre(codec, p, a, m, c) {
      RunDeterminesSnapshots(codec, types, p, a, m, c);
    }
    forall c: nat | c <= p.horizon ensures Agreement(p, a, c) {
      TransitionForcesAgreement(codec, types, p, a, m, c);
    }
  }

  lemma EffectsAreSound(codec: Codec, types: Signature, p: Problem, a: Assignment, m: Model)
    requires Setting(codec, types, p, a, m) && AllSatisfied(StateTerms(codec, p), m) && CyclesInRange(p, a)
    requires ShowsRun(codec, p, a, m)
    ensures forall r :: r in p.requirements ==> RequirementOk(p, a, r)
    ensures forall u :: u in p.updates ==> UpdateOk(p, a, u)
  {
    forall r | r in p.requirements ensures RequirementOk(p, a, r) {
      forall c: nat | c <= p.horizon ensures Satisfied(RequirementTerm(codec, p, r, c), m) {
        assert RequirementTerm(codec, p, r, c) in StateTerms(codec, p);
      }
      RequirementDenotes(codec, types, p, a, m, r);
    }
    forall u | u in p.updates ensures UpdateOk(p, a, u) {
      var v := CellOfUpdate(codec, types, p, u);
      UpdateDenotes(codec, types, p, a, m, u, v, 0);
    }
  }

  lemma GuardedRulesAreSound(codec: Codec, types: Signature, p: Problem, a: Assignment, m: Model)
    requires Setting(codec, types, p, a, m) && AllSatisfied(StateTerms(codec, p), m) && CyclesInRange(p, a)
    requires ShowsRun(codec, p, a, m)
    ensures forall f :: f in p.forwards ==> ForwardOk(p, a, f)
    ensures forall s :: s in p.supports ==> SupportOk(p, a, s)
  {
    forall f | f in p.forwards ensures ForwardOk(p, a, f) {
      assert ForwardTerm(codec, p, f) in StateTerms(codec, p);
      ForwardDenotes(codec, types, p, a, m, f);
    }
    forall s | s in p.supports ensures SupportOk(p, a, s) {
      assert SupportTerm(codec, p, s) in StateTerms(codec, p);
      SupportDenotes(codec, types, p, a, m, s);
    }
  }

  /** A model of the encoding makes the assignment feasible, provided every active effect has a cycle in range. */
  lemma EncodingIsSound(codec: Codec, types: Signature, p: Problem, a: Assignment, m: Model)
    requires Setting(codec, types, p, a, m) && AllSatisfied(StateTerms(codec, p), m) && CyclesInRange(p, a)
    ensures Feasible(p, a) && ShowsRun(codec, p, a, m)
  {
    ModelShowsRun(codec, types, p, a, m);
    InitialSnapshots(codec, types, p, a, m);
    EffectsAreSound(codec, types, p, a, m);
    GuardedRulesAreSound(codec, types, p, a, m);
  }

  ghost function CodeOf(codec: Codec, p: Problem, a: Assignment, v: StateVariable, c: nat): SmtValue {
    if v.name in PreState(p, a, c) && HasSort(codec, v.sort, PreState(p, a, c)[v.name])
    then Encode(codec, v.sort, PreState(p, a, c)[v.name])
    else B(false)
  }

  /** The snapshots that encode the simulated run. */
  ghost function RunCodes(codec: Codec, p: Problem, a: Assignment): (cells: map<(string, nat), SmtValue>)
    requires ValidProblem(p)
    ensures forall v, c: nat :: v in p.variables && c <= p.horizon + 1 ==>
      (v.name, c) in cells && cells[(v.name, c)] == CodeOf(codec, p, a, v, c)
  {
    var keys := set v, c: nat | v in p.variables && c <= p.horizon + 1 :: (v.name, c);
    assert forall v, w :: v in p.variables && w in p.variables && v.name == w.name ==> v == w by {
      forall v, w | v in p.variables && w in p.variables && v.name == w.name ensures v == w { SameVariable(p, v, w); }
    }
    map key | key in keys :: var v :| v in p.variables && v.name == key.0; CodeOf(codec, p, a, v, key.1)
  }

  /** Every snapshot of the model is the code of the simulated value. */
  ghost predicate Coded(codec: Codec, p: Problem, a: Assignment, m: Model) {
    forall v, c: nat :: v in p.variables && c <= p.horizon + 1 ==>
      Denote(Snapshot(v.name, c), m) == CodeOf(codec, p, a, v, c)
  }

  /** The cells hold values of their sorts. */
  ghost predicate CellsSorted(codec: Codec, p: Problem, a: Assignment, c: nat) {
    forall v :: v in p.variables ==> v.name in PreState(p, a, c) && HasSort(codec, v.sort, PreState(p, a, c)[v.name])
  }

  lemma CellsStartSorted(codec: Codec, types: Signature, p: Problem, a: Assignment, m: Model)
    requires Setting(codec, types, p, a, m)
    ensures CellsSorted(codec, p, a, 0)
  {
    forall v | v in p.variables
      ensures Ev(p, a, v.initial).Known? && HasSort(codec, v.sort, Ev(p, a, v.initial).value)
    {
      TranslationAgrees(codec, types, p.events, v.initial, v.sort, a, m);
    }
    InitialCellsAre(p, a, p.variables);
  }

  /** Written values have the sort of their cell. */
  lemma WritesSorted(codec: Codec, types: Signature, p: Problem, a: Assignment, m: Model, v: StateVariable, c: nat)
    requires Setting(codec, types, p, a, m) && v in p.variables
    ensures forall x :: x in Writes(p, a, v.name, c) ==> HasSort(codec, v.sort, x)
  {
    forall u | u in p.updates && u.state == v.name
      ensures Ev(p, a, u.value).Known? && HasSort(codec, v.sort, Ev(p, a, u.value).value)
    {
      UpdateDenotes(codec, types, p, a, m, u, v, c);
    }
  }

  /** Cells hold values of their sorts in every cycle, even after conflicting writes. */
  lemma {:induction false} CellsAlwaysSorted(codec: Codec, types: Signature, p: Problem, a: Assignment, m: Model,
                                             c: nat)
    requires Setting(codec, types, p, a, m)
    ensures CellsSorted(codec, p, a, c)
  {
    if c == 0 {
      CellsStartSorted(codec, types, p, a, m);
    } else {
      CellsAlwaysSorted(codec, types, p, a, m, c - 1);
      forall v | v in p.variables
        ensures v.name in PreState(p, a, c) && HasSort(codec, v.sort, PreState(p, a, c)[v.name])
      {
        WritesSorted(codec, types, p, a, m, v, c - 1);
      }
    }
  }

  lemma RunIsSatisfied(codec: Codec, types: Signature, p: Problem, a: Assignment, m: Model)
    requires Setting(codec, types, p, a, m)
    requires forall c: nat :: c <= p.horizon + 1 ==> SnapshotsAre(codec, p, a, m, c)
    requires forall c: nat :: c <= p.horizon ==> Agreement(p, a, c)
    ensures RunSatisfied(codec, p, m)
  {
    InitialSnapshots(codec, types, p, a, m);
    forall c: nat | c <= p.horizon ensures TransitionSatisfied(codec, p, m, c) {
      assert SnapshotsAre(codec, p, a, m, c + 1);
      TransitionGivesNext(codec, types, p, a, m, c);
    }
  }

  lemma TransitionTermsOf(codec: Codec, p: Problem, m: Model)
    requires RunSatisfied(codec, p, m)
    ensures forall u, c: nat :: u in p.updates && c <= p.horizon ==> Satisfied(UpdateTerm(codec, p, u, c), m)
    ensures forall v, c: nat :: v in p.variables && c <= p.horizon ==> Satisfied(StutterTerm(codec, p, v.name, c), m)
  {
    forall u, c: nat | u in p.updates && c <= p.horizon ensures Satisfied(UpdateTerm(codec, p, u, c), m) {
      assert TransitionSatisfied(codec, p, m, c);
    }
    forall v, c: nat | v in p.variables && c <= p.horizon ensures Satisfied(StutterTerm(codec, p, v.name, c), m) {
      assert TransitionSatisfied(codec, p, m, c);
    }
  }

  lemma AssembleRunTerms(codec: Codec, p: Problem, m: Model)
    requires RunSatisfied(codec, p, m)
    ensures AllSatisfied(RunTerms(codec, p), m)
  {
    TransitionTermsOf(codec, p, m);
  }

  lemma AssembleEffectTerms(codec: Codec, p: Problem, m: Model)
    requires forall r, c: nat :: r in p.requirements && c <= p.horizon ==> Satisfied(RequirementTerm(codec, p, r, c), m)
    requires forall f :: f in p.forwards ==> Satisfied(ForwardTerm(codec, p, f), m)
    requires forall s :: s in p.supports ==> Satisfied(SupportTerm(codec, p, s), m)
    ensures AllSatisfied(EffectTerms(codec, p), m)
  {
  }

  /** A feasible assignment has a model of the encoding: the snapshots of its run. */
  lemma EncodingIsComplete(codec: Codec, types: Signature, p: Problem, a: Assignment, m: Model)
    requires Setting(codec, types, p, a, m) && Coded(codec, p, a, m) && Feasible(p, a)
    ensures AllSatisfied(StateTerms(codec, p), m)
  {
    forall c: nat | c <= p.horizon + 1 ensures SnapshotsAre(codec, p, a, m, c) {
      CellsAlwaysSorted(codec, types, p, a, m, c);
    }
    RunIsSatisfied(codec, types, p, a, m);
    forall r, c: nat | r in p.requirements && c <= p.horizon ensures Satisfied(RequirementTerm(codec, p, r, c), m) {
      assert RequirementOk(p, a, r);
      RequirementDenotes(codec, types, p, a, m, r);
    }
    forall f | f in p.forwards ensures Satisfied(ForwardTerm(codec, p, f), m) {
      assert ForwardOk(p, a, f);
      ForwardDenotes(codec, types, p, a, m, f);
    }
    forall s | s in p.supports ensures Satisfied(SupportTerm(codec, p, s), m) {
      assert SupportOk(p, a, s);
      SupportDenotes(codec, types, p, a, m, s);
    }
    AssembleRunTerms(codec, p, m);
    AssembleEffectTerms(codec, p, m);
  }

  /** Snapshots that satisfy the encoding exist exactly for the feasible assignments, and they are the simulated run. */
  lemma SimulatorEqualsEncoding(codec: Codec, types: Signature, p: Problem, a: Assignment, vars: map<string, SmtValue>)
    requires Setting(codec, types, p, a, Model(vars, map[])) && CyclesInRange(p, a)
    ensures Feasible(p, a) <==> exists cells :: AllSatisfied(StateTerms(codec, p), Model(vars, cells))
    ensures forall cells :: AllSatisfied(StateTerms(codec, p), Model(vars, cells)) ==>
      ShowsRun(codec, p, a, Model(vars, cells))
  {
    if Feasible(p, a) { RunSatisfiesEncoding(codec, types, p, a, vars); }
    forall cells | AllSatisfied(StateTerms(codec, p), Model(vars, cells))
      ensures Feasible(p, a) && ShowsRun(codec, p, a, Model(vars, cells))
    {
      EncodingIsSound(codec, types, p, a, Model(vars, cells));
    }
  }

  lemma RunSatisfiesEncoding(codec: Codec, types: Signature, p: Problem, a: Assignment, vars: map<string, SmtValue>)
    requires Setting(codec, types, p, a, Model(vars, map[])) && Feasible(p, a)
    ensures AllSatisfied(StateTerms(codec, p), Model(vars, RunCodes(codec, p, a)))
  {
    var m := Model(vars, RunCodes(codec, p, a));
    assert Coded(codec, p, a, m);
    EncodingIsComplete(codec, types, p, a, m);
  }
}
