/** The second compilation of operational state: a transition relation over pre-state snapshots, as SMT terms. */
module StateEncoding {
  import opened Common
  import opened Expressions
  import opened Evaluator
  import opened Problems
  import opened State
  import opened Smt

  // ----- Terms

  /** The term of an expression that translates. */
  function T(codec: Codec, p: Problem, e: Expr): Term {
    var t := Translate(codec, p.events, e);
    if t.Ok? then t.value else Constant(B(false))
  }

  predicate Translates(codec: Codec, p: Problem, e: Expr) {
    Translate(codec, p.events, e).Ok?
  }

  function EqualTerm(t: Term, u: Term): Term { App(OpEq, [t, u]) }

  function CycleIs(codec: Codec, p: Problem, cycle: Expr, c: nat): Term {
    EqualTerm(T(codec, p, cycle), Constant(I(c)))
  }

  function CompareTerm(op: BinaryOp, actual: Term, expected: Term): Term {
    App(BinarySmtOp(op), [actual, expected])
  }

  function InitialTerm(codec: Codec, p: Problem, v: StateVariable): Term {
    EqualTerm(Snapshot(v.name, 0), T(codec, p, v.initial))
  }

  /** An active requirement compares the snapshot of its cycle. */
  function RequirementTerm(codec: Codec, p: Problem, r: Requirement, c: nat): Term {
    App(OpImplies, [App(OpAnd, [T(codec, p, r.activation), CycleIs(codec, p, r.cycle, c)]),
                    CompareTerm(r.op, Snapshot(r.state, c), T(codec, p, r.expected))])
  }

  function PredicateCase(codec: Codec, p: Problem, g: GuardPredicate, c: nat): Term {
    App(OpAnd, [CycleIs(codec, p, g.cycle, c), CompareTerm(g.op, Snapshot(g.state, c), T(codec, p, g.expected))])
  }

  /** A guard whose cycle is symbolic: one case for each cycle. */
  function PredicateTerm(codec: Codec, p: Problem, g: GuardPredicate): Term {
    App(OpOr, seq(p.horizon + 1, c requires 0 <= c => PredicateCase(codec, p, g, c)))
  }

  function PredicateTerms(codec: Codec, p: Problem, predicates: seq<GuardPredicate>): (ts: seq<Term>)
    ensures |ts| == |predicates| && forall i :: 0 <= i < |ts| ==> ts[i] == PredicateTerm(codec, p, predicates[i])
  {
    seq(|predicates|, i requires 0 <= i < |predicates| => PredicateTerm(codec, p, predicates[i]))
  }

  function GuardedTerm(codec: Codec, p: Problem, e: Expr, predicates: seq<GuardPredicate>): Term {
    if predicates == [] then T(codec, p, e)
    else App(OpAnd, [T(codec, p, e)] + PredicateTerms(codec, p, predicates))
  }

  function ForwardTerm(codec: Codec, p: Problem, f: GuardedForward): Term {
    App(OpImplies, [GuardedTerm(codec, p, f.antecedent, f.predicates), T(codec, p, f.consequent)])
  }

  function AnyTerm(ts: seq<Term>): Term {
    if ts == [] then Constant(B(false)) else if |ts| == 1 then ts[0] else App(OpOr, ts)
  }

  function CandidateTerms(codec: Codec, p: Problem, candidates: seq<SupportCandidate>): (ts: seq<Term>)
    ensures |ts| == |candidates|
    ensures forall i :: 0 <= i < |ts| ==>
      ts[i] == GuardedTerm(codec, p, candidates[i].expression, candidates[i].predicates)
  {
    seq(|candidates|, i requires 0 <= i < |candidates| =>
      GuardedTerm(codec, p, candidates[i].expression, candidates[i].predicates))
  }

  function SupportTerm(codec: Codec, p: Problem, s: GuardedSupport): Term {
    App(OpImplies, [T(codec, p, s.antecedent), AnyTerm(CandidateTerms(codec, p, s.supports))])
  }

  function ActiveTerm(codec: Codec, p: Problem, u: Update, c: nat): Term {
    App(OpAnd, [T(codec, p, u.activation), CycleIs(codec, p, u.cycle, c)])
  }

  /** An active update fixes the next snapshot. */
  function UpdateTerm(codec: Codec, p: Problem, u: Update, c: nat): Term {
    App(OpImplies, [ActiveTerm(codec, p, u, c), EqualTerm(Snapshot(u.state, c + 1), T(codec, p, u.value))])
  }

  function UpdatesOf(updates: seq<Update>, state: string): (found: seq<Update>)
    ensures forall u :: u in found <==> u in updates && u.state == state
  {
    if updates == [] then []
    else (if updates[0].state == state then [updates[0]] else []) + UpdatesOf(updates[1..], state)
  }

  function ActiveTerms(codec: Codec, p: Problem, updates: seq<Update>, c: nat): (ts: seq<Term>)
    ensures |ts| == |updates| && forall i :: 0 <= i < |ts| ==> ts[i] == ActiveTerm(codec, p, updates[i], c)
  {
    seq(|updates|, i requires 0 <= i < |updates| => ActiveTerm(codec, p, updates[i], c))
  }

  /** Without an active update the cell keeps its snapshot. */
  function StutterTerm(codec: Codec, p: Problem, state: string, c: nat): Term {
    var active := ActiveTerms(codec, p, UpdatesOf(p.updates, state), c);
    var keeps := EqualTerm(Snapshot(state, c + 1), Snapshot(state, c));
    if active == [] then keeps else App(OpImplies, [App(OpNot, [AnyTerm(active)]), keeps])
  }

  /** What fixes the snapshots: initial values, updates and stuttering. */
  ghost function RunTerms(codec: Codec, p: Problem): set<Term> {
    (set v | v in p.variables :: InitialTerm(codec, p, v))
    + (set u, c: nat | u in p.updates && c <= p.horizon :: UpdateTerm(codec, p, u, c))
    + (set v, c: nat | v in p.variables && c <= p.horizon :: StutterTerm(codec, p, v.name, c))
  }

  /** What observes the snapshots. */
  ghost function EffectTerms(codec: Codec, p: Problem): set<Term> {
    (set r, c: nat | r in p.requirements && c <= p.horizon :: RequirementTerm(codec, p, r, c))
    + (set f | f in p.forwards :: ForwardTerm(codec, p, f))
    + (set s | s in p.supports :: SupportTerm(codec, p, s))
  }

  /** The assertions of the encoding. */
  ghost function StateTerms(codec: Codec, p: Problem): set<Term> {
    RunTerms(codec, p) + EffectTerms(codec, p)
  }

  ghost predicate AllSatisfied(ts: set<Term>, m: Model) {
    forall t :: t in ts ==> Satisfied(t, m)
  }

  // ----- Well-sorted problems

  /** The cell is declared with sort `s`; cells that are compared by order hold integers. */
  ghost predicate CellSort(p: Problem, state: string, s: Sort) {
    exists v :: v in p.variables && v.name == state && v.sort == s
  }

  ghost predicate ComparisonSorted(codec: Codec, types: Signature, p: Problem, state: string, cycle: Expr, op: BinaryOp,
                                   expected: Expr) {
    && IsComparison(op)
    && WellSorted(codec, types, p.events, cycle, IntSort)
    && exists s :: CellSort(p, state, s) && WellSorted(codec, types, p.events, expected, s)
        && (op in {Eq, Ne} || s == IntSort)
  }

  ghost predicate PredicatesSorted(codec: Codec, types: Signature, p: Problem, predicates: seq<GuardPredicate>) {
    forall g :: g in predicates ==> ComparisonSorted(codec, types, p, g.state, g.cycle, g.op, g.expected)
  }

  ghost predicate UpdateSorted(codec: Codec, types: Signature, p: Problem, u: Update) {
    && WellSorted(codec, types, p.events, u.activation, BoolSort)
    && WellSorted(codec, types, p.events, u.cycle, IntSort)
    && exists s :: CellSort(p, u.state, s) && WellSorted(codec, types, p.events, u.value, s)
  }

  ghost predicate WellSortedState(codec: Codec, types: Signature, p: Problem) {
    && ValidProblem(p)
    && (forall v :: v in p.variables ==> WellSorted(codec, types, p.events, v.initial, v.sort))
    && (forall r :: r in p.requirements ==>
          WellSorted(codec, types, p.events, r.activation, BoolSort)
          && ComparisonSorted(codec, types, p, r.state, r.cycle, r.op, r.expected))
    && (forall u :: u in p.updates ==> UpdateSorted(codec, types, p, u))
    && (forall f :: f in p.forwards ==>
          WellSorted(codec, types, p.events, f.antecedent, BoolSort)
          && WellSorted(codec, types, p.events, f.consequent, BoolSort)
          && PredicatesSorted(codec, types, p, f.predicates))
    && (forall s :: s in p.supports ==>
          WellSorted(codec, types, p.events, s.antecedent, BoolSort)
          && forall k :: k in s.supports ==>
               WellSorted(codec, types, p.events, k.expression, BoolSort)
                   && PredicatesSorted(codec, types, p, k.predicates))
  }

  // ----- Denotations of the term shapes

  lemma ImpliesDenotes(t: Term, u: Term, m: Model)
    ensures Satisfied(App(OpImplies, [t, u]), m) <==> (AsBool(Denote(t, m)) ==> AsBool(Denote(u, m)))
  {
    DenoteTwo(t, u, m);
  }

  lemma AndDenotes(t: Term, u: Term, m: Model)
    ensures Denote(App(OpAnd, [t, u]), m) == B(AsBool(Denote(t, m)) && AsBool(Denote(u, m)))
  {
    DenoteTwo(t, u, m);
    var vs := [Denote(t, m), Denote(u, m)];
    assert vs[0] in vs && vs[1] in vs && forall v :: v in vs <==> v == vs[0] || v == vs[1];
  }

  lemma EqualDenotes(t: Term, u: Term, m: Model)
    ensures Denote(EqualTerm(t, u), m) == B(Denote(t, m) == Denote(u, m))
  {
    DenoteTwo(t, u, m);
    var vs := [Denote(t, m), Denote(u, m)];
    assert (forall i | 0 <= i < |vs| - 1 :: vs[i] == vs[i + 1]) <==> vs[0] == vs[1];
  }

  lemma MembersDenote(ts: seq<Term>, m: Model)
    ensures forall v :: v in DenoteAll(ts, m) <==> exists t :: t in ts && Denote(t, m) == v
  {
    var vs := DenoteAll(ts, m);
    forall i | 0 <= i < |ts| ensures vs[i] == Denote(ts[i], m) { DenoteAllAt(ts, m, i); }
    forall v ensures v in vs <==> exists t :: t in ts && Denote(t, m) == v {
      if t :| t in ts && Denote(t, m) == v {
        var i :| 0 <= i < |ts| && ts[i] == t;
        assert vs[i] == v;
      }
      if v in vs {
        var i :| 0 <= i < |vs| && vs[i] == v;
        assert ts[i] in ts;
      }
    }
  }

  lemma OrDenotes(ts: seq<Term>, m: Model)
    ensures Denote(App(OpOr, ts), m) == B(exists t :: t in ts && AsBool(Denote(t, m)))
  {
    MembersDenote(ts, m);
    if t :| t in ts && AsBool(Denote(t, m)) { assert Denote(t, m) in DenoteAll(ts, m); }
  }

  lemma AnyDenotes(ts: seq<Term>, m: Model)
    ensures AsBool(Denote(AnyTerm(ts), m)) <==> exists t :: t in ts && AsBool(Denote(t, m))
  {
    if |ts| == 1 { assert ts[0] in ts; } else if |ts| > 1 { OrDenotes(ts, m); }
  }

  lemma AndAllDenotes(ts: seq<Term>, m: Model)
    ensures Denote(App(OpAnd, ts), m) == B(forall t :: t in ts ==> AsBool(Denote(t, m)))
  {
    MembersDenote(ts, m);
    forall t | t in ts ensures Denote(t, m) in DenoteAll(ts, m) {
    }
  }
}
