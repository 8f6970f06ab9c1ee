/** The loops that append the assertions of the state encoding, proved to build exactly the encoding. */
module StateConstraints {
  import opened Common
  import opened Expressions
  import opened Problems
  import opened Smt
  import opened StateEncoding

  // ----- When the compilation raises

  predicate PredicateTranslates(codec: Codec, p: Problem, g: GuardPredicate) {
    Translates(codec, p, g.cycle) && Translates(codec, p, g.expected)
  }

  ghost predicate GuardedTranslates(codec: Codec, p: Problem, e: Expr, predicates: seq<GuardPredicate>) {
    Translates(codec, p, e) && forall g :: g in predicates ==> PredicateTranslates(codec, p, g)
  }

  predicate RequirementTranslates(codec: Codec, p: Problem, r: Requirement) {
    Translates(codec, p, r.activation) && Translates(codec, p, r.cycle) && Translates(codec, p, r.expected)
  }

  predicate UpdateTranslates(codec: Codec, p: Problem, u: Update) {
    Translates(codec, p, u.activation) && Translates(codec, p, u.cycle) && Translates(codec, p, u.value)
  }

  ghost predicate ForwardTranslates(codec: Codec, p: Problem, f: GuardedForward) {
    GuardedTranslates(codec, p, f.antecedent, f.predicates) && Translates(codec, p, f.consequent)
  }

  ghost predicate SupportTranslates(codec: Codec, p: Problem, s: GuardedSupport) {
    Translates(codec, p, s.antecedent)
    && forall k :: k in s.supports ==> GuardedTranslates(codec, p, k.expression, k.predicates)
  }

  /** Every expression of the state semantics has a translation. */
  ghost predicate StateTranslates(codec: Codec, p: Problem) {
    && (forall v :: v in p.variables ==> Translates(codec, p, v.initial))
    && (forall r :: r in p.requirements ==> RequirementTranslates(codec, p, r))
    && (forall f :: f in p.forwards ==> ForwardTranslates(codec, p, f))
    && (forall s :: s in p.supports ==> SupportTranslates(codec, p, s))
    && (forall u :: u in p.updates ==> UpdateTranslates(codec, p, u))
  }

  // ----- Guards

  method StatePredicate(codec: Codec, p: Problem, g: GuardPredicate) returns (t: Result<Term>)
    ensures t == if PredicateTranslates(codec, p, g) then Ok(PredicateTerm(codec, p, g)) else Err
  {
    if !PredicateTranslates(codec, p, g) { return Err; }
    var cases := [];
    for cycle := 0 to p.horizon + 1
      invariant |cases| == cycle && forall c :: 0 <= c < cycle ==> cases[c] == PredicateCase(codec, p, g, c)
    {
      cases := cases + [PredicateCase(codec, p, g, cycle)];
    }
    assert cases == seq(p.horizon + 1, c requires 0 <= c => PredicateCase(codec, p, g, c));
    t := Ok(App(OpOr, cases));
  }

  /** An expression and its guards, as one term. */
  method Guarded(codec: Codec, p: Problem, e: Expr, predicates: seq<GuardPredicate>) returns (t: Result<Term>)
    ensures t.Ok? <==> GuardedTranslates(codec, p, e, predicates)
    ensures t.Ok? ==> t.value == GuardedTerm(codec, p, e, predicates)
  {
    if !Translates(codec, p, e) { return Err; }
    var guards := [];
    for i := 0 to |predicates|
      invariant |guards| == i && forall j :: 0 <= j < i ==> guards[j] == PredicateTerm(codec, p, predicates[j])
      invariant forall j :: 0 <= j < i ==> PredicateTranslates(codec, p, predicates[j])
    {
      var guard := StatePredicate(codec, p, predicates[i]);
      if guard.Err? { return Err; }
      guards := guards + [guard.value];
    }
    assert guards == PredicateTerms(codec, p, predicates);
    t := Ok(if guards == [] then T(codec, p, e) else App(OpAnd, [T(codec, p, e)] + guards));
  }

  // ----- The groups of assertions

  method InitialLines(codec: Codec, p: Problem) returns (lines: Result<seq<Term>>)
    ensures lines.Ok? <==> forall v :: v in p.variables ==> Translates(codec, p, v.initial)
    ensures lines.Ok? ==> Elements(lines.value) == set v | v in p.variables :: InitialTerm(codec, p, v)
  {
    var out := [];
    for i := 0 to |p.variables|
      invariant forall v :: v in Elements(p.variables[..i]) ==> Translates(codec, p, v.initial)
      invariant Elements(out) == set v | v in Elements(p.variables[..i]) :: InitialTerm(codec, p, v)
    {
      PrefixElements(p.variables, i);
      if !Translates(codec, p, p.variables[i].initial) { return Err; }
      AppendOne(out, InitialTerm(codec, p, p.variables[i]));
      out := out + [InitialTerm(codec, p, p.variables[i])];
    }
    WholePrefix(p.variables);
    assert forall v :: v in p.variables <==> v in Elements(p.variables);
    lines := Ok(out);
  }

  method RequirementCases(codec: Codec, p: Problem, r: Requirement) returns (lines: seq<Term>)
    ensures Elements(lines) == set c: nat | c <= p.horizon :: RequirementTerm(codec, p, r, c)
  {
    lines := [];
    for cycle := 0 to p.horizon + 1
      invariant Elements(lines) == set c: nat | c < cycle :: RequirementTerm(codec, p, r, c)
    {
      AppendOne(lines, RequirementTerm(codec, p, r, cycle));
      lines := lines + [RequirementTerm(codec, p, r, cycle)];
    }
  }

  method RequirementLines(codec: Codec, p: Problem) returns (lines: Result<seq<Term>>)
    ensures lines.Ok? <==> forall r :: r in p.requirements ==> RequirementTranslates(codec, p, r)
    ensures lines.Ok? ==>
      Elements(lines.value) == set r, c: nat | r in p.requirements && c <= p.horizon :: RequirementTerm(codec, p, r, c)
  {
    var out := [];
    for i := 0 to |p.requirements|
      invariant forall r :: r in Elements(p.requirements[..i]) ==> RequirementTranslates(codec, p, r)
      invariant Elements(out) ==
                set r, c: nat | r in Elements(p.requirements[..i]) && c <= p.horizon :: RequirementTerm(codec, p, r, c)
    {
      PrefixElements(p.requirements, i);
      if !RequirementTranslates(codec, p, p.requirements[i]) { return Err; }
      var cases := RequirementCases(codec, p, p.requirements[i]);
      AppendAll(out, cases);
      out := out + cases;
    }
    WholePrefix(p.requirements);
    assert forall r :: r in p.requirements <==> r in Elements(p.requirements);
    lines := Ok(out);
  }

  method ForwardLines(codec: Codec, p: Problem) returns (lines: Result<seq<Term>>)
    ensures lines.Ok? <==> forall f :: f in p.forwards ==> ForwardTranslates(codec, p, f)
    ensures lines.Ok? ==> Elements(lines.value) == set f | f in p.forwards :: ForwardTerm(codec, p, f)
  {
    var out := [];
    for i := 0 to |p.forwards|
      invariant forall f :: f in Elements(p.forwards[..i]) ==> ForwardTranslates(codec, p, f)
      invariant Elements(out) == set f | f in Elements(p.forwards[..i]) :: ForwardTerm(codec, p, f)
    {
      PrefixElements(p.forwards, i);
      var f := p.forwards[i];
      var enabled := Guarded(codec, p, f.antecedent, f.predicates);
      if enabled.Err? || !Translates(codec, p, f.consequent) { return Err; }
      var line := App(OpImplies, [enabled.value, T(codec, p, f.consequent)]);
      assert line == ForwardTerm(codec, p, f);
      AppendOne(out, line);
      out := out + [line];
    }
    WholePrefix(p.forwards);
    assert forall f :: f in p.forwards <==> f in Elements(p.forwards);
    lines := Ok(out);
  }

  method SupportLine(codec: Codec, p: Problem, s: GuardedSupport) returns (line: Result<Term>)
    ensures line.Ok? <==> SupportTranslates(codec, p, s)
    ensures line.Ok? ==> line.value == SupportTerm(codec, p, s)
  {
    if !Translates(codec, p, s.antecedent) { return Err; }
    var candidates := [];
    for i := 0 to |s.supports|
      invariant |candidates| == i
      invariant forall j :: 0 <= j < i ==>
        GuardedTranslates(codec, p, s.supports[j].expression, s.supports[j].predicates)
      invariant forall j :: 0 <= j < i ==>
        candidates[j] == GuardedTerm(codec, p, s.supports[j].expression, s.supports[j].predicates)
    {
      var candidate := Guarded(codec, p, s.supports[i].expression, s.supports[i].predicates);
      if candidate.Err? { return Err; }
      candidates := candidates + [candidate.value];
    }
    assert candidates == CandidateTerms(codec, p, s.supports);
    line := Ok(App(OpImplies, [T(codec, p, s.antecedent), AnyTerm(candidates)]));
  }

  method SupportLines(codec: Codec, p: Problem) returns (lines: Result<seq<Term>>)
    ensures lines.Ok? <==> forall s :: s in p.supports ==> SupportTranslates(codec, p, s)
    ensures lines.Ok? ==> Elements(lines.value) == set s | s in p.supports :: SupportTerm(codec, p, s)
  {
    var out := [];
    for i := 0 to |p.supports|
      invariant forall s :: s in Elements(p.supports[..i]) ==> SupportTranslates(codec, p, s)
      invariant Elements(out) == set s | s in Elements(p.supports[..i]) :: SupportTerm(codec, p, s)
    {
      PrefixElements(p.supports, i);
      var line := SupportLine(codec, p, p.supports[i]);
      if line.Err? { return Err; }
      AppendOne(out, line.value);
      out := out + [line.value];
    }
    WholePrefix(p.supports);
    assert forall s :: s in p.supports <==> s in Elements(p.supports);
    lines := Ok(out);
  }

  // ----- Transitions

  method UpdateLines(codec: Codec, p: Problem, updates: seq<Update>, cycle: nat)
    returns (lines: Result<seq<Term>>, active: seq<Term>)
    ensures lines.Ok? <==> forall u :: u in updates ==> UpdateTranslates(codec, p, u)
    ensures lines.Ok? ==> Elements(lines.value) == set u | u in updates :: UpdateTerm(codec, p, u, cycle)
    ensures lines.Ok? ==> active == ActiveTerms(codec, p, updates, cycle)
  {
    var out := [];
    active := [];
    for i := 0 to |updates|
      invariant forall u :: u in Elements(updates[..i]) ==> UpdateTranslates(codec, p, u)
      invariant |active| == i && forall j :: 0 <= j < i ==> active[j] == ActiveTerm(codec, p, updates[j], cycle)
      invariant Elements(out) == set u | u in Elements(updates[..i]) :: UpdateTerm(codec, p, u, cycle)
    {
      PrefixElements(updates, i);
      if !UpdateTranslates(codec, p, updates[i]) { return Err, active; }
      active := active + [ActiveTerm(codec, p, updates[i], cycle)];
      AppendOne(out, UpdateTerm(codec, p, updates[i], cycle));
      out := out + [UpdateTerm(codec, p, updates[i], cycle)];
    }
    WholePrefix(updates);
    assert forall u :: u in updates <==> u in Elements(updates);
    assert active == ActiveTerms(codec, p, updates, cycle);
    lines := Ok(out);
  }

  /** The assertions that fix one cell after one cycle. */
  method CellStep(codec: Codec, p: Problem, state: string, updates: seq<Update>, cycle: nat)
    returns (lines: Result<seq<Term>>)
    requires updates == UpdatesOf(p.updates, state)
    ensures lines.Ok? <==> forall u :: u in updates ==> UpdateTranslates(codec, p, u)
    ensures lines.Ok? ==>
      Elements(lines.value)
        == (set u | u in updates :: UpdateTerm(codec, p, u, cycle)) + {StutterTerm(codec, p, state, cycle)}
  {
    var out, active := UpdateLines(codec, p, updates, cycle);
    if out.Err? { return Err; }
    var keeps := EqualTerm(Snapshot(state, cycle + 1), Snapshot(state, cycle));
    var stutter := if active == [] then keeps else App(OpImplies, [App(OpNot, [AnyTerm(active)]), keeps]);
    assert stutter == StutterTerm(codec, p, state, cycle);
    AppendOne(out.value, stutter);
    lines := Ok(out.value + [stutter]);
  }

  /** The transition assertions of one cell. */
  ghost function CellTerms(codec: Codec, p: Problem, state: string, cycles: nat): set<Term> {
    (set u, c: nat | u in UpdatesOf(p.updates, state) && c < cycles :: UpdateTerm(codec, p, u, c))
    + (set c: nat | c < cycles :: StutterTerm(codec, p, state, c))
  }

  lemma CellTermsGrow(codec: Codec, p: Problem, state: string, cycle: nat)
    ensures CellTerms(codec, p, state, cycle + 1)
         == CellTerms(codec, p, state, cycle)
           + (set u | u in UpdatesOf(p.updates, state) :: UpdateTerm(codec, p, u, cycle))
            + {StutterTerm(codec, p, state, cycle)}
  {
  }

  method CellLines(codec: Codec, p: Problem, state: string) returns (lines: Result<seq<Term>>)
    ensures lines.Ok? <==> forall u :: u in UpdatesOf(p.updates, state) ==> UpdateTranslates(codec, p, u)
    ensures lines.Ok? ==> Elements(lines.value) == CellTerms(codec, p, state, p.horizon + 1)
  {
    var updates := UpdatesOf(p.updates, state);
    var out := [];
    for cycle := 0 to p.horizon + 1
      invariant cycle > 0 ==> forall u :: u in updates ==> UpdateTranslates(codec, p, u)
      invariant Elements(out) == CellTerms(codec, p, state, cycle)
    {
      var step := CellStep(codec, p, state, updates, cycle);
      if step.Err? { return Err; }
      CellTermsGrow(codec, p, state, cycle);
      AppendAll(out, step.value);
      out := out + step.value;
    }
    lines := Ok(out);
  }

  method TransitionLines(codec: Codec, p: Problem) returns (lines: Result<seq<Term>>)
    ensures lines.Ok? <==>
            forall v, u :: v in p.variables && u in UpdatesOf(p.updates, v.name) ==> UpdateTranslates(codec, p, u)
    ensures lines.Ok? ==>
      forall t :: t in Elements(lines.value) <==>
        exists v :: v in p.variables && t in CellTerms(codec, p, v.name, p.horizon + 1)
  {
    var out := [];
    for i := 0 to |p.variables|
      invariant forall v, u :: v in Elements(p.variables[..i]) && u in UpdatesOf(p.updates, v.name) ==>
        UpdateTranslates(codec, p, u)
      invariant forall t :: t in Elements(out) <==>
        exists v :: v in Elements(p.variables[..i]) && t in CellTerms(codec, p, v.name, p.horizon + 1)
    {
      PrefixElements(p.variables, i);
      var cell := CellLines(codec, p, p.variables[i].name);
      if cell.Err? { return Err; }
      AppendAll(out, cell.value);
      out := out + cell.value;
    }
    WholePrefix(p.variables);
    assert forall v :: v in p.variables <==> v in Elements(p.variables);
    lines := Ok(out);
  }

  /** Every update belongs to the cell it names, so the transition assertions cover all updates. */
  lemma TransitionsCoverUpdates(codec: Codec, p: Problem, t: Term)
    requires ValidProblem(p)
    ensures (exists v :: v in p.variables && t in CellTerms(codec, p, v.name, p.horizon + 1))
       <==> t in (set u, c: nat | u in p.updates && c <= p.horizon :: UpdateTerm(codec, p, u, c))
                 + (set v, c: nat | v in p.variables && c <= p.horizon :: StutterTerm(codec, p, v.name, c))
  {
    if u, c: nat :| u in p.updates && c <= p.horizon && t == UpdateTerm(codec, p, u, c) {
      var v :| v in p.variables && v.name == u.state;
      assert u in UpdatesOf(p.updates, v.name);
      assert t in CellTerms(codec, p, v.name, p.horizon + 1);
    }
  }

  /** The compiled assertions are exactly the encoding; without state variables there are none. */
  method Compile(codec: Codec, p: Problem) returns (lines: Result<seq<Term>>)
    requires ValidProblem(p)
    ensures p.variables == [] ==> lines == Ok([])
    ensures p.variables != [] ==> (lines.Ok? <==> StateTranslates(codec, p))
    ensures p.variables != [] && lines.Ok? ==> Elements(lines.value) == StateTerms(codec, p)
  {
    if p.variables == [] { return Ok([]); }
    var initial := InitialLines(codec, p);
    if initial.Err? { return Err; }
    var requirements := RequirementLines(codec, p);
    if requirements.Err? { return Err; }
    var forwards := ForwardLines(codec, p);
    if forwards.Err? { return Err; }
    var supports := SupportLines(codec, p);
    if supports.Err? { return Err; }
    var transitions := TransitionLines(codec, p);
    forall u | u in p.updates ensures exists v :: v in p.variables && u in UpdatesOf(p.updates, v.name) {
      var v :| v in p.variables && v.name == u.state;
    }
    if transitions.Err? { return Err; }
    forall t ensures t in Elements(transitions.value) <==>
      t in (set u, c: nat | u in p.updates && c <= p.horizon :: UpdateTerm(codec, p, u, c))
           + (set v, c: nat | v in p.variables && c <= p.horizon :: StutterTerm(codec, p, v.name, c))
    {
      TransitionsCoverUpdates(codec, p, t);
    }
    AppendAll(initial.value, requirements.value);
    AppendAll(initial.value + requirements.value, forwards.value);
    AppendAll(initial.value + requirements.value + forwards.value, supports.value);
    AppendAll(initial.value + requirements.value + forwards.value + supports.value, transitions.value);
    lines := Ok(initial.value + requirements.value + forwards.value + supports.value + transitions.value);
  }
}
