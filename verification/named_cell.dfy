/** A built problem with a feasible run whose report raises, because a guard compares a name with a number. */
module NamedCell {
  import opened Common
  import opened Enumeration
  import opened Expressions
  import opened Evaluator
  import opened Problems
  import opened Rules
  import opened State
  import opened RuleCompiler
  import opened RuleMeaning
  import opened ProblemTheory
  import opened Completion

  const TAG := NamedSort("tag")

  /** A request and its acknowledgement, both in cycle 0. */
  const REQUEST := NamedEvent("i", Event("Ask", Concrete(TRUE), Concrete(Int(0)), map[]))
  const REPLY := NamedEvent("o", Event("Ack", Concrete(TRUE), Concrete(Int(0)), map[]))

  const UNIVERSE := [REQUEST, REPLY]

  /** A request is acknowledged when the cell holds the number zero. */
  const ANSWER :=
    Rule([Role("ask", "Ask")], [Role("ack", "Ack")], Literal(TRUE, BoolSort), Literal(TRUE, BoolSort), [],
         [RuleRequirement("cell", "ask", Eq, Literal(Int(0), TAG))], [], false, true)

  const FORWARD := ForwardGuarded(ANSWER, ["i"], [["o"]])

  const FIRING := FiringOf(ANSWER, ["i"], ["o"])

  const COMPILED := Instantiation([], [], [], [FORWARD], [], [FIRING])

  /** The cell holds a name. */
  const NAMED := Problem(EventMap(UNIVERSE), [CycleBound("i", 0), CycleBound("o", 0)], 0,
                         [StateVariable("cell", TAG, Literal(Text("idle"), TAG))], [], [], [FORWARD], [])

  // ----- The problem is built from the rule

  lemma EventsOfType(t: string)
    ensures EventMap(UNIVERSE) == map["i" := REQUEST.event, "o" := REPLY.event]
    ensures IdsOfType(UNIVERSE, t) == if t == "Ask" then ["i"] else if t == "Ack" then ["o"] else []
  {
    assert UNIVERSE[..1] == [REQUEST] && [REQUEST][..0] == [];
    assert EventMap([REQUEST]) == map["i" := REQUEST.event];
    assert IdsOfType([REQUEST], t) == if t == "Ask" then ["i"] else [];
  }

  lemma OneTuple(role: Role, id: Id)
    requires IdsOfType(UNIVERSE, role.eventType) == [id]
    ensures Tuples([role], UNIVERSE, [[id]])
  {
    forall t ensures t in [[id]] <==> IsTuple([role], UNIVERSE, t) {
      if |t| == 1 { assert t == [t[0]]; }
    }
  }

  lemma AnswerIsValid()
    ensures ValidRule(ANSWER)
  {
    assert Names(ANSWER.inputs + ANSWER.outputs) == ["ask", "ack"];
  }

  lemma OnlyFiring()
    ensures Firings(ANSWER, [["i"]], [["o"]]) == {FIRING}
  {
    assert ["i"] + ["o"] == ["i", "o"];
  }

  lemma OnlyTuples()
    ensures Tuples(ANSWER.inputs, UNIVERSE, [["i"]]) && Tuples(ANSWER.outputs, UNIVERSE, [["o"]])
  {
    EventsOfType("Ask");
    EventsOfType("Ack");
    OneTuple(ANSWER.inputs[0], "i");
    OneTuple(ANSWER.outputs[0], "o");
    assert ANSWER.inputs == [ANSWER.inputs[0]] && ANSWER.outputs == [ANSWER.outputs[0]];
  }

  lemma OnlyForward()
    ensures InputAnchored(ANSWER)
    ensures (set i | i in [["i"]] && NoDup(i) :: ForwardGuarded(ANSWER, i, [["o"]])) == {FORWARD}
  {
    assert Names(ANSWER.inputs)[0] == "ask";
  }

  lemma AnswerIsCompiled()
    ensures RuleCompiled(ANSWER, UNIVERSE, COMPILED)
  {
    OnlyTuples();
    OnlyFiring();
    OnlyForward();
    PartsAreExact();
  }

  lemma PartsAreExact()
    requires Firings(ANSWER, [["i"]], [["o"]]) == {FIRING} && InputAnchored(ANSWER)
    requires (set i | i in [["i"]] && NoDup(i) :: ForwardGuarded(ANSWER, i, [["o"]])) == {FORWARD}
    ensures Compiled(ANSWER, [["i"]], [["o"]], COMPILED)
  {
    assert Elements([FORWARD]) == {FORWARD} && Elements([FIRING]) == {FIRING};
  }

  lemma NamedIsBuilt()
    ensures Built(NAMED, UNIVERSE, {}, [ANSWER], [COMPILED])
  {
    AnswerIsCompiled();
    assert [COMPILED][..0] == [];
    assert Bounds(UNIVERSE, 0) == {CycleBound("i", 0), CycleBound("o", 0)} by {
      assert REQUEST in UNIVERSE && REPLY in UNIVERSE;
      assert forall e :: e in UNIVERSE <==> e == REQUEST || e == REPLY;
    }
    assert Elements(NAMED.constraints) == {CycleBound("i", 0), CycleBound("o", 0)};
  }

  // ----- Its guard in the run and in the report

  lemma Guards()
    ensures FIRING.predicates == FORWARD.predicates
    ensures FORWARD.predicates == [GuardPredicate("cell", CycleField("i"), Eq, Literal(Int(0), TAG))]
  {
    assert Names(ANSWER.inputs) == ["ask"] && Names(ANSWER.outputs) == ["ack"];
    assert Bind(ANSWER.inputs, ["i"])["ask"] == "i";
    assert BindAll(ANSWER, ["i"], ["o"])["ask"] == "i";
  }

  lemma CellHoldsName()
    ensures PreState(NAMED, map[], 0) == map["cell" := Text("idle")]
  {
    assert NAMED.variables[..0] == [];
    assert InitialCells(NAMED, map[], []) == map[];
  }

  lemma BothOccur()
    ensures NAMED.events == EventMap(UNIVERSE)
    ensures forall id :: id in ["i", "o"] ==>
      IsTrue(Occurrence(id), NAMED.events, map[]) && Ev(NAMED, map[], CycleField(id)) == Known(Int(0))
  {
    EventsOfType("Ask");
  }

  lemma GuardFailsInRun()
    ensures GuardScan(NAMED, map[], FORWARD.predicates) == GuardFails
    ensures ReplayThrows(NAMED, map[], FORWARD.predicates)
  {
    BothOccur();
    Guards();
    CellHoldsName();
    assert "i" in ["i", "o"];
    assert ReplayRaises(NAMED, map[], FORWARD.predicates[0]) && HoldsBefore(NAMED, map[], FORWARD.predicates, 0);
  }

  lemma BoundsAreTrue()
    ensures forall e :: e in NAMED.constraints ==> IsTrue(e, NAMED.events, map[])
  {
    BothOccur();
    assert "i" in ["i", "o"] && "o" in ["i", "o"];
    BoundMeans("i", 0, NAMED.events, map[]);
    BoundMeans("o", 0, NAMED.events, map[]);
  }

  lemma RequestIsEnabled()
    ensures IsTrue(FORWARD.antecedent, NAMED.events, map[]) && Enabled(ANSWER, ["i"], NAMED.events, map[])
  {
    BothOccur();
    AntecedentMeans(ANSWER, ["i"], NAMED.events, map[]);
    assert "i" in ["i", "o"];
  }

  lemma AnswerFires()
    ensures IsTrue(FIRING.expression, NAMED.events, map[])
  {
    BothOccur();
    AnswerIsValid();
    RequestIsEnabled();
    assert "o" in ["i", "o"];
    FiringMeans(ANSWER, ["i"], ["o"], NAMED.events, map[]);
  }

  lemma NamedIsValid()
    ensures ValidProblem(NAMED)
  {
    Guards();
    assert Declares(NAMED, "cell") by { assert NAMED.variables[0].name == "cell"; }
  }

  lemma ForwardIsKept()
    ensures ForwardOk(NAMED, map[], FORWARD)
  {
    RequestIsEnabled();
    GuardFailsInRun();
  }

  lemma NamedIsFeasible()
    ensures Feasible(NAMED, map[])
  {
    ForwardIsKept();
    assert forall f :: f in NAMED.forwards ==> f == FORWARD;
  }

  /**
   * The constraints hold, the run is feasible and its guard fails; the report of the rule instance raises instead of
   * leaving the instance out.
   */
  lemma EqualityRaisesInReport()
    ensures ValidRule(ANSWER) && Built(NAMED, UNIVERSE, {}, [ANSWER], [COMPILED]) && FIRING in COMPILED.firings
    ensures forall e :: e in NAMED.constraints ==> IsTrue(e, NAMED.events, map[])
    ensures ValidProblem(NAMED) && Feasible(NAMED, map[])
    ensures GuardScan(NAMED, map[], FIRING.predicates) == GuardFails && FiringRaises(NAMED, map[], FIRING)
  {
    AnswerIsValid();
    NamedIsBuilt();
    BoundsAreTrue();
    NamedIsValid();
    NamedIsFeasible();
    Guards();
    GuardFailsInRun();
    AnswerFires();
  }
}
