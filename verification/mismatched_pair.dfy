/** A paired LR and SC of different locations: the axioms allow it, the checker rejects it. */
module MismatchedPair {
  import opened Common
  import opened Relations
  import opened Execution
  import opened Rvwmo
  import opened RvwmoCoherence

  function Annotated(atomicKind: string): Metadata {
    Metadata(None, None, Some(1), "main", {}, false, false, false, atomicKind)
  }

  /** A store-conditional to y that is paired with a load-reserved of x, and the two initial writes. */
  const OPERATIONS: Operations := map[
    "ix" := Operation(InitWrite, Token("x"), 0, 0, None, None, Annotated("")),
    "iy" := Operation(InitWrite, Token("y"), 0, 0, None, None, Annotated("")),
    "lr" := Operation(Read, Token("x"), 0, 0, Some(0), Some(0), Annotated("lr")),
    "sc" := Operation(Write, Token("y"), 1, 0, Some(0), Some(1), Annotated("sc"))]

  const PAIRED := Candidate(OPERATIONS, map["lr" := "ix"], {("iy", "sc")}, Inputs({}, {}, {}, {}, {("lr", "sc")}, {}))

  const ORDER: map<Id, int> := map["ix" := 0, "iy" := 1, "lr" := 2, "sc" := 3]

  lemma Locations()
    ensures Location(OPERATIONS["ix"]) == Location(OPERATIONS["lr"]) == {Token("x")}
    ensures Location(OPERATIONS["iy"]) == Location(OPERATIONS["sc"]) == {Token("y")}
  {
  }

  /** The only writes of one location are the initial write of y and the SC. */
  lemma OnlyCoherentWrites(a: Id, b: Id)
    requires CoherentWrites(OPERATIONS, a, b)
    ensures (a, b) == ("iy", "sc") || (a, b) == ("sc", "iy")
  {
    Locations();
    assert Token("x") in Location(OPERATIONS["ix"]) && Token("x") !in Location(OPERATIONS["iy"]);
  }

  lemma LocationsAreScalar()
    ensures ScalarLocations(OPERATIONS)
  {
    forall a | a in OPERATIONS
      ensures Footprint(OPERATIONS[a]).Ok? && Location(OPERATIONS[a]) == {OPERATIONS[a].address}
    {
      Locations();
    }
  }

  lemma OperationsArePlaced()
    ensures Placed(OPERATIONS) && DistinctIndexes(OPERATIONS)
    ensures forall a :: a in OPERATIONS ==> OPERATIONS[a].IsRegular()
  {
  }

  lemma OperationsAreValid()
    ensures ValidOperations(OPERATIONS)
  {
    LocationsAreScalar();
    OperationsArePlaced();
  }

  lemma NoAmos()
    ensures AmosAreAmos(OPERATIONS)
  {
  }

  lemma SourcesAreValid()
    ensures ValidSources(OPERATIONS, PAIRED.src)
  {
    Locations();
    assert ValidSource(OPERATIONS, "ix", "lr");
  }

  lemma CoherenceIsValid()
    ensures ValidCoherence(OPERATIONS, PAIRED.co)
  {
    Locations();
    forall a, b | CoherentWrites(OPERATIONS, a, b)
      ensures (a, b) in PAIRED.co <==> (b, a) !in PAIRED.co
      ensures OPERATIONS[a].kind == InitWrite ==> (a, b) in PAIRED.co
    {
      OnlyCoherentWrites(a, b);
    }
    RankedIsAcyclic(PAIRED.co, ORDER);
  }

  lemma PairsAreValid()
    ensures ValidInputs(OPERATIONS, PAIRED.inputs) && ValidPairs(PAIRED) && ScsPaired(PAIRED)
  {
    assert PoBefore(OPERATIONS, "lr", "sc");
    assert ("lr", "sc") in PAIRED.inputs.pair;
    assert "sc" in set e | e in PAIRED.inputs.pair :: e.1;
  }

  lemma OnlyProgramOrder(a: Id, b: Id)
    requires PoBefore(OPERATIONS, a, b)
    ensures a == "lr" && b == "sc"
  {
  }

  lemma OrderExtendsPpo()
    ensures Extends(ORDER, Ppo(PAIRED))
  {
    forall e | e in Ppo(PAIRED) ensures e.0 == "lr" && e.1 == "sc" {
      assert PoBefore(OPERATIONS, e.0, e.1);
      OnlyProgramOrder(e.0, e.1);
    }
  }

  lemma OrderIsTotal()
    ensures TotalOrder(ORDER, OPERATIONS) && Extends(ORDER, PAIRED.co)
  {
  }

  lemma OrderExplains()
    requires ValidSources(OPERATIONS, PAIRED.src)
    ensures Explains(PAIRED, ORDER)
  {
    OrderExtendsPpo();
    LoadReadsInitialValue();
    OrderIsTotal();
  }

  lemma LoadReadsInitialValue()
    requires ValidSources(OPERATIONS, PAIRED.src)
    ensures LoadValue(PAIRED, ORDER, "lr")
  {
    Locations();
    assert Token("x") in Location(OPERATIONS["ix"]) && Token("x") !in Location(OPERATIONS["iy"]);
  }

  lemma NothingIntervenes()
    requires ValidSources(OPERATIONS, PAIRED.src)
    ensures LrScAtomic(PAIRED, ORDER, "lr", "sc")
  {
    Locations();
    assert Token("x") in Location(OPERATIONS["ix"]) && Token("x") !in Location(OPERATIONS["iy"]);
    forall w ensures !Intervenes(PAIRED, ORDER, "lr", "sc", w) {
    }
  }

  /** Every axiom of the model holds of the pair. */
  lemma PairedIsAllowed()
    ensures WellFormed(PAIRED) && ValidPairs(PAIRED) && Allowed(PAIRED, ORDER)
  {
    OperationsAreValid();
    SourcesAreValid();
    CoherenceIsValid();
    PairsAreValid();
    OrderExplains();
    NothingIntervenes();
  }

  lemma PairIsSplit()
    requires ValidSources(OPERATIONS, PAIRED.src)
    ensures !LrScByCoherence(PAIRED, "lr", "sc") && !PairsShareLocation(OPERATIONS, PAIRED.inputs.pair)
  {
    Locations();
    assert ("lr", "sc") in PAIRED.inputs.pair;
    assert Token("x") in Location(OPERATIONS["lr"]) && Token("x") !in Location(OPERATIONS["sc"]);
  }

  /** The axioms allow the execution with its pair, and the checker's coherence test of the pair fails. */
  lemma MismatchedPairIsRejected()
    ensures WellFormed(PAIRED) && ValidPairs(PAIRED) && Allowed(PAIRED, ORDER) && AmosAreAmos(OPERATIONS)
    ensures !LrScByCoherence(PAIRED, "lr", "sc") && !PairsShareLocation(OPERATIONS, PAIRED.inputs.pair)
  {
    PairedIsAllowed();
    PairIsSplit();
    NoAmos();
  }
}
