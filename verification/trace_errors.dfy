/** When the check of a trace with symbolic locations and no hints raises an error. */
module TraceErrors {
  import opened Common
  import opened Relations
  import opened Execution
  import opened Rvwmo
  import opened Builder
  import opened Checker
  import opened Renaming

  /** No hints, placed operations, and locations that are named by symbols. */
  ghost predicate SymbolicTrace(p: Projection) {
    Unhinted(p) && Placed(p.ops) && forall id :: id in p.ops ==> Symbolic(p.ops[id])
  }

  /** Regular operations without AMOs that have distinct indexes on each hart. */
  ghost predicate PlainOperations(ops: Operations) {
    AmoFree(ops) && DistinctIndexes(ops) && forall a :: a in ops ==> ops[a].IsRegular()
  }

  ghost predicate HasSources(p: Projection) {
    exists src :: LegalSources(p, src)
  }

  ghost predicate HasOrders(p: Projection) {
    exists orders :: LegalOrders(p, orders)
  }

  lemma SymbolicLocations(p: Projection, a: Id, b: Id)
    requires SymbolicTrace(p) && a in p.ops && b in p.ops
    ensures SameLocation(p.ops[a], p.ops[b]) <==> p.ops[a].address == p.ops[b].address
    ensures Overlap(p.ops[a], p.ops[b]) <==> p.ops[a].address == p.ops[b].address
  {
    SymbolicLocation(p.ops[a]);
    SymbolicLocation(p.ops[b]);
  }

  lemma OperationsValidate(p: Projection)
    requires SymbolicTrace(p) && PlainOperations(p.ops)
    ensures ValidOperations(p.ops)
  {
    forall a, b | a in p.ops && b in p.ops && Overlap(p.ops[a], p.ops[b]) ensures SameLocation(p.ops[a], p.ops[b]) {
      SymbolicLocations(p, a, b);
    }
  }

  lemma SourcesValidate(p: Projection, src: map<Id, Id>)
    requires SymbolicTrace(p) && LegalSources(p, src)
    ensures ValidSources(p.ops, src)
  {
    forall r ensures r in src <==> r in p.ops && p.ops[r].IsRead() { assert r in src.Keys <==> r in ReadIds(p.ops); }
    forall r | r in src ensures ValidSource(p.ops, src[r], r) {
      assert LegalSource(p, r, src[r]);
      SymbolicLocations(p, r, src[r]);
    }
  }

  // ----- Enumerated orders are coherent

  /** The place of a write in the order of its address. */
  function Place(ops: Operations, orders: map<Address, seq<Id>>, w: Id): int {
    if w in ops && ops[w].address in orders && w in orders[ops[w].address]
    then IndexOf(orders[ops[w].address], w) else -1
  }

  /** A coherence edge joins writes of one address in the order of their places. */
  lemma EdgeFollowsPlaces(p: Projection, orders: map<Address, seq<Id>>, e: Edge)
    requires LegalOrders(p, orders) && e in CoRelation(orders)
    ensures e.0 in p.ops && e.1 in p.ops && p.ops[e.0].IsWrite() && p.ops[e.1].IsWrite()
    ensures p.ops[e.0].address == p.ops[e.1].address
    ensures 0 <= Place(p.ops, orders, e.0) < Place(p.ops, orders, e.1)
  {
    var a, i, j := CoEdgeHasPlace(orders, e);
    assert LegalOrder(p, a, orders[a]);
    assert e.0 in Elements(orders[a]) && e.1 in Elements(orders[a]);
    assert IndexOf(orders[a], e.0) == i && IndexOf(orders[a], e.1) == j;
  }

  lemma OrdersAreAcyclic(p: Projection, orders: map<Address, seq<Id>>)
    requires LegalOrders(p, orders)
    ensures Acyclic(CoRelation(orders))
  {
    var rank := map w | w in p.ops :: Place(p.ops, orders, w);
    forall e | e in CoRelation(orders) ensures e.0 in rank && e.1 in rank && rank[e.0] < rank[e.1] {
      EdgeFollowsPlaces(p, orders, e);
    }
    RankedIsAcyclic(CoRelation(orders), rank);
  }

  /** Two writes of one location are ordered one way, the initial write first. */
  lemma WritesAreOrdered(p: Projection, orders: map<Address, seq<Id>>, a: Id, b: Id)
    requires SymbolicTrace(p) && AmoFree(p.ops) && LegalOrders(p, orders) && CoherentWrites(p.ops, a, b)
    ensures (a, b) in CoRelation(orders) <==> (b, a) !in CoRelation(orders)
    ensures p.ops[a].kind == InitWrite ==> (a, b) in CoRelation(orders)
  {
    SymbolicLocations(p, a, b);
    SameAddressOrdered(p, orders, a, b);
    if (a, b) in CoRelation(orders) { EdgeFollowsPlaces(p, orders, (a, b)); }
    if (b, a) in CoRelation(orders) {
      EdgeFollowsPlaces(p, orders, (b, a));
      assert LegalOrder(p, p.ops[a].address, orders[p.ops[a].address]);
    }
  }

  lemma OrdersValidate(p: Projection, orders: map<Address, seq<Id>>)
    requires SymbolicTrace(p) && AmoFree(p.ops) && LegalOrders(p, orders)
    ensures ValidCoherence(p.ops, CoRelation(orders))
  {
    forall e | e in CoRelation(orders) ensures CoherentWrites(p.ops, e.0, e.1) {
      EdgeFollowsPlaces(p, orders, e);
      SymbolicLocations(p, e.0, e.1);
    }
    forall a, b | CoherentWrites(p.ops, a, b)
      ensures (a, b) in CoRelation(orders) <==> (b, a) !in CoRelation(orders)
      ensures p.ops[a].kind == InitWrite ==> (a, b) in CoRelation(orders)
    {
      WritesAreOrdered(p, orders, a, b);
    }
    OrdersAreAcyclic(p, orders);
  }

  // ----- Errors

  lemma WellFormedWithoutInputs(c: Candidate)
    requires ValidOperations(c.ops) && ValidSources(c.ops, c.src) && ValidCoherence(c.ops, c.co)
    requires c.inputs == Inputs({}, {}, {}, {}, {}, {})
    ensures WellFormed(c) && ValidPairs(c)
  {
    assert ValidInputs(c.ops, c.inputs);
  }

  /** No graph of such a trace raises an error. */
  lemma SelectionsAreChecked(p: Projection, s: Selection)
    requires SymbolicTrace(p) && PlainOperations(p.ops) && LegalSelection(p, s)
    ensures Checked(p, s)
  {
    OperationsValidate(p);
    SourcesValidate(p, s.src);
    OrdersValidate(p, s.orders);
    NoInputs(p);
    WellFormedWithoutInputs(SelectedCandidate(p, s));
  }

  /** The check raises exactly for a bad limit, missing choices, too many candidates, or operations out of scope. */
  lemma SymbolicTraceRaises(p: Projection, maxCandidates: int)
    requires SymbolicTrace(p)
    ensures TraceRaises(p, maxCandidates) <==>
            maxCandidates <= 0 || !HasSources(p) || !HasOrders(p) || TooMany(p, maxCandidates)
                || !PlainOperations(p.ops)
  {
    assert ConsistentHints(p);
    if src, orders :| LegalSources(p, src) && LegalOrders(p, orders) {
      var some := Selection(src, orders);
      assert LegalSelection(p, some);
      if PlainOperations(p.ops) {
        forall s | LegalSelection(p, s) ensures Checked(p, s) { SelectionsAreChecked(p, s); }
      } else if Checked(p, some) {
        CheckedIsAmoFree(p, some);
        assert ValidOperations(p.ops);
      }
    }
  }
}
