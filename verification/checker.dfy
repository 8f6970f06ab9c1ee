/** Checking a trace: enumerate every candidate execution and look for one that the model allows. */
module Checker {
  import opened Common
  import opened Relations
  import opened Execution
  import opened Rvwmo
  import opened RvwmoTheory
  import opened RvwmoCoherence
  import opened RvwmoChecker
  import opened Enumeration
  import opened Builder

  datatype Selection = Selection(src: map<Id, Id>, orders: map<Address, seq<Id>>)

  ghost predicate LegalSelection(p: Projection, s: Selection) {
    LegalSources(p, s.src) && LegalOrders(p, s.orders)
  }

  // ----- Enumerating the selections

  /** The number of candidates that the space announces: the product of the numbers of choices. */
  ghost function Estimated(space: CandidateSpace): nat {
    Count(space.rfChoices) * Count(space.coOrders)
  }

  method EstimateCandidates(space: CandidateSpace) returns (count: nat)
    ensures count == Estimated(space)
  {
    count := MultiplyLengths(1, space.rfChoices);
    count := MultiplyLengths(count, space.coOrders);
  }

  lemma PickedSourcesAreLegal(p: Projection, space: CandidateSpace, ids: seq<Id>)
    requires ExactSpace(p, space) && Enumerates(ids, space.rfChoices.Keys)
    requires forall r :: r in ids ==> r in space.rfChoices
    ensures forall m :: Picks(m, ids, ListsOf(space.rfChoices, ids)) <==> LegalSources(p, m)
  {
    var lists := ListsOf(space.rfChoices, ids);
    forall m ensures Picks(m, ids, lists) <==> LegalSources(p, m) {
      if Picks(m, ids, lists) {
        forall r | r in m ensures LegalSource(p, r, m[r]) {
          assert r in Elements(ids);
          var i :| 0 <= i < |ids| && ids[i] == r;
          assert m[ids[i]] in lists[i] && m[r] in Elements(space.rfChoices[r]);
        }
      }
      if LegalSources(p, m) {
        forall i | 0 <= i < |ids| ensures ids[i] in m && m[ids[i]] in lists[i] {
          assert ids[i] in Elements(ids);
          assert LegalSource(p, ids[i], m[ids[i]]);
          assert m[ids[i]] in Elements(space.rfChoices[ids[i]]);
        }
      }
    }
  }

  /** The maps that pick a listed source for each read are the legal rf functions. */
  lemma SourceMapsExact(p: Projection, space: CandidateSpace, ids: seq<Id>)
    requires ExactSpace(p, space) && Enumerates(ids, space.rfChoices.Keys)
    requires forall r :: r in ids ==> r in space.rfChoices
    ensures var maps := KeyedProduct(ids, ListsOf(space.rfChoices, ids));
            NoDup(maps) && |maps| == Count(space.rfChoices) && forall m :: m in maps <==> LegalSources(p, m)
  {
    KeyedProductExact(ids, ListsOf(space.rfChoices, ids));
    CountIsVolume(space.rfChoices, ids);
    PickedSourcesAreLegal(p, space, ids);
  }

  lemma PickedOrdersAreLegal(p: Projection, space: CandidateSpace, addresses: seq<Address>)
    requires ExactSpace(p, space) && Enumerates(addresses, space.coOrders.Keys)
    requires forall a :: a in addresses ==> a in space.coOrders
    ensures forall m :: Picks(m, addresses, ListsOf(space.coOrders, addresses)) <==> LegalOrders(p, m)
  {
    var lists := ListsOf(space.coOrders, addresses);
    forall m ensures Picks(m, addresses, lists) <==> LegalOrders(p, m) {
      if Picks(m, addresses, lists) {
        forall a | a in m ensures LegalOrder(p, a, m[a]) {
          assert a in Elements(addresses);
          var i :| 0 <= i < |addresses| && addresses[i] == a;
          assert m[addresses[i]] in lists[i];
        }
      }
      if LegalOrders(p, m) {
        forall i | 0 <= i < |addresses| ensures addresses[i] in m && m[addresses[i]] in lists[i] {
          assert addresses[i] in Elements(addresses);
          assert LegalOrder(p, addresses[i], m[addresses[i]]);
        }
      }
    }
  }

  /** The maps that pick a listed order for each address are the legal coherence orders. */
  lemma OrderMapsExact(p: Projection, space: CandidateSpace, addresses: seq<Address>)
    requires ExactSpace(p, space) && Enumerates(addresses, space.coOrders.Keys)
    requires forall a :: a in addresses ==> a in space.coOrders
    ensures var maps := KeyedProduct(addresses, ListsOf(space.coOrders, addresses));
            NoDup(maps) && |maps| == Count(space.coOrders) && forall m :: m in maps <==> LegalOrders(p, m)
  {
    KeyedProductExact(addresses, ListsOf(space.coOrders, addresses));
    CountIsVolume(space.coOrders, addresses);
    PickedOrdersAreLegal(p, space, addresses);
  }

  /** Each rf choice with each co choice, rf outermost. */
  function Pairs(rfMaps: seq<map<Id, Id>>, coMaps: seq<map<Address, seq<Id>>>): seq<Selection> {
    if rfMaps == [] then []
    else Pairs(rfMaps[..|rfMaps| - 1], coMaps) + WithSources(rfMaps[|rfMaps| - 1], coMaps)
  }

  function WithSources(src: map<Id, Id>, coMaps: seq<map<Address, seq<Id>>>): (pairs: seq<Selection>)
    ensures |pairs| == |coMaps| && forall j :: 0 <= j < |pairs| ==> pairs[j] == Selection(src, coMaps[j])
  {
    seq(|coMaps|, j requires 0 <= j < |coMaps| => Selection(src, coMaps[j]))
  }

  lemma {:induction false} PairsExact(rfMaps: seq<map<Id, Id>>, coMaps: seq<map<Address, seq<Id>>>)
    requires NoDup(rfMaps) && NoDup(coMaps)
    ensures NoDup(Pairs(rfMaps, coMaps)) && |Pairs(rfMaps, coMaps)| == |rfMaps| * |coMaps|
    ensures forall s :: s in Pairs(rfMaps, coMaps) <==> s.src in rfMaps && s.orders in coMaps
    decreases |rfMaps|
  {
    if rfMaps != [] {
      var shorter, last := rfMaps[..|rfMaps| - 1], rfMaps[|rfMaps| - 1];
      var pairs := WithSources(last, coMaps);
      PairsExact(shorter, coMaps);
      assert rfMaps == shorter + [last] && last !in shorter;
      assert |rfMaps| * |coMaps| == |shorter| * |coMaps| + |coMaps|;
      forall s ensures s in pairs <==> s.src == last && s.orders in coMaps {
        if s.src == last && s.orders in coMaps {
          var j :| 0 <= j < |coMaps| && coMaps[j] == s.orders;
          assert pairs[j] == s;
        }
      }
      assert forall s :: s in Pairs(rfMaps, coMaps) <==> s in Pairs(shorter, coMaps) || s in pairs;
    }
  }

  method PairSelections(rfMaps: seq<map<Id, Id>>, coMaps: seq<map<Address, seq<Id>>>)
    returns (selections: seq<Selection>)
    ensures selections == Pairs(rfMaps, coMaps)
  {
    selections := [];
    for i := 0 to |rfMaps|
      invariant selections == Pairs(rfMaps[..i], coMaps)
    {
      var pairs := [];
      for j := 0 to |coMaps|
        invariant pairs == WithSources(rfMaps[i], coMaps[..j])
      {
        pairs := pairs + [Selection(rfMaps[i], coMaps[j])];
      }
      WholePrefix(coMaps);
      assert rfMaps[..i + 1][..i] == rfMaps[..i];
      selections := selections + pairs;
    }
    WholePrefix(rfMaps);
  }

  /** The pairs of listed choices are the legal selections, as many as estimated. */
  lemma PairsAreSelections(p: Projection, space: CandidateSpace, ids: seq<Id>, addresses: seq<Address>)
    requires ExactSpace(p, space) && Enumerates(ids, space.rfChoices.Keys) && Enumerates(addresses, space.coOrders.Keys)
    requires (forall r :: r in ids ==> r in space.rfChoices) && forall a :: a in addresses ==> a in space.coOrders
    ensures var all := Pairs(KeyedProduct(ids, ListsOf(space.rfChoices, ids)),
                             KeyedProduct(addresses, ListsOf(space.coOrders, addresses)));
            NoDup(all) && |all| == Estimated(space) && forall s :: s in all <==> LegalSelection(p, s)
  {
    SourceMapsExact(p, space, ids);
    OrderMapsExact(p, space, addresses);
    PairsExact(KeyedProduct(ids, ListsOf(space.rfChoices, ids)),
               KeyedProduct(addresses, ListsOf(space.coOrders, addresses)));
  }

  lemma {:induction false} SomeListing<T>(elements: set<T>) returns (s: seq<T>)
    ensures Enumerates(s, elements)
    decreases elements
  {
    s := [];
    if elements != {} {
      var x :| x in elements;
      var rest := SomeListing(elements - {x});
      assert x !in Elements(rest);
      AppendOne(rest, x);
      s := rest + [x];
    }
  }

  /** The estimate is the number of legal selections, however many they are. */
  lemma EstimateIsExact(p: Projection, space: CandidateSpace, selections: seq<Selection>)
    requires ExactSpace(p, space) && NoDup(selections) && forall s :: s in selections <==> LegalSelection(p, s)
    ensures |selections| == Estimated(space)
  {
    var ids := SomeListing(space.rfChoices.Keys);
    var addresses := SomeListing(space.coOrders.Keys);
    assert forall r :: r in ids ==> r in Elements(ids);
    assert forall a :: a in addresses ==> a in Elements(addresses);
    PairsAreSelections(p, space, ids, addresses);
    var all := Pairs(KeyedProduct(ids, ListsOf(space.rfChoices, ids)),
                     KeyedProduct(addresses, ListsOf(space.coOrders, addresses)));
    EnumerationLength(all, Elements(all));
    EnumerationLength(selections, Elements(selections));
    assert Elements(all) == Elements(selections);
  }

  /** The estimate of the candidate space exceeds the limit. */
  ghost predicate TooMany(p: Projection, maxCandidates: int) {
    exists space :: ExactSpace(p, space) && Estimated(space) > maxCandidates
  }

  /** Every exact space has the same estimate. */
  lemma SameEstimate(p: Projection, space: CandidateSpace, other: CandidateSpace)
    requires ExactSpace(p, space) && ExactSpace(p, other)
    ensures Estimated(space) == Estimated(other)
  {
    forall r | r in space.rfChoices ensures |space.rfChoices[r]| == |other.rfChoices[r]| {
      EnumerationLength(space.rfChoices[r], set w | w in p.ops && LegalSource(p, r, w));
      EnumerationLength(other.rfChoices[r], set w | w in p.ops && LegalSource(p, r, w));
    }
    forall a | a in space.coOrders ensures |space.coOrders[a]| == |other.coOrders[a]| {
      assert Elements(space.coOrders[a]) == Elements(other.coOrders[a]);
      EnumerationLength(space.coOrders[a], Elements(space.coOrders[a]));
      EnumerationLength(other.coOrders[a], Elements(other.coOrders[a]));
    }
    CountRekeyed(space.rfChoices, other.rfChoices, map r | r in space.rfChoices :: r);
    CountRekeyed(space.coOrders, other.coOrders, map a | a in space.coOrders :: a);
  }

  /**
   * The candidates of a trace: each legal pair of an rf function and per-address coherence orders exactly once,
   * as many as estimated; an error exactly for a limit that is not positive, inconsistent hints, no legal choice,
   * or an estimate above the limit.
   */
  method IterSelections(p: Projection, maxCandidates: int) returns (result: Result<seq<Selection>>)
    ensures result.Ok? ==> NoDup(result.value) && forall s :: s in result.value <==> LegalSelection(p, s)
    ensures result.Ok? ==> result.value != []
    ensures result.Ok? ==> forall space :: ExactSpace(p, space) ==> |result.value| == Estimated(space)
    ensures result.Ok? <==>
            0 < maxCandidates && ConsistentHints(p) && (exists s :: LegalSelection(p, s)) && !TooMany(p, maxCandidates)
  {
    if maxCandidates <= 0 { return Err; }
    var space := BuildCandidateSpace(p);
    if space.Err? {
      assert forall s :: LegalSelection(p, s) ==> LegalSources(p, s.src) && LegalOrders(p, s.orders);
      return Err;
    }
    forall other | ExactSpace(p, other) ensures Estimated(other) == Estimated(space.value) {
      SameEstimate(p, space.value, other);
    }
    var estimate := EstimateCandidates(space.value);
    if estimate > maxCandidates { return Err; }
    var ids := Sorted(space.value.rfChoices.Keys);
    var addresses := ListAddresses(space.value.coOrders.Keys);
    assert forall r :: r in ids ==> r in Elements(ids);
    assert forall a :: a in addresses ==> a in Elements(addresses);
    PairsAreSelections(p, space.value, ids, addresses);
    var selections := PairSelections(KeyedProduct(ids, ListsOf(space.value.rfChoices, ids)),
                                     KeyedProduct(addresses, ListsOf(space.value.coOrders, addresses)));
    ghost var src, orders := SomeSelection(p, space.value);
    assert LegalSelection(p, Selection(src, orders));
    result := Ok(selections);
  }

  // ----- The graph of a selection

  /** Each write before the later ones of its address. */
  function CoRelation(orders: map<Address, seq<Id>>): set<Edge> {
    set a, i, j | a in orders && 0 <= i < |orders[a]| && i < j < |orders[a]| :: (orders[a][i], orders[a][j])
  }

  function HintedInputs(p: Projection): Inputs {
    InputsFrom(p.relationHints)
  }

  function SelectedCandidate(p: Projection, s: Selection): Candidate {
    Candidate(p.ops, s.src, CoRelation(s.orders), HintedInputs(p))
  }

  /** Hints name no derived relation, as the model specification demands. */
  predicate UnreservedHints(p: Projection) {
    forall name | name in {"po", "rf", "rfi", "rfe", "co", "fr", "fri", "fre", "ppo", "gmo"} :: name !in p.relationHints
  }

  /** Hint edges join operations of the trace. */
  predicate KnownHintEdges(p: Projection) {
    forall name | name in p.relationHints ::
      forall e | e in p.relationHints[name] :: e.0 in p.ops && e.1 in p.ops
  }

  function SelectedGraph(p: Projection, s: Selection, po: set<Edge>): Graph {
    Graph(p.ops, map["po" := po, "rf" := SourceEdges(s.src), "co" := CoRelation(s.orders)]
                 + p.relationHints)
  }

  lemma SelectedGraphIsValid(p: Projection, s: Selection, po: set<Edge>)
    requires KnownHintEdges(p) && LegalSelection(p, s)
    requires Placed(p.ops) && po == Po(p.ops)
    ensures SelectedGraph(p, s, po).Valid()
  {
    SelectedEdgesKnown(p, s);
  }

  lemma SelectedGraphRelations(p: Projection, s: Selection, po: set<Edge>)
    requires UnreservedHints(p)
    ensures var g := SelectedGraph(p, s, po);
            && "rf" in g.relations && g.relations["rf"] == SourceEdges(s.src)
            && "co" in g.relations && g.relations["co"] == CoRelation(s.orders)
            && "po" in g.relations && g.relations["po"] == po
            && InputsOf(g) == HintedInputs(p)
  {
    assert "po" !in p.relationHints && "rf" !in p.relationHints && "co" !in p.relationHints;
  }

  /** The graph of a selection describes no candidate but the selected one. */
  lemma SelectedGraphDescribes(p: Projection, s: Selection, po: set<Edge>)
    requires UnreservedHints(p) && po == Po(p.ops)
    ensures forall c :: Describes(SelectedGraph(p, s, po), c) ==> c == SelectedCandidate(p, s)
    ensures ValidSources(p.ops, s.src) ==> Describes(SelectedGraph(p, s, po), SelectedCandidate(p, s))
  {
    var g := SelectedGraph(p, s, po);
    SelectedGraphRelations(p, s, po);
    forall c | Describes(g, c) ensures c.src == s.src {
      SameSources(c.src, s.src);
    }
  }

  /** An assignment is determined by its edges. */
  lemma SameSources(a: map<Id, Id>, b: map<Id, Id>)
    requires SourceEdges(a) == SourceEdges(b)
    ensures a == b
  {
    forall r | r in a ensures r in b && a[r] == b[r] {
      assert (a[r], r) in SourceEdges(a);
    }
    forall r | r in b ensures r in a {
      assert (b[r], r) in SourceEdges(b);
    }
    assert a.Keys == b.Keys;
  }

  lemma SelectedEdgesKnown(p: Projection, s: Selection)
    requires LegalSelection(p, s)
    ensures forall r :: r in s.src ==> r in p.ops && s.src[r] in p.ops
    ensures forall e :: e in CoRelation(s.orders) ==> e.0 in p.ops && e.1 in p.ops
  {
    forall r | r in s.src ensures r in p.ops && s.src[r] in p.ops { assert LegalSource(p, r, s.src[r]); }
    forall a, i | a in s.orders && 0 <= i < |s.orders[a]| ensures s.orders[a][i] in p.ops {
      assert LegalOrder(p, a, s.orders[a]);
      assert s.orders[a][i] in Elements(s.orders[a]);
    }
  }

  // ----- The meaning of the verdict: no co, one global memory order

  /** Coherence as the global memory order induces it. */
  ghost function GmoCoherence(ops: Operations, gmo: map<Id, int>): set<Edge> {
    set a, b | a in ops && b in ops && a in gmo && b in gmo && CoherentWrites(ops, a, b) && gmo[a] < gmo[b] :: (a, b)
  }

  ghost function GmoCandidate(p: Projection, src: map<Id, Id>, gmo: map<Id, int>): Candidate {
    Candidate(p.ops, src, GmoCoherence(p.ops, gmo), HintedInputs(p))
  }

  /** Initial writes precede the other writes of their location, and the co hints hold, in the global memory order. */
  ghost predicate RespectsHints(p: Projection, gmo: map<Id, int>) {
    && (forall a, b :: CoherentWrites(p.ops, a, b) && p.ops[a].kind == InitWrite && a in gmo && b in gmo ==>
          gmo[a] < gmo[b])
    && (forall h :: h in p.coHints && h.before in gmo && h.after in gmo ==> gmo[h.before] < gmo[h.after])
  }

  /** The trace has an execution: consistent sources and one global memory order that satisfies every axiom. */
  ghost predicate TraceAllowed(p: Projection, src: map<Id, Id>, gmo: map<Id, int>) {
    && LegalSources(p, src)
    && RespectsHints(p, gmo)
    && ValidSources(p.ops, src)
    && ValidPairs(GmoCandidate(p, src, gmo))
    && Allowed(GmoCandidate(p, src, gmo), gmo)
  }

  lemma PairIsInCo(orders: map<Address, seq<Id>>, a: Address, i: nat, j: nat)
    requires a in orders && i < j < |orders[a]|
    ensures (orders[a][i], orders[a][j]) in CoRelation(orders)
  {
  }

  lemma CoEdgeHasPlace(orders: map<Address, seq<Id>>, e: Edge) returns (a: Address, i: nat, j: nat)
    requires e in CoRelation(orders)
    ensures a in orders && i < j < |orders[a]| && e == (orders[a][i], orders[a][j])
  {
    var b, k, m :| b in orders && 0 <= k < |orders[b]| && k < m < |orders[b]| && e == (orders[b][k], orders[b][m]);
    a, i, j := b, k, m;
  }

  /** The enumerated coherence orders no AMO. */
  lemma AmoIsUnordered(p: Projection, orders: map<Address, seq<Id>>, e: Edge)
    requires LegalOrders(p, orders) && e in CoRelation(orders)
    ensures e.0 in p.ops && e.1 in p.ops && p.ops[e.0].kind != Amo && p.ops[e.1].kind != Amo
  {
    var a, i, j := CoEdgeHasPlace(orders, e);
    assert LegalOrder(p, a, orders[a]);
    assert e.0 in Elements(orders[a]) && e.1 in Elements(orders[a]);
  }

  /** An AMO has a source, which coherence would have to order with it: no graph of a trace with an AMO validates. */
  lemma CheckedIsAmoFree(p: Projection, s: Selection)
    requires LegalSelection(p, s) && WellFormed(SelectedCandidate(p, s))
    ensures AmoFree(p.ops)
  {
    var co := CoRelation(s.orders);
    if a :| a in p.ops && p.ops[a].kind == Amo {
      assert ValidSource(p.ops, s.src[a], a);
      assert CoherentWrites(p.ops, s.src[a], a) && CoherentWrites(p.ops, a, s.src[a]);
      var e: Edge := if (s.src[a], a) in co then (s.src[a], a) else (a, s.src[a]);
      AmoIsUnordered(p, s.orders, e);
    }
  }

  /** Two writes of one address are ordered by the address's coherence order. */
  lemma SameAddressOrdered(p: Projection, orders: map<Address, seq<Id>>, x: Id, y: Id)
    requires LegalOrders(p, orders) && AmoFree(p.ops) && x in p.ops && y in p.ops && x != y
    requires p.ops[x].IsWrite() && p.ops[y].IsWrite() && p.ops[x].address == p.ops[y].address
    ensures (x, y) in CoRelation(orders) || (y, x) in CoRelation(orders)
  {
    var a := p.ops[x].address;
    assert LegalOrder(p, a, orders[a]);
    assert x in Elements(orders[a]) && y in Elements(orders[a]);
    var i :| 0 <= i < |orders[a]| && orders[a][i] == x;
    var j :| 0 <= j < |orders[a]| && orders[a][j] == y;
    if i < j { PairIsInCo(orders, a, i, j); } else { PairIsInCo(orders, a, j, i); }
  }

  /** Where one selection validates, one address is one location. */
  lemma SameAddressIsSameLocation(p: Projection, s: Selection, x: Id, y: Id)
    requires LegalSelection(p, s) && WellFormed(SelectedCandidate(p, s))
    requires x in p.ops && y in p.ops && x != y && p.ops[x].IsWrite() && p.ops[y].IsWrite()
    requires p.ops[x].address == p.ops[y].address
    ensures CoherentWrites(p.ops, x, y)
  {
    CheckedIsAmoFree(p, s);
    SameAddressOrdered(p, s.orders, x, y);
  }

  lemma CoherenceIsInduced(c: Candidate, gmo: map<Id, int>)
    requires WellFormed(c) && TotalOrder(gmo, c.ops) && Extends(gmo, c.co)
    ensures c.co == GmoCoherence(c.ops, gmo)
  {
    CoherenceFollowsGmo(c, gmo);
    forall e ensures e in c.co <==> e in GmoCoherence(c.ops, gmo) {
      assert e == (e.0, e.1);
      if e in c.co { assert CoherentWrites(c.ops, e.0, e.1); }
    }
  }

  /** The coherence of an allowed selection is the one its global memory order induces. */
  lemma SelectedCoherenceIsGmo(p: Projection, s: Selection, gmo: map<Id, int>)
    requires LegalSelection(p, s) && WellFormed(SelectedCandidate(p, s))
    requires TotalOrder(gmo, p.ops) && Extends(gmo, CoRelation(s.orders))
    ensures CoRelation(s.orders) == GmoCoherence(p.ops, gmo)
  {
    CoherenceIsInduced(SelectedCandidate(p, s), gmo);
  }

  /** An accepted selection makes the trace allowed. */
  lemma AcceptedSelection(p: Projection, s: Selection, gmo: map<Id, int>)
    requires LegalSelection(p, s) && ConsistentHints(p)
    requires WellFormed(SelectedCandidate(p, s)) && ValidPairs(SelectedCandidate(p, s))
    requires Allowed(SelectedCandidate(p, s), gmo)
    ensures TraceAllowed(p, s.src, gmo)
  {
    var c := SelectedCandidate(p, s);
    SelectedCoherenceIsGmo(p, s, gmo);
    forall a, b | CoherentWrites(p.ops, a, b) && p.ops[a].kind == InitWrite ensures gmo[a] < gmo[b] {
      assert (a, b) in c.co;
    }
    forall h | h in p.coHints ensures h.before in gmo && h.after in gmo && gmo[h.before] < gmo[h.after] {
      assert ValidCoHint(p.ops, h);
      var order := s.orders[h.address];
      assert LegalOrder(p, h.address, order);
      assert Ordered(order, h.before, h.after);
      PairIsInCo(s.orders, h.address, IndexOf(order, h.before), IndexOf(order, h.after));
    }
    assert GmoCandidate(p, s.src, gmo) == c;
  }

  // ----- From a global memory order back to a selection

  /** The elements of a set by ascending rank. */
  lemma SortByRank(ids: set<Id>, gmo: map<Id, int>) returns (order: seq<Id>)
    requires ids <= gmo.Keys && forall a, b :: a in gmo && b in gmo && a != b ==> gmo[a] != gmo[b]
    ensures Enumerates(order, ids)
    ensures forall i :: 0 <= i < |order| ==> order[i] in gmo
    ensures forall i, j :: 0 <= i < j < |order| ==> gmo[order[i]] < gmo[order[j]]
    decreases ids
  {
    order := [];
    if ids != {} {
      var top := HighestRank(ids, gmo);
      var below := SortByRank(ids - {top}, gmo);
      forall i | 0 <= i < |below| ensures gmo[below[i]] < gmo[top] {
        assert below[i] in Elements(below);
      }
      order := below + [top];
      assert Elements(order) == Elements(below) + {top};
    }
  }

  lemma HighestRank(ids: set<Id>, gmo: map<Id, int>) returns (top: Id)
    requires ids <= gmo.Keys && ids != {} && forall a, b :: a in gmo && b in gmo && a != b ==> gmo[a] != gmo[b]
    ensures top in ids && forall a :: a in ids && a != top ==> gmo[a] < gmo[top]
    decreases ids
  {
    top :| top in ids;
    if ids != {top} {
      var other := HighestRank(ids - {top}, gmo);
      if gmo[top] < gmo[other] { top := other; }
    }
  }

  /** The order of one address by rank is legal when one address is one location. */
  lemma RankOrderIsLegal(p: Projection, gmo: map<Id, int>, address: Address, order: seq<Id>)
    requires TotalOrder(gmo, p.ops) && RespectsHints(p, gmo) && ConsistentHints(p) && AmoFree(p.ops)
    requires Enumerates(order, ListedWrites(p.ops, address)) && forall i :: 0 <= i < |order| ==> order[i] in gmo
    requires forall i, j :: 0 <= i < j < |order| ==> gmo[order[i]] < gmo[order[j]]
    requires forall x, y :: x in WritesAt(p.ops, address) && y in WritesAt(p.ops, address) && x != y ==>
      CoherentWrites(p.ops, x, y)
    ensures LegalOrder(p, address, order)
  {
    forall i | 0 < i < |order| && order[i] in p.ops ensures p.ops[order[i]].kind != InitWrite {
      assert order[0] in Elements(order) && order[i] in Elements(order);
      assert CoherentWrites(p.ops, order[i], order[0]);
    }
    forall h | h in p.coHints && h.address == address ensures Ordered(order, h.before, h.after) {
      assert ValidCoHint(p.ops, h);
      assert h.before in Elements(order) && h.after in Elements(order);
    }
  }

  lemma OrdersByRank(p: Projection, gmo: map<Id, int>, addresses: set<Address>) returns (orders: map<Address, seq<Id>>)
    requires TotalOrder(gmo, p.ops)
    ensures orders.Keys == addresses
    ensures forall a :: a in orders ==>
      Enumerates(orders[a], ListedWrites(p.ops, a)) && (forall i :: 0 <= i < |orders[a]| ==> orders[a][i] in gmo)
      && forall i, j :: 0 <= i < j < |orders[a]| ==> gmo[orders[a][i]] < gmo[orders[a][j]]
    decreases addresses
  {
    orders := map[];
    if addresses != {} {
      var a :| a in addresses;
      var order := SortByRank(ListedWrites(p.ops, a), gmo);
      var rest := OrdersByRank(p, gmo, addresses - {a});
      orders := rest[a := order];
    }
  }

  /** An allowed trace has a legal selection with the coherence of its global memory order. */
  lemma AllowedHasSelection(p: Projection, some: Selection, src: map<Id, Id>, gmo: map<Id, int>) returns (s: Selection)
    requires LegalSelection(p, some) && WellFormed(SelectedCandidate(p, some)) && ConsistentHints(p)
    requires TraceAllowed(p, src, gmo)
    ensures LegalSelection(p, s) && s.src == src && Extends(gmo, CoRelation(s.orders))
  {
    CheckedIsAmoFree(p, some);
    var orders := OrdersByRank(p, gmo, WriteAddresses(p.ops));
    forall a | a in orders ensures LegalOrder(p, a, orders[a]) {
      forall x, y | x in WritesAt(p.ops, a) && y in WritesAt(p.ops, a) && x != y ensures CoherentWrites(p.ops, x, y) {
        SameAddressIsSameLocation(p, some, x, y);
      }
      RankOrderIsLegal(p, gmo, a, orders[a]);
    }
    s := Selection(src, orders);
    forall e | e in CoRelation(orders) ensures e.0 in gmo && e.1 in gmo && gmo[e.0] < gmo[e.1] {
      var a, i, j := CoEdgeHasPlace(orders, e);
    }
  }

  // ----- The verdict on a trace

  datatype Status = AllowedTrace | ForbiddenTrace

  /** Operations annotated as AMOs are AMOs, and the SC of every pair stores to the location of its LR. */
  predicate RightAnnotations(p: Projection) {
    AmosAreAmos(p.ops) && PairsShareLocation(p.ops, HintedInputs(p).pair)
  }

  /** Some sources and some global memory order satisfy the model, and the annotations are right. */
  ghost predicate IsAllowed(p: Projection) {
    RightAnnotations(p) && exists src, gmo :: TraceAllowed(p, src, gmo)
  }

  /** When the check of a trace raises an error. */
  ghost predicate TraceRaises(p: Projection, maxCandidates: int) {
    || maxCandidates <= 0 || !ConsistentHints(p) || (forall s :: !LegalSelection(p, s)) || TooMany(p, maxCandidates)
    || !AmoFree(p.ops) || !DistinctIndexes(p.ops) || exists s :: LegalSelection(p, s) && !Checked(p, s)
  }

  /**
   * Enumerates the candidates, checks each graph and reports whether one is allowed. When no candidate raises an
   * error the answer is exact: ALLOWED means that some sources and some global memory order satisfy the model, and
   * that the annotations are right. A trace with an AMO always raises an error.
   */
  method CheckTraceMemoryModel(p: Projection, maxCandidates: int) returns (result: Result<Status>)
    requires UnreservedHints(p) && KnownHintEdges(p) && Placed(p.ops)
    ensures result.Err? <==> TraceRaises(p, maxCandidates)
    ensures result.Ok? ==> (result.value == AllowedTrace <==> IsAllowed(p))
  {
    var selections := IterSelections(p, maxCandidates);
    if selections.Err? { return Err; }
    var po := CanonicalPo(p.ops);
    if po.Err? { return Err; }
    assert forall k :: 0 <= k < |selections.value| ==> selections.value[k] in selections.value;
    var allowed := CheckSelections(p, selections.value, po.value);
    if allowed.Err? {
      UncheckedSelection(p, selections.value);
      return Err;
    }
    AllCheckedMeans(p, selections.value);
    VerdictOnTrace(p, selections.value);
    result := Ok(if allowed.value then AllowedTrace else ForbiddenTrace);
  }

  lemma UncheckedSelection(p: Projection, selections: seq<Selection>)
    requires !AllChecked(p, selections) && forall s :: s in selections <==> LegalSelection(p, s)
    ensures exists s :: LegalSelection(p, s) && !Checked(p, s)
  {
    var k :| 0 <= k < |selections| && !Checked(p, selections[k]);
    assert selections[k] in selections;
  }

  lemma AllCheckedMeans(p: Projection, selections: seq<Selection>)
    requires AllChecked(p, selections) && selections != [] && forall s :: s in selections <==> LegalSelection(p, s)
    ensures AmoFree(p.ops) && (exists s :: LegalSelection(p, s)) && !exists s :: LegalSelection(p, s) && !Checked(p, s)
  {
    assert selections[0] in selections;
    CheckedIsAmoFree(p, selections[0]);
    forall s | LegalSelection(p, s) ensures Checked(p, s) {
      var k :| 0 <= k < |selections| && selections[k] == s;
    }
  }

  /** The loop over the candidates; an error as soon as one graph raises one. */
  method CheckSelections(p: Projection, selections: seq<Selection>, po: set<Edge>) returns (result: Result<bool>)
    requires Projected(p, po) && forall k :: 0 <= k < |selections| ==> LegalSelection(p, selections[k])
    ensures result.Ok? <==> AllChecked(p, selections)
    ensures result.Ok? ==> (result.value <==> SomeAccepted(p, selections))
  {
    var allowed := false;
    ghost var outcomes: seq<bool> := [];
    for i := 0 to |selections|
      invariant |outcomes| == i && (allowed <==> true in outcomes)
      invariant OutcomesOf(p, selections[..i], outcomes)
    {
      var outcome := CheckNext(p, selections, i, outcomes, po);
      if outcome.Err? { return Err; }
      if outcome.value { allowed := true; }
      outcomes := outcomes + [outcome.value];
    }
    WholePrefix(selections);
    OutcomesDecide(p, selections, outcomes);
    result := Ok(allowed);
  }

  /** One round of the loop. */
  method CheckNext(p: Projection, selections: seq<Selection>, i: nat, ghost outcomes: seq<bool>, po: set<Edge>)
    returns (outcome: Result<bool>)
    requires Projected(p, po) && i < |selections| && LegalSelection(p, selections[i])
    requires OutcomesOf(p, selections[..i], outcomes)
    ensures outcome.Err? ==> !AllChecked(p, selections)
    ensures outcome.Ok? ==> OutcomesOf(p, selections[..i + 1], outcomes + [outcome.value])
  {
    outcome := CheckSelection(p, selections[i], po);
    if outcome.Err? {
      OneUnchecked(p, selections, i);
    } else {
      ExtendOutcomes(p, selections[..i], outcomes, selections[i], outcome.value);
      assert selections[..i + 1] == selections[..i] + [selections[i]];
    }
  }

  ghost predicate AllChecked(p: Projection, selections: seq<Selection>) {
    forall k :: 0 <= k < |selections| ==> Checked(p, selections[k])
  }

  ghost predicate SomeAccepted(p: Projection, selections: seq<Selection>) {
    exists k :: 0 <= k < |selections| && Accepted(p, selections[k])
  }

  lemma OutcomesDecide(p: Projection, selections: seq<Selection>, outcomes: seq<bool>)
    requires OutcomesOf(p, selections, outcomes)
    ensures AllChecked(p, selections) && (true in outcomes <==> SomeAccepted(p, selections))
  {
    if k :| 0 <= k < |selections| && Accepted(p, selections[k]) { assert outcomes[k]; }
  }

  lemma OneUnchecked(p: Projection, selections: seq<Selection>, k: nat)
    requires k < |selections| && !Checked(p, selections[k])
    ensures !AllChecked(p, selections)
  {
  }

  /** `outcomes` says which of the error-free selections are accepted. */
  ghost predicate OutcomesOf(p: Projection, selections: seq<Selection>, outcomes: seq<bool>) {
    && |outcomes| == |selections|
    && forall k :: 0 <= k < |selections| ==> Checked(p, selections[k]) && (outcomes[k] <==> Accepted(p, selections[k]))
  }

  lemma ExtendOutcomes(p: Projection, selections: seq<Selection>, outcomes: seq<bool>, s: Selection, outcome: bool)
    requires OutcomesOf(p, selections, outcomes) && Checked(p, s) && (outcome <==> Accepted(p, s))
    ensures OutcomesOf(p, selections + [s], outcomes + [outcome])
  {
  }

  /** The selection raised no error when its graph was checked. */
  ghost predicate Checked(p: Projection, s: Selection) {
    WellFormed(SelectedCandidate(p, s)) && ValidPairs(SelectedCandidate(p, s))
  }

  ghost predicate Accepted(p: Projection, s: Selection) {
    && Checked(p, s)
    && RightAnnotations(p)
    && exists gmo: map<Id, int> :: Allowed(SelectedCandidate(p, s), gmo)
  }

  /** Hints are admissible, operations are placed, and `po` is program order. */
  ghost predicate Projected(p: Projection, po: set<Edge>) {
    UnreservedHints(p) && KnownHintEdges(p) && Placed(p.ops) && po == Po(p.ops)
  }

  lemma OnlySelectionDescribed(p: Projection, s: Selection, po: set<Edge>)
    requires Projected(p, po) && LegalSelection(p, s)
    ensures forall c :: Describes(SelectedGraph(p, s, po), c) ==> c == SelectedCandidate(p, s)
    ensures Checked(p, s) ==> Describes(SelectedGraph(p, s, po), SelectedCandidate(p, s))
  {
    SelectedGraphDescribes(p, s, po);
  }

  /** Checks a graph that describes one candidate. */
  method CheckDescribed(g: Graph, ghost c: Candidate) returns (result: Result<bool>)
    requires g.Valid() && forall d :: Describes(g, d) ==> d == c
    ensures result.Ok? <==> Describes(g, c) && WellFormed(c) && ValidPairs(c)
    ensures result.Ok? ==>
      (result.value <==>
       AmosAreAmos(c.ops) && PairsShareLocation(c.ops, c.inputs.pair) && exists gmo: map<Id, int> :: Allowed(c, gmo))
  {
    var verdict := CheckGraph(g);
    result := if verdict.Ok? then Ok(verdict.value.Allowed()) else Err;
  }

  /** Builds and checks the graph of one selection. */
  method CheckSelection(p: Projection, s: Selection, po: set<Edge>) returns (result: Result<bool>)
    requires Projected(p, po) && LegalSelection(p, s)
    ensures result.Ok? <==> Checked(p, s)
    ensures result.Ok? ==> (result.value <==> Accepted(p, s))
  {
    SelectedGraphIsValid(p, s, po);
    OnlySelectionDescribed(p, s, po);
    result := CheckDescribed(SelectedGraph(p, s, po), SelectedCandidate(p, s));
  }

  lemma VerdictOnTrace(p: Projection, selections: seq<Selection>)
    requires ConsistentHints(p) && selections != [] && forall s :: s in selections <==> LegalSelection(p, s)
    requires AllChecked(p, selections)
    ensures SomeAccepted(p, selections) <==> IsAllowed(p)
  {
    if k :| 0 <= k < |selections| && Accepted(p, selections[k]) {
      assert selections[k] in selections;
      var gmo: map<Id, int> :| Allowed(SelectedCandidate(p, selections[k]), gmo);
      AcceptedSelection(p, selections[k], gmo);
    }
    if IsAllowed(p) {
      var src, gmo :| TraceAllowed(p, src, gmo);
      AllowedTraceIsAccepted(p, selections, src, gmo);
    }
  }

  lemma AllowedTraceIsAccepted(p: Projection, selections: seq<Selection>, src: map<Id, Id>, gmo: map<Id, int>)
    requires ConsistentHints(p) && selections != [] && forall s :: s in selections <==> LegalSelection(p, s)
    requires AllChecked(p, selections)
    requires RightAnnotations(p) && TraceAllowed(p, src, gmo)
    ensures SomeAccepted(p, selections)
  {
    assert selections[0] in selections;
    var s := AllowedHasSelection(p, selections[0], src, gmo);
    assert s in selections;
    var k :| 0 <= k < |selections| && selections[k] == s;
    SelectedCoherenceIsGmo(p, s, gmo);
    assert GmoCandidate(p, src, gmo) == SelectedCandidate(p, s);
    assert Accepted(p, selections[k]);
  }
}
