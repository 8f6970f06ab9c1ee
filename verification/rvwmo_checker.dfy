/** The RVWMO graph checker: validation, PPO derivation, the witness order, and the verdict. */
module RvwmoChecker {
  import opened Common
  import opened Relations
  import opened Execution
  import opened Rvwmo
  import opened RvwmoTheory
  import opened RvwmoCoherence
  import opened Topological

  // ----- Canonical program order

  function Index(ops: Operations, id: Id): int
    requires id in ops && ops[id].programIndex.Some?
  {
    ops[id].programIndex.value
  }

  ghost predicate OnHart(ops: Operations, ids: set<Id>, hart: int) {
    forall id :: id in ids <==> id in ops && ops[id].hart == Some(hart)
  }

  method GroupByHart(ops: Operations) returns (byHart: map<int, set<Id>>)
    ensures forall h :: h in byHart ==> OnHart(ops, byHart[h], h)
    ensures forall id :: id in ops && ops[id].hart.Some? ==> ops[id].hart.value in byHart
  {
    byHart := map[];
    var todo := ops.Keys;
    while todo != {}
      invariant todo <= ops.Keys
      invariant forall h, id :: h in byHart ==>
        (id in byHart[h] <==> id in ops && id !in todo && ops[id].hart == Some(h))
      invariant forall id :: id in ops && id !in todo && ops[id].hart.Some? ==> ops[id].hart.value in byHart
      decreases todo
    {
      var id :| id in todo;
      if ops[id].hart.Some? {
        var h := ops[id].hart.value;
        if h !in byHart {
          byHart := byHart[h := {}];
        }
        byHart := byHart[h := byHart[h] + {id}];
      }
      todo := todo - {id};
    }
  }

  /** One hart's operations by ascending program index. */
  method SortByIndex(ops: Operations, ids: set<Id>) returns (ordered: seq<Id>)
    requires forall id :: id in ids ==> id in ops && ops[id].programIndex.Some?
    ensures Enumerates(ordered, ids)
    ensures forall i, j :: 0 <= i < j < |ordered| ==> Index(ops, ordered[i]) <= Index(ops, ordered[j])
  {
    ordered := [];
    var sorted := Sorted(ids);
    for n := 0 to |sorted|
      invariant Enumerates(ordered, Elements(sorted[..n]))
      invariant forall i :: 0 <= i < |ordered| ==> ordered[i] in ids
      invariant forall i, j :: 0 <= i < j < |ordered| ==> Index(ops, ordered[i]) <= Index(ops, ordered[j])
    {
      var x := sorted[n];
      PrefixElements(sorted, n);
      assert x !in Elements(sorted[..n]);
      ordered := InsertByIndex(ops, ids, ordered, x);
    }
    WholePrefix(sorted);
  }

  method InsertByIndex(ops: Operations, ids: set<Id>, ordered: seq<Id>, x: Id) returns (longer: seq<Id>)
    requires forall id :: id in ids ==> id in ops && ops[id].programIndex.Some?
    requires NoDup(ordered) && x !in ordered && x in ids && forall i :: 0 <= i < |ordered| ==> ordered[i] in ids
    requires forall i, j :: 0 <= i < j < |ordered| ==> Index(ops, ordered[i]) <= Index(ops, ordered[j])
    ensures Enumerates(longer, Elements(ordered) + {x}) && forall i :: 0 <= i < |longer| ==> longer[i] in ids
    ensures forall i, j :: 0 <= i < j < |longer| ==> Index(ops, longer[i]) <= Index(ops, longer[j])
  {
    var k := 0;
    while k < |ordered| && Index(ops, ordered[k]) <= Index(ops, x)
      invariant 0 <= k <= |ordered|
      invariant forall i :: 0 <= i < k ==> Index(ops, ordered[i]) <= Index(ops, x)
    {
      k := k + 1;
    }
    InsertedElements(ordered, k, x);
    InsertedNoDup(ordered, k, x);
    longer := ordered[..k] + [x] + ordered[k..];
    forall i | 0 <= i < |longer|
      ensures longer[i] == if i < k then ordered[i] else if i == k then x else ordered[i - 1]
    {
    }
  }

  /** All ordered pairs of one hart. */
  method PairsInOrder(ordered: seq<Id>) returns (edges: set<Edge>)
    ensures forall a, b :: (a, b) in edges <==>
            exists i, j :: 0 <= i < j < |ordered| && ordered[i] == a && ordered[j] == b
  {
    edges := {};
    for i := 0 to |ordered|
      invariant forall a, b :: (a, b) in edges <==>
                exists k, j :: 0 <= k < j < |ordered| && k < i && ordered[k] == a && ordered[j] == b
    {
      edges := edges + set j | i < j < |ordered| :: (ordered[i], ordered[j]);
    }
  }

  /** The pairs of one hart in index order are its program order. */
  lemma HartPairs(ops: Operations, h: int, ids: set<Id>, ordered: seq<Id>, edges: set<Edge>)
    requires Placed(ops) && OnHart(ops, ids, h) && Enumerates(ordered, ids)
    requires forall i, j :: 0 <= i < j < |ordered| ==>
      ordered[i] in ids && ordered[j] in ids && Index(ops, ordered[i]) < Index(ops, ordered[j])
    requires forall a, b :: (a, b) in edges <==>
             exists i, j :: 0 <= i < j < |ordered| && ordered[i] == a && ordered[j] == b
    ensures forall a, b :: (a, b) in edges <==> PoBefore(ops, a, b) && ops[a].hart == Some(h)
  {
    forall a, b | PoBefore(ops, a, b) && ops[a].hart == Some(h) ensures (a, b) in edges {
      assert a in ids && b in ids;
      var i :| 0 <= i < |ordered| && ordered[i] == a;
      var j :| 0 <= j < |ordered| && ordered[j] == b;
      assert i < j;
    }
  }

  /** No two operations of the hart share an index. */
  ghost predicate DistinctOn(ops: Operations, h: int) {
    forall a, b :: a in ops && b in ops && a != b && ops[a].hart == Some(h) && ops[b].hart == Some(h) ==>
      ops[a].programIndex != ops[b].programIndex
  }

  /** Program order of one hart; an error when two of its operations share an index. */
  method HartOrder(ops: Operations, h: int, ids: set<Id>) returns (pairs: Result<set<Edge>>)
    requires Placed(ops) && OnHart(ops, ids, h)
    ensures pairs.Ok? <==> DistinctOn(ops, h)
    ensures pairs.Ok? ==> forall a, b :: (a, b) in pairs.value <==> PoBefore(ops, a, b) && ops[a].hart == Some(h)
  {
    assert forall id :: id in ids ==> ops[id].Placed();
    var ordered := SortByIndex(ops, ids);
    assert forall i :: 0 <= i < |ordered| ==> ordered[i] in Elements(ordered);
    var indexes := seq(|ordered|, i requires 0 <= i < |ordered| => Index(ops, ordered[i]));
    if !NoDup(indexes) {
      ghost var i, j :| 0 <= i < j < |indexes| && indexes[i] == indexes[j];
      assert ordered[i] != ordered[j] && ordered[i] in ids && ordered[j] in ids;
      return Err;
    }
    var edges := PairsInOrder(ordered);
    forall i, j | 0 <= i < j < |ordered| ensures Index(ops, ordered[i]) < Index(ops, ordered[j]) {
      assert indexes[i] != indexes[j];
    }
    HartPairs(ops, h, ids, ordered, edges);
    DistinctOnHart(ops, h, ids, ordered);
    pairs := Ok(edges);
  }

  /** Program order from hart and program index; an error when two operations of a hart share an index. */
  method CanonicalPo(ops: Operations) returns (po: Result<set<Edge>>)
    requires Placed(ops)
    ensures po.Ok? <==> DistinctIndexes(ops)
    ensures po.Ok? ==> po.value == Po(ops)
  {
    var byHart := GroupByHart(ops);
    var edges: set<Edge> := {};
    var todo := byHart.Keys;
    while todo != {}
      invariant todo <= byHart.Keys
      invariant forall a, b :: (a, b) in edges <==>
        PoBefore(ops, a, b) && ops[a].hart.value in byHart && ops[a].hart.value !in todo
      invariant forall a, b :: a in ops && b in ops && a != b && ops[a].hart.Some? && ops[a].hart == ops[b].hart ==>
        ops[a].hart.value in byHart && (ops[a].hart.value !in todo ==> ops[a].programIndex != ops[b].programIndex)
      decreases todo
    {
      var h :| h in todo;
      var pairs := HartOrder(ops, h, byHart[h]);
      if pairs.Err? { return Err; }
      edges := edges + pairs.value;
      todo := todo - {h};
    }
    forall e ensures e in edges <==> e in Po(ops) {
      assert e == (e.0, e.1);
      assert e in edges <==> PoBefore(ops, e.0, e.1);
    }
    po := Ok(edges);
  }

  lemma DistinctOnHart(ops: Operations, h: int, ids: set<Id>, ordered: seq<Id>)
    requires Placed(ops) && OnHart(ops, ids, h) && Enumerates(ordered, ids)
    requires forall i, j :: 0 <= i < j < |ordered| ==>
      ordered[i] in ids && ordered[j] in ids && Index(ops, ordered[i]) < Index(ops, ordered[j])
    ensures forall a, b :: a in ops && b in ops && a != b && ops[a].hart == Some(h) && ops[b].hart == Some(h) ==>
      ops[a].programIndex != ops[b].programIndex
  {
    forall a, b | a in ids && b in ids && a != b ensures ops[a].programIndex != ops[b].programIndex {
      var i :| 0 <= i < |ordered| && ordered[i] == a;
      var j :| 0 <= j < |ordered| && ordered[j] == b;
      assert i < j || j < i;
    }
  }

  // ----- Validation of locations, rf and co

  /** Compares one operation with the later ones. */
  method CompareRow(ops: Operations, memory: seq<Id>, i: nat) returns (ok: bool)
    requires i < |memory| && forall k :: 0 <= k < |memory| ==> memory[k] in ops
    ensures ok <==> forall j :: i < j < |memory| ==> Comparable(ops[memory[i]], ops[memory[j]])
  {
    for j := i + 1 to |memory|
      invariant forall n :: i < n < j ==> Comparable(ops[memory[i]], ops[memory[n]])
    {
      if !Comparable(ops[memory[i]], ops[memory[j]]) { return false; }
    }
    ok := true;
  }

  lemma IncomparableIsNotScalar(ops: Operations, a: Id, b: Id)
    requires a in ops && b in ops && a != b && !Comparable(ops[a], ops[b])
    ensures !ScalarLocations(ops)
  {
    if Footprint(ops[a]).Err? || Footprint(ops[b]).Err? { CardinalityOfSubset({a, b}, ops.Keys); }
  }

  /** Every pair of operations is compared once. */
  method ValidateScalarLocations(ops: Operations) returns (ok: bool)
    ensures ok <==> ScalarLocations(ops)
  {
    var memory := Sorted(ops.Keys);
    assert forall k :: 0 <= k < |memory| ==> memory[k] in Elements(memory);
    for i := 0 to |memory|
      invariant forall k, j :: 0 <= k < i && k < j < |memory| ==> Comparable(ops[memory[k]], ops[memory[j]])
    {
      ok := CompareRow(ops, memory, i);
      if !ok {
        ghost var j :| i < j < |memory| && !Comparable(ops[memory[i]], ops[memory[j]]);
        IncomparableIsNotScalar(ops, memory[i], memory[j]);
        return;
      }
    }
    ComparedAll(ops, memory);
    ok := true;
  }

  /** Both footprints exist, and they do not overlap partially. */
  predicate Comparable(left: Operation, right: Operation) {
    && Footprint(left).Ok? && Footprint(right).Ok?
    && (Overlap(left, right) ==> SameLocation(left, right))
  }

  lemma ComparedAll(ops: Operations, memory: seq<Id>)
    requires Enumerates(memory, ops.Keys)
    requires forall i, j :: 0 <= i < j < |memory| ==>
      memory[i] in ops && memory[j] in ops && Comparable(ops[memory[i]], ops[memory[j]])
    ensures ScalarLocations(ops)
  {
    EnumerationLength(memory, ops.Keys);
    forall a, b | a in ops && b in ops && a != b
      ensures Footprint(ops[a]).Ok? && (Overlap(ops[a], ops[b]) ==> SameLocation(ops[a], ops[b]))
    {
      assert a in Elements(memory) && b in Elements(memory);
      var i :| 0 <= i < |memory| && memory[i] == a;
      var j :| 0 <= j < |memory| && memory[j] == b;
      assert i < j || j < i;
      assert Overlap(ops[a], ops[b]) <==> Overlap(ops[b], ops[a]);
    }
    if |ops| >= 2 {
      forall a | a in ops ensures Footprint(ops[a]).Ok? {
        assert a in Elements(memory);
        var i :| 0 <= i < |memory| && memory[i] == a;
        var b := memory[if i == 0 then 1 else 0];
        assert b in Elements(memory) && b != a;
      }
    }
  }

  /** Some source assignment makes `rf` its graph. */
  ghost predicate ReadsFrom(ops: Operations, rf: set<Edge>, src: map<Id, Id>) {
    ValidSources(ops, src) && rf == SourceEdges(src)
  }

  /** The source of each read; an error unless every edge is valid and every read has exactly one. */
  method RfSources(ops: Operations, rf: set<Edge>) returns (result: Result<map<Id, Id>>)
    ensures result.Ok? ==> ReadsFrom(ops, rf, result.value)
    ensures result.Err? ==> !exists src :: ReadsFrom(ops, rf, src)
  {
    var incoming: map<Id, set<Id>> := map[];
    var todo := rf;
    while todo != {}
      invariant todo <= rf
      invariant forall e :: e in rf && e !in todo ==> ValidSource(ops, e.0, e.1)
      invariant forall w, r :: (w, r) in rf && (w, r) !in todo <==> r in incoming && w in incoming[r]
      decreases todo
    {
      var e :| e in todo;
      if !ValidSource(ops, e.0, e.1) {
        InvalidEdgeHasNoSources(ops, rf, e);
        return Err;
      }
      incoming := incoming[e.1 := (if e.1 in incoming then incoming[e.1] else {}) + {e.0}];
      todo := todo - {e};
    }
    var src: map<Id, Id> := map[];
    var readIds := set r | r in ops && ops[r].IsRead();
    var left := readIds;
    while left != {}
      invariant left <= readIds
      invariant forall r :: r in src <==> r in readIds && r !in left
      invariant forall r, w :: r in src ==> ((w, r) in rf <==> w == src[r])
      decreases left
    {
      var r :| r in left;
      var sources := if r in incoming then incoming[r] else {};
      if |sources| != 1 {
        WrongCountHasNoSources(ops, rf, r, sources);
        return Err;
      }
      var w :| w in sources;
      assert sources == {w} by { CardinalityOfSubset({w}, sources); }
      src := src[r := w];
      left := left - {r};
    }
    forall e ensures e in rf <==> e in SourceEdges(src) {
      assert e == (e.0, e.1);
      if e in rf { assert ValidSource(ops, e.0, e.1); }
    }
    result := Ok(src);
  }

  lemma InvalidEdgeHasNoSources(ops: Operations, rf: set<Edge>, e: Edge)
    requires e in rf && !ValidSource(ops, e.0, e.1)
    ensures !exists src :: ReadsFrom(ops, rf, src)
  {
  }

  lemma SourcesAreSingle(ops: Operations, rf: set<Edge>, src: map<Id, Id>, r: Id, sources: set<Id>)
    requires ReadsFrom(ops, rf, src) && r in ops && ops[r].IsRead() && forall w :: w in sources <==> (w, r) in rf
    ensures |sources| == 1
  {
    assert r in src;
    assert forall w :: w in sources <==> w in {src[r]};
    assert sources == {src[r]};
  }

  lemma WrongCountHasNoSources(ops: Operations, rf: set<Edge>, r: Id, sources: set<Id>)
    requires r in ops && ops[r].IsRead() && |sources| != 1
    requires forall w :: w in sources <==> (w, r) in rf
    ensures !exists src :: ReadsFrom(ops, rf, src)
  {
    forall src ensures !ReadsFrom(ops, rf, src) {
      if ReadsFrom(ops, rf, src) { SourcesAreSingle(ops, rf, src, r, sources); }
    }
  }

  method EdgesAreCoherent(ops: Operations, co: set<Edge>) returns (ok: bool)
    ensures ok <==> forall e :: e in co ==> CoherentWrites(ops, e.0, e.1)
  {
    var todo := co;
    while todo != {}
      invariant todo <= co && forall e :: e in co && e !in todo ==> CoherentWrites(ops, e.0, e.1)
      decreases todo
    {
      var e :| e in todo;
      if !CoherentWrites(ops, e.0, e.1) { return false; }
      todo := todo - {e};
    }
    ok := true;
  }

  /** Compares one write with the later ones. */
  method DirectRow(ops: Operations, co: set<Edge>, writes: seq<Id>, i: nat) returns (ok: bool)
    requires i < |writes| && forall k :: 0 <= k < |writes| ==> writes[k] in ops
    ensures ok <==> forall j :: i < j < |writes| ==> OneDirection(ops, co, writes[i], writes[j])
  {
    for j := i + 1 to |writes|
      invariant forall n :: i < n < j ==> OneDirection(ops, co, writes[i], writes[n])
    {
      if !OneDirection(ops, co, writes[i], writes[j]) { return false; }
    }
    ok := true;
  }

  /** Each pair of same-location writes is ordered in exactly one direction. */
  ghost predicate CoIsTotal(ops: Operations, co: set<Edge>) {
    forall a, b :: CoherentWrites(ops, a, b) ==> ((a, b) in co <==> (b, a) !in co)
  }

  method WritesAreDirected(ops: Operations, co: set<Edge>, writes: seq<Id>) returns (ok: bool)
    requires Enumerates(writes, set w | w in ops && ops[w].IsWrite())
    ensures ok <==> CoIsTotal(ops, co)
  {
    forall k | 0 <= k < |writes|
      ensures writes[k] in ops && ops[writes[k]].IsWrite()
    {
      assert writes[k] in Elements(writes);
    }
    for i := 0 to |writes|
      invariant forall k, j :: 0 <= k < i && k < j < |writes| ==> OneDirection(ops, co, writes[k], writes[j])
    {
      ok := DirectRow(ops, co, writes, i);
      if !ok {
        ghost var j :| i < j < |writes| && !OneDirection(ops, co, writes[i], writes[j]);
        assert CoherentWrites(ops, writes[i], writes[j]);
        return;
      }
    }
    AllDirections(ops, co, writes);
    ok := true;
  }

  /** co is a total order on the writes of each location with the initial write first. */
  method ValidateCo(ops: Operations, co: set<Edge>) returns (ok: bool)
    ensures ok <==> ValidCoherence(ops, co)
  {
    ok := EdgesAreCoherent(ops, co);
    if !ok { return; }
    var writes := Sorted(set w | w in ops && ops[w].IsWrite());
    ok := WritesAreDirected(ops, co, writes);
    if !ok { return; }
    var cycle := FindLabeledCycle([Relation("co", co)]);
    assert Union([Relation("co", co)]) == co;
    if cycle.Some? { return false; }
    assert forall w :: w in writes <==> w in Elements(writes);
    ok := forall init, w | init in writes && w in writes ::
            ops[init].kind == InitWrite && CoherentWrites(ops, init, w) ==> (init, w) in co;
    assert forall a, b :: CoherentWrites(ops, a, b) ==> a in writes && b in writes;
  }

  /** Same-location writes are ordered in exactly one direction. */
  predicate OneDirection(ops: Operations, co: set<Edge>, a: Id, b: Id)
    requires a in ops && b in ops
  {
    SameLocation(ops[a], ops[b]) ==> ((a, b) in co <==> (b, a) !in co)
  }

  lemma AllDirections(ops: Operations, co: set<Edge>, writes: seq<Id>)
    requires Enumerates(writes, set w | w in ops && ops[w].IsWrite())
    requires forall i, j :: 0 <= i < j < |writes| ==>
      writes[i] in ops && writes[j] in ops && OneDirection(ops, co, writes[i], writes[j])
    ensures forall a, b :: CoherentWrites(ops, a, b) ==> ((a, b) in co <==> (b, a) !in co)
  {
    forall a, b | CoherentWrites(ops, a, b) ensures (a, b) in co <==> (b, a) !in co {
      assert a in Elements(writes) && b in Elements(writes);
      var i :| 0 <= i < |writes| && writes[i] == a;
      var j :| 0 <= j < |writes| && writes[j] == b;
      assert i < j || j < i;
      assert if i < j then OneDirection(ops, co, a, b) else OneDirection(ops, co, b, a);
    }
  }

  // ----- Preserved program order

  /** `middle` lies between `source` and `target` on one hart. */
  predicate Between(ops: Operations, source: Id, middle: Id, target: Id)
    requires source in ops && middle in ops && target in ops
  {
    && ops[source].hart.Some?
    && ops[source].hart == ops[middle].hart == ops[target].hart
    && ops[source].programIndex.Some? && ops[middle].programIndex.Some? && ops[target].programIndex.Some?
    && ops[source].programIndex.value < ops[middle].programIndex.value < ops[target].programIndex.value
  }

  /** Rule 2 as it is computed: no store between the loads touches any byte they share. */
  predicate SameByteLoads(c: Candidate, a: Id, b: Id)
    requires a in c.ops && b in c.ops
  {
    && c.ops[a].IsRead() && c.ops[b].IsRead() && Overlap(c.ops[a], c.ops[b])
    && (var common := Location(c.ops[a]) * Location(c.ops[b]);
        !exists m | m in c.ops ::
          c.ops[m].IsWrite() && Between(c.ops, a, m, b) && common * Location(c.ops[m]) != {})
    && a in c.src && b in c.src && c.src[a] != c.src[b]
  }

  /** It agrees with the rule's per-byte wording because locations are scalar. */
  lemma SameByteLoadsIsRuleTwo(c: Candidate, a: Id, b: Id)
    requires ScalarLocations(c.ops) && PoBefore(c.ops, a, b)
    ensures SameByteLoads(c, a, b) <==> PpoRule(c, 2, a, b)
  {
    var common := Location(c.ops[a]) * Location(c.ops[b]);
    if SameByteLoads(c, a, b) {
      var x :| x in common;
      forall m | PoBefore(c.ops, a, m) && PoBefore(c.ops, m, b) && c.ops[m].IsWrite() ensures x !in Location(c.ops[m]) {
        assert Between(c.ops, a, m, b);
        assert x !in common * Location(c.ops[m]);
      }
      assert !StoreBetween(c, a, b, x);
    }
    if PpoRule(c, 2, a, b) {
      var x :| x in Location(c.ops[a]) && x in Location(c.ops[b]) && !StoreBetween(c, a, b, x);
      assert x in common;
      forall m | m in c.ops && c.ops[m].IsWrite() && Between(c.ops, a, m, b)
        ensures common * Location(c.ops[m]) == {}
      {
        assert x !in Location(c.ops[m]);
        assert a != m && !SameLocation(c.ops[a], c.ops[m]);
        assert Location(c.ops[a]) * Location(c.ops[m]) == {};
      }
    }
  }

  /** Rule 12 as it is computed: a scan for the forwarding store. */
  predicate ForwardedFromDependentStore(c: Candidate, a: Id, b: Id)
    requires a in c.ops && b in c.ops
  {
    && c.ops[b].IsRead()
    && exists m | m in c.ops ::
         && c.ops[m].IsWrite() && Between(c.ops, a, m, b) && b in c.src && c.src[b] == m
         && ((a, m) in c.inputs.addr || (a, m) in c.inputs.data)
  }

  /** Rule 13 as it is computed: a pipeline hint, or a scan for the dependent operation. */
  predicate AddressThroughMiddle(c: Candidate, a: Id, b: Id)
    requires a in c.ops && b in c.ops
  {
    && c.ops[b].IsWrite()
    && ((a, b) in c.inputs.pipeline
        || exists m | m in c.ops :: Between(c.ops, a, m, b) && (a, m) in c.inputs.addr)
  }

  lemma ForwardedIsRuleTwelve(c: Candidate, a: Id, b: Id)
    requires PoBefore(c.ops, a, b)
    ensures ForwardedFromDependentStore(c, a, b) <==> PpoRule(c, 12, a, b)
  {
    if PpoRule(c, 12, a, b) {
      assert Between(c.ops, a, c.src[b], b);
    }
  }

  lemma AddressThroughMiddleIsRuleThirteen(c: Candidate, a: Id, b: Id)
    requires PoBefore(c.ops, a, b)
    ensures AddressThroughMiddle(c, a, b) <==> PpoRule(c, 13, a, b)
  {
    if PpoRule(c, 13, a, b) && (a, b) !in c.inputs.pipeline {
      var m :| (a, m) in c.inputs.addr && PoBefore(c.ops, a, m) && PoBefore(c.ops, m, b);
      assert Between(c.ops, a, m, b);
    }
  }

  /** Which of the thirteen rules order one program-order edge, in the form the derivation computes them. */
  function Computed(c: Candidate, k: int, a: Id, b: Id): bool
    requires a in c.ops && b in c.ops
  {
    if k == 1 then c.ops[b].IsWrite() && Overlap(c.ops[a], c.ops[b])
    else if k == 2 then SameByteLoads(c, a, b)
    else if k == 3 then
      c.ops[a].AtomicKind() in {"amo", "sc"} && c.ops[b].IsRead() && b in c.src && c.src[b] == a
    else if k == 4 then (a, b) in c.inputs.fence
    else if k == 5 then c.ops[a].IsAcquire()
    else if k == 6 then c.ops[b].IsRelease()
    else if k == 7 then c.ops[a].IsRcsc() && c.ops[b].IsRcsc()
    else if k == 8 then (a, b) in c.inputs.pair
    else if k == 9 then (a, b) in c.inputs.addr
    else if k == 10 then c.ops[b].IsWrite() && (a, b) in c.inputs.data
    else if k == 11 then c.ops[b].IsWrite() && (a, b) in c.inputs.ctrl
    else if k == 12 then ForwardedFromDependentStore(c, a, b)
    else k == 13 && AddressThroughMiddle(c, a, b)
  }

  /** The derivation computes the rules of the standard, as the candidate supplies their inputs. */
  lemma ComputedIsRule(c: Candidate, k: int, a: Id, b: Id)
    requires ScalarLocations(c.ops) && PoBefore(c.ops, a, b)
    ensures Computed(c, k, a, b) <==> PpoRule(c, k, a, b)
  {
    if k == 2 {
      SameByteLoadsIsRuleTwo(c, a, b);
    } else if k == 12 {
      ForwardedIsRuleTwelve(c, a, b);
    } else if k == 13 {
      AddressThroughMiddleIsRuleThirteen(c, a, b);
    } else {
      OtherRulesAgree(c, k, a, b);
    }
  }

  lemma OtherRulesAgree(c: Candidate, k: int, a: Id, b: Id)
    requires PoBefore(c.ops, a, b) && k !in {2, 12, 13}
    ensures Computed(c, k, a, b) <==> PpoRule(c, k, a, b)
  {
  }

  /** Adds one program-order edge to the relations of the rules that order it. */
  method AddEdge(c: Candidate, e: Edge, rules: seq<set<Edge>>, ghost spec: seq<set<Edge>>)
    returns (more: seq<set<Edge>>)
    requires ScalarLocations(c.ops) && PoBefore(c.ops, e.0, e.1)
    requires |rules| == |spec| == 13 && forall k :: 0 <= k < 13 ==> spec[k] == PpoRuleEdges(c, k + 1)
    ensures |more| == 13
    ensures forall k :: 0 <= k < 13 ==> more[k] == rules[k] + if e in spec[k] then {e} else {}
  {
    more := [];
    for k := 0 to 13
      invariant |more| == k
      invariant forall i :: 0 <= i < k ==> more[i] == rules[i] + if e in spec[i] then {e} else {}
    {
      ComputedIsRule(c, k + 1, e.0, e.1);
      assert e in spec[k] <==> Computed(c, k + 1, e.0, e.1);
      more := more + [if Computed(c, k + 1, e.0, e.1) then rules[k] + {e} else rules[k]];
    }
  }

  /** The thirteen rule relations over the program-order edges. */
  method DerivePpo(c: Candidate, po: set<Edge>) returns (result: Result<seq<set<Edge>>>)
    requires ScalarLocations(c.ops) && po == Po(c.ops)
    requires forall a :: a in c.ops ==> c.ops[a].IsRegular()
    ensures result.Ok? <==> ValidInputs(c.ops, c.inputs)
    ensures result.Ok? ==> |result.value| == 13
    ensures result.Ok? ==> forall k :: 0 <= k < 13 ==> result.value[k] == PpoRuleEdges(c, k + 1)
  {
    if !(c.inputs.addr + c.inputs.data + c.inputs.ctrl + c.inputs.fence + c.inputs.pair + c.inputs.pipeline <= po) {
      return Err;
    }
    ghost var spec := RuleEdges(c, po);
    var rules := CollectRules(c, po, spec);
    result := Ok(rules);
  }

  lemma RuleEdges(c: Candidate, po: set<Edge>) returns (spec: seq<set<Edge>>)
    requires po == Po(c.ops)
    ensures |spec| == 13 && forall k :: 0 <= k < 13 ==> spec[k] == PpoRuleEdges(c, k + 1) && spec[k] <= po
  {
    spec := seq(13, k => PpoRuleEdges(c, k + 1));
  }

  lemma DoneStep(spec: set<Edge>, todo: set<Edge>, e: Edge)
    requires e in todo
    ensures (spec - todo) + (if e in spec then {e} else {}) == spec - (todo - {e})
  {
  }

  /** The loop over the program-order edges. */
  method CollectRules(c: Candidate, po: set<Edge>, ghost spec: seq<set<Edge>>) returns (rules: seq<set<Edge>>)
    requires ScalarLocations(c.ops) && po == Po(c.ops)
    requires forall a :: a in c.ops ==> c.ops[a].IsRegular()
    requires |spec| == 13 && forall k :: 0 <= k < 13 ==> spec[k] == PpoRuleEdges(c, k + 1) && spec[k] <= po
    ensures |rules| == 13 && forall k :: 0 <= k < 13 ==> rules[k] == spec[k]
  {
    rules := seq(13, i => {});
    var todo := po;
    assert forall k :: 0 <= k < 13 ==> spec[k] - todo == {};
    while todo != {}
      invariant todo <= po && |rules| == 13
      invariant forall k :: 0 <= k < 13 ==> rules[k] == spec[k] - todo
      decreases todo
    {
      var e :| e in todo;
      if c.ops[e.0].IsRegular() && c.ops[e.1].IsRegular() {
        rules := AddEdge(c, e, rules, spec);
      }
      forall k | 0 <= k < 13 ensures rules[k] == spec[k] - (todo - {e}) {
        DoneStep(spec[k], todo, e);
      }
      todo := todo - {e};
    }
    assert forall k :: 0 <= k < 13 ==> spec[k] - todo == spec[k];
  }

  /** The union of the rule relations is preserved program order. */
  lemma RulesFormPpo(c: Candidate, rules: seq<set<Edge>>)
    requires |rules| == 13 && forall k :: 0 <= k < 13 ==> rules[k] == PpoRuleEdges(c, k + 1)
    ensures (set k, e | 0 <= k < 13 && e in rules[k] :: e) == Ppo(c)
  {
    var union := set k, e | 0 <= k < 13 && e in rules[k] :: e;
    forall e ensures e in union <==> e in Ppo(c) {
      if e in Ppo(c) {
        var k :| 1 <= k <= 13 && PpoRule(c, k, e.0, e.1);
        assert e in rules[k - 1];
      }
    }
  }

  // ----- Offences

  /** The visible write that is latest in the witness order, if any is visible. */
  method LatestVisible(c: Candidate, po: set<Edge>, position: map<Id, int>, read: Id) returns (latest: Option<Id>)
    requires position.Keys == c.ops.Keys && po == Po(c.ops) && read in c.ops
    ensures latest.None? ==> forall w :: !Visible(c, position, w, read)
    ensures latest.Some? ==> Visible(c, position, latest.value, read)
    ensures latest.Some? ==> forall w :: w in c.ops && Visible(c, position, w, read) ==>
      position[w] <= position[latest.value]
  {
    latest := None;
    var todo := c.ops.Keys;
    while todo != {}
      invariant todo <= c.ops.Keys
      invariant latest.None? ==> forall w :: w in c.ops && w !in todo ==> !Visible(c, position, w, read)
      invariant latest.Some? ==> Visible(c, position, latest.value, read)
      invariant latest.Some? ==> forall w :: w in c.ops && w !in todo && Visible(c, position, w, read) ==>
        position[w] <= position[latest.value]
      decreases todo
    {
      var w :| w in todo;
      todo := todo - {w};
      if c.ops[w].IsWrite() && w != read && SameLocation(c.ops[w], c.ops[read])
         && (position[w] < position[read] || (w, read) in po) {
        if latest.None? || position[latest.value] < position[w] { latest := Some(w); }
      }
    }
  }

  lemma LatestDecides(c: Candidate, position: map<Id, int>, r: Id, latest: Option<Id>)
    requires ValidSources(c.ops, c.src) && TotalOrder(position, c.ops) && r in c.src
    requires latest.None? ==> forall w :: !Visible(c, position, w, r)
    requires latest.Some? ==> Visible(c, position, latest.value, r)
    requires latest.Some? ==> forall w :: w in c.ops && Visible(c, position, w, r) ==>
      position[w] <= position[latest.value]
    ensures latest == Some(c.src[r]) <==> LoadValue(c, position, r)
  {
  }

  /** The reads among `ids` whose source is not the latest visible write, each with its source. */
  ghost function OffencesAmong(c: Candidate, position: map<Id, int>, ids: set<Id>): set<Edge>
    requires ValidSources(c.ops, c.src) && TotalOrder(position, c.ops)
  {
    set r | r in ids && r in c.src && !LoadValue(c, position, r) :: (c.src[r], r)
  }

  lemma OffencesGrow(c: Candidate, position: map<Id, int>, ids: set<Id>, r: Id)
    requires ValidSources(c.ops, c.src) && TotalOrder(position, c.ops) && r in c.src
    ensures OffencesAmong(c, position, ids + {r})
         == OffencesAmong(c, position, ids) + if LoadValue(c, position, r) then {} else {(c.src[r], r)}
  {
  }

  /** The reads whose source is not the latest visible write. */
  method LoadValueOffences(c: Candidate, po: set<Edge>, position: map<Id, int>) returns (offences: set<Edge>)
    requires ValidSources(c.ops, c.src) && TotalOrder(position, c.ops) && po == Po(c.ops)
    ensures offences == OffencesAmong(c, position, c.src.Keys)
  {
    offences := {};
    var todo := c.src.Keys;
    while todo != {}
      invariant todo <= c.src.Keys && offences == OffencesAmong(c, position, c.src.Keys - todo)
      decreases todo
    {
      var r :| r in todo;
      var latest := LatestVisible(c, po, position, r);
      LatestDecides(c, position, r, latest);
      OffencesGrow(c, position, c.src.Keys - todo, r);
      assert c.src.Keys - (todo - {r}) == c.src.Keys - todo + {r};
      if latest != Some(c.src[r]) { offences := offences + {(c.src[r], r)}; }
      todo := todo - {r};
    }
  }

  /** The operations among `ids` that are annotated as AMOs without being AMOs, each as a loop. */
  ghost function Mislabelled(c: Candidate, ids: set<Id>): set<Edge> {
    set a | a in ids && a in c.ops && c.ops[a].AtomicKind() == "amo" && c.ops[a].kind != Amo :: (a, a)
  }

  /** The AMOs among `ids` that do not read their immediate coherence predecessor, each with its source. */
  ghost function Interrupted(c: Candidate, ids: set<Id>): set<Edge>
    requires ValidSources(c.ops, c.src)
  {
    set a | a in ids && a in c.ops && c.ops[a].kind == Amo && !ImmediatePredecessor(c, c.src[a], a) :: (c.src[a], a)
  }

  /** Some write of the location of the AMO lies between its source and itself. */
  lemma InterveningWrite(c: Candidate, a: Id)
    requires ValidSources(c.ops, c.src) && ValidCoherence(c.ops, c.co) && a in c.src && (c.src[a], a) in c.co
    ensures (exists w :: w in c.ops && c.ops[w].IsWrite() && w != c.src[a] && w != a
                         && SameLocation(c.ops[w], c.ops[a]) && (c.src[a], w) in c.co && (w, a) in c.co)
            <==> !ImmediatePredecessor(c, c.src[a], a)
  {
    assert forall w :: (w, a) in c.co ==> CoherentWrites(c.ops, w, a);
    assert forall w :: (c.src[a], w) in c.co ==> CoherentWrites(c.ops, c.src[a], w);
  }

  lemma OneMoreAmo(c: Candidate, ids: set<Id>, a: Id)
    requires ValidSources(c.ops, c.src) && a in c.ops
    ensures Mislabelled(c, ids + {a}) + Interrupted(c, ids + {a})
         == Mislabelled(c, ids) + Interrupted(c, ids) + Mislabelled(c, {a}) + Interrupted(c, {a})
    ensures c.ops[a].kind == Amo ==>
      Interrupted(c, {a}) == if ImmediatePredecessor(c, c.src[a], a) then {} else {(c.src[a], a)}
    ensures c.ops[a].kind == Amo ==> Mislabelled(c, {a}) == {}
    ensures c.ops[a].kind != Amo ==> Interrupted(c, {a}) == {}
    ensures c.ops[a].kind != Amo ==> Mislabelled(c, {a}) == if c.ops[a].AtomicKind() == "amo" then {(a, a)} else {}
  {
  }

  /** AMOs that do not read from their immediate coherence predecessor, and operations mislabelled as AMOs. */
  method AmoOffences(c: Candidate) returns (offences: set<Edge>)
    requires ValidSources(c.ops, c.src) && ValidCoherence(c.ops, c.co)
    ensures offences == Mislabelled(c, c.ops.Keys) + Interrupted(c, c.ops.Keys)
  {
    offences := {};
    var todo := c.ops.Keys;
    while todo != {}
      invariant todo <= c.ops.Keys
      invariant offences == Mislabelled(c, c.ops.Keys - todo) + Interrupted(c, c.ops.Keys - todo)
      decreases todo
    {
      var a :| a in todo;
      OneMoreAmo(c, c.ops.Keys - todo, a);
      assert c.ops.Keys - (todo - {a}) == c.ops.Keys - todo + {a};
      todo := todo - {a};
      if c.ops[a].AtomicKind() == "amo" {
        var offends := AmoOffends(c, a);
        if !(c.ops[a].IsRead() && c.ops[a].IsWrite()) {
          offences := offences + {(a, a)};
        } else if offends {
          offences := offences + {(c.src[a], a)};
        }
      }
    }
  }

  /** Whether an operation that reads and writes does not read its immediate coherence predecessor. */
  method AmoOffends(c: Candidate, a: Id) returns (offends: bool)
    requires ValidSources(c.ops, c.src) && ValidCoherence(c.ops, c.co) && a in c.ops
    ensures c.ops[a].kind == Amo ==> (offends <==> !ImmediatePredecessor(c, c.src[a], a))
  {
    if a !in c.src { return false; }
    if (c.src[a], a) !in c.co { return true; }
    InterveningWrite(c, a);
    offends := exists w | w in c.ops ::
      && c.ops[w].IsWrite() && w != c.src[a] && w != a && SameLocation(c.ops[w], c.ops[a])
      && (c.src[a], w) in c.co && (w, a) in c.co;
  }

  lemma NoAmoOffence(c: Candidate)
    requires ValidSources(c.ops, c.src)
    ensures Mislabelled(c, c.ops.Keys) + Interrupted(c, c.ops.Keys) == {} <==>
            AmosAreAmos(c.ops)
            && forall a :: a in c.ops && c.ops[a].kind == Amo ==> a in c.src && ImmediatePredecessor(c, c.src[a], a)
  {
    if Mislabelled(c, c.ops.Keys) + Interrupted(c, c.ops.Keys) == {} {
      forall a | a in c.ops
        ensures c.ops[a].AtomicKind() == "amo" ==> c.ops[a].kind == Amo
        ensures c.ops[a].kind == Amo ==> a in c.src && ImmediatePredecessor(c, c.src[a], a)
      {
        assert (a, a) !in Mislabelled(c, c.ops.Keys);
        if c.ops[a].kind == Amo { assert (c.src[a], a) !in Interrupted(c, c.ops.Keys); }
      }
    }
  }

  predicate StoreIntervenes(c: Candidate, lr: Id, sc: Id, w: Id)
    requires lr in c.ops && lr in c.src && w in c.ops
    ensures ValidSources(c.ops, c.src) && sc in c.ops ==>
      (StoreIntervenes(c, lr, sc, w) <==> IntervenesInCo(c, lr, sc, w))
  {
    && c.ops[w].IsWrite() && w != c.src[lr] && w != sc && c.ops[w].hart != c.ops[lr].hart
    && Overlap(c.ops[w], c.ops[lr]) && (c.src[lr], w) in c.co && (w, sc) in c.co
  }

  /** One pair edge: an error unless it joins an LR to an SC, otherwise whether the pair is not atomic. */
  method PairOffends(c: Candidate, e: Edge) returns (result: Result<bool>)
    requires ValidSources(c.ops, c.src) && e.0 in c.ops && e.1 in c.ops
    ensures result.Ok? <==> c.ops[e.0].AtomicKind() == "lr" && c.ops[e.1].AtomicKind() == "sc" && c.ops[e.0].IsRead()
    ensures result.Ok? ==> e.0 in c.src && (result.value <==> !LrScByCoherence(c, e.0, e.1))
  {
    if c.ops[e.0].AtomicKind() != "lr" || c.ops[e.1].AtomicKind() != "sc" || !c.ops[e.0].IsRead() { return Err; }
    var source := c.src[e.0];
    if (source, e.1) !in c.co { return Ok(true); }
    result := Ok(exists w | w in c.ops :: StoreIntervenes(c, e.0, e.1, w));
  }

  ghost predicate PairJoins(c: Candidate, e: Edge) {
    && e.0 in c.ops && e.1 in c.ops
    && c.ops[e.0].AtomicKind() == "lr" && c.ops[e.1].AtomicKind() == "sc" && c.ops[e.0].IsRead()
  }

  ghost predicate PairAtomic(c: Candidate, e: Edge)
    requires ValidSources(c.ops, c.src)
  {
    e.0 in c.src && e.1 in c.ops && LrScByCoherence(c, e.0, e.1)
  }

  /** SCs that are not paired exactly once, each as a loop. */
  ghost function Unpaired(c: Candidate): set<Edge> {
    set s | s in c.ops && c.ops[s].AtomicKind() == "sc" && |set e | e in c.inputs.pair && e.1 == s| != 1 :: (s, s)
  }

  /** The pairs among `pairs` that are not atomic in coherence order. */
  ghost function Broken(c: Candidate, pairs: set<Edge>): set<Edge>
    requires ValidSources(c.ops, c.src)
  {
    set e | e in pairs && !PairAtomic(c, e)
  }

  /** Unpaired SCs and pairs with an external store in between; an error unless the pair relation joins LRs to SCs. */
  method LrScOffences(c: Candidate) returns (result: Result<set<Edge>>)
    requires ValidSources(c.ops, c.src)
    requires forall e :: e in c.inputs.pair ==> e.0 in c.ops && e.1 in c.ops
    ensures result.Ok? <==> ValidPairs(c)
    ensures result.Ok? ==> result.value == Broken(c, c.inputs.pair) + Unpaired(c)
  {
    if exists e, f | e in c.inputs.pair && f in c.inputs.pair :: e.0 == f.0 && e != f { return Err; }
    var pairs := c.inputs.pair;
    var offences: set<Edge> := {};
    while pairs != {}
      invariant pairs <= c.inputs.pair
      invariant forall e :: e in c.inputs.pair - pairs ==> PairJoins(c, e)
      invariant offences == Broken(c, c.inputs.pair - pairs)
      decreases pairs
    {
      var e :| e in pairs;
      var offends := PairOffends(c, e);
      if offends.Err? { return Err; }
      if offends.value { offences := offences + {e}; }
      assert c.inputs.pair - (pairs - {e}) == (c.inputs.pair - pairs) + {e};
      pairs := pairs - {e};
    }
    assert c.inputs.pair - pairs == c.inputs.pair;
    var unpaired := set s | s in c.ops && c.ops[s].AtomicKind() == "sc"
                            && |set e | e in c.inputs.pair && e.1 == s| != 1 :: (s, s);
    result := Ok(offences + unpaired);
  }

  lemma NoLrScOffence(c: Candidate)
    requires ValidSources(c.ops, c.src) && ValidPairs(c)
    ensures Broken(c, c.inputs.pair) + Unpaired(c) == {} <==>
            ScsPaired(c) && forall e :: e in c.inputs.pair ==> LrScByCoherence(c, e.0, e.1)
  {
    UnpairedIsScsPaired(c);
    forall e | e in c.inputs.pair ensures e !in Broken(c, c.inputs.pair) <==> LrScByCoherence(c, e.0, e.1) {
    }
  }

  lemma UnpairedIsScsPaired(c: Candidate)
    requires ValidPairs(c)
    ensures Unpaired(c) == {} <==> ScsPaired(c)
  {
    var unpaired := Unpaired(c);
    if unpaired == {} {
      forall s | s in c.ops && c.ops[s].AtomicKind() == "sc"
        ensures s in set e | e in c.inputs.pair :: e.1
        ensures forall e, f :: e in c.inputs.pair && f in c.inputs.pair && e.1 == s && f.1 == s ==> e == f
      {
        var incoming := set e | e in c.inputs.pair && e.1 == s;
        assert (s, s) !in unpaired;
        var e :| e in incoming;
        CardinalityOfSubset({e}, incoming);
        assert forall f :: f in c.inputs.pair && f.1 == s ==> f in incoming;
      }
    }
    if ScsPaired(c) {
      forall s | s in c.ops && c.ops[s].AtomicKind() == "sc" ensures |set e | e in c.inputs.pair && e.1 == s| == 1 {
        var e :| e in c.inputs.pair && e.1 == s;
        assert (set f | f in c.inputs.pair && f.1 == s) == {e};
      }
    }
  }

  // ----- Checking one graph

  datatype Verdict = Verdict(cycle: Option<seq<LabeledEdge>>, loadValue: set<Edge>, amo: set<Edge>, lrSc: set<Edge>)
  {
    /** All outcomes are satisfied. */
    predicate Allowed() { cycle.None? && loadValue == {} && amo == {} && lrSc == {} }
  }

  function InputsOf(g: Graph): Inputs {
    InputsFrom(g.relations)
  }

  /** `c` is the candidate that the graph describes. */
  ghost predicate Describes(g: Graph, c: Candidate) {
    && g.operations == c.ops
    && "rf" in g.relations && ReadsFrom(c.ops, g.relations["rf"], c.src)
    && "co" in g.relations && g.relations["co"] == c.co
    && ("po" in g.relations ==> g.relations["po"] == Po(c.ops))
    && c.inputs == InputsOf(g)
  }

  /** The graph passes every validation of its operations, po, rf and co. */
  ghost predicate Validates(g: Graph) {
    && ValidOperations(g.operations)
    && ("po" in g.relations ==> g.relations["po"] == Po(g.operations))
    && "rf" in g.relations && (exists src :: ReadsFrom(g.operations, g.relations["rf"], src))
    && "co" in g.relations && ValidCoherence(g.operations, g.relations["co"])
  }

  /** Validates the graph and reads off its candidate and program order. */
  method ValidateGraph(g: Graph) returns (result: Result<(Candidate, set<Edge>)>)
    requires g.Valid()
    ensures result.Ok? <==> Validates(g)
    ensures result.Ok? ==> Describes(g, result.value.0) && result.value.1 == Po(g.operations)
  {
    var ops := g.operations;
    if exists a | a in ops :: !ops[a].IsRegular() { return Err; }
    var scalar := ValidateScalarLocations(ops);
    if !scalar { return Err; }
    var po := CanonicalPo(ops);
    if po.Err? { return Err; }
    if "po" in g.relations && g.relations["po"] != po.value { return Err; }
    if "rf" !in g.relations || "co" !in g.relations { return Err; }
    var src := RfSources(ops, g.relations["rf"]);
    if src.Err? { return Err; }
    var coherent := ValidateCo(ops, g.relations["co"]);
    if !coherent { return Err; }
    result := Ok((Candidate(ops, src.value, g.relations["co"], InputsOf(g)), po.value));
  }

  lemma DescribedCandidateIsUnique(g: Graph, c: Candidate, d: Candidate)
    requires Describes(g, c) && Describes(g, d)
    ensures c == d
  {
    forall r | r in c.src ensures r in d.src && c.src[r] == d.src[r] {
      assert (c.src[r], r) in g.relations["rf"];
    }
    assert c.src.Keys == d.src.Keys;
  }

  lemma DescribedIsWellFormed(g: Graph, c: Candidate)
    requires Describes(g, c)
    ensures Validates(g) && ValidInputs(c.ops, c.inputs) <==> WellFormed(c)
  {
  }

  /** The four relations with the names that a cycle reports. */
  ghost function NamedOrder(c: Candidate): seq<Relation>
    requires ValidSources(c.ops, c.src)
  {
    [Relation("ppo", Ppo(c)), Relation("rfe", Rfe(c)), Relation("co", c.co), Relation("fr", Fr(c))]
  }

  /** The relations whose union must be acyclic, in the order in which a cycle names them. */
  method OrderRelations(c: Candidate, po: set<Edge>) returns (result: Result<seq<Relation>>)
    requires ValidOperations(c.ops) && ValidSources(c.ops, c.src) && po == Po(c.ops)
    ensures result.Ok? <==> ValidInputs(c.ops, c.inputs)
    ensures result.Ok? ==> result.value == NamedOrder(c) && Union(result.value) == Order(c)
  {
    var rules := DerivePpo(c, po);
    if rules.Err? { return Err; }
    RulesFormPpo(c, rules.value);
    var ppo := set k, e | 0 <= k < 13 && e in rules.value[k] :: e;
    var rfe := set r | r in c.src && c.ops[c.src[r]].hart != c.ops[r].hart :: (c.src[r], r);
    var fr := set r, e | r in c.src && e in c.co && e.0 == c.src[r] && e.1 != r :: (r, e.1);
    var relations := [Relation("ppo", ppo), Relation("rfe", rfe), Relation("co", c.co), Relation("fr", fr)];
    UnionOfFour(relations);
    result := Ok(relations);
  }

  lemma UnionOfFour(relations: seq<Relation>)
    requires |relations| == 4
    ensures Union(relations) == relations[0].edges + relations[1].edges + relations[2].edges + relations[3].edges
  {
    assert forall r :: r in relations <==>
      r == relations[0] || r == relations[1] || r == relations[2] || r == relations[3];
  }

  lemma OrderStaysInside(c: Candidate)
    requires WellFormed(c)
    ensures Nodes(Order(c)) <= c.ops.Keys
  {
    forall e | e in Order(c) ensures e.0 in c.ops && e.1 in c.ops {
      if e in c.co { assert CoherentWrites(c.ops, e.0, e.1); }
      if e in Rfe(c) || e in Fr(c) {
        forall r | r in c.src ensures c.src[r] in c.ops { assert ValidSource(c.ops, c.src[r], r); }
        forall f | f in c.co ensures f.1 in c.ops { assert CoherentWrites(c.ops, f.0, f.1); }
      }
    }
  }

  /** The offending reads in po, rf and co alone, each with its source; none is reported beside a cycle. */
  ghost function StaleReads(c: Candidate): set<Edge>
    requires ValidSources(c.ops, c.src)
  {
    if Acyclic(Order(c)) then set r | r in c.src && StaleOrFuture(c, r) :: (c.src[r], r) else {}
  }

  /** What each outcome of the check reports. */
  ghost predicate Outcomes(c: Candidate, v: Verdict)
    requires ValidSources(c.ops, c.src)
  {
    && (v.cycle.None? <==> Acyclic(Order(c)))
    && (v.cycle.Some? ==> IsLabeledCycle(NamedOrder(c), v.cycle.value))
    && v.loadValue == StaleReads(c)
    && v.amo == Mislabelled(c, c.ops.Keys) + Interrupted(c, c.ops.Keys)
    && v.lrSc == Broken(c, c.inputs.pair) + Unpaired(c)
  }

  /** The offences against one picked order are the offences in po, rf and co. */
  lemma PickedOffences(c: Candidate, picked: map<Id, int>)
    requires WellFormed(c) && TotalOrder(picked, c.ops) && Extends(picked, Order(c))
    ensures OffencesAmong(c, picked, c.src.Keys) == StaleReads(c)
  {
    RankedIsAcyclic(Order(c), picked);
    OrderParts(c, picked);
    ExtensionRespects(c, picked);
    forall r | r in c.src ensures LoadValue(c, picked, r) <==> !StaleOrFuture(c, r) {
      LoadValueIsWitnessFree(c, picked, r);
    }
  }

  /**
   * Checks one execution graph. Each outcome reports its own offences. A graph that raises no error is accepted exactly
   * when its AMO annotations are right, its LR/SC pairs share locations, and some global memory order satisfies every
   * axiom of the model.
   */
  method CheckGraph(g: Graph) returns (result: Result<Verdict>)
    requires g.Valid()
    ensures result.Ok? <==> exists c :: Describes(g, c) && WellFormed(c) && ValidPairs(c)
    ensures forall c :: Describes(g, c) && WellFormed(c) && ValidPairs(c) && result.Ok? ==>
      (result.value.Allowed() <==>
       AmosAreAmos(c.ops) && PairsShareLocation(c.ops, c.inputs.pair) && exists gmo: map<Id, int> :: Allowed(c, gmo))
    ensures forall c :: Describes(g, c) && WellFormed(c) && ValidPairs(c) && result.Ok? ==> Outcomes(c, result.value)
  {
    var validated := ValidateGraph(g);
    if validated.Err? {
      forall c | Describes(g, c) ensures !WellFormed(c) { DescribedIsWellFormed(g, c); }
      return Err;
    }
    var (c, po) := validated.value;
    DescribedIsWellFormed(g, c);
    forall d | Describes(g, d) ensures d == c { DescribedCandidateIsUnique(g, c, d); }
    var relations := OrderRelations(c, po);
    if relations.Err? { return Err; }
    var lrSc := LrScOffences(c);
    if lrSc.Err? { return Err; }
    assert Describes(g, c) && WellFormed(c) && ValidPairs(c);
    var amo := AmoOffences(c);
    var picked, loadValue := PickOrder(c, po, relations.value);
    var cycle := FindLabeledCycle(relations.value);
    if picked.Some? { PickedOffences(c, picked.value); }
    VerdictIsRight(c, picked, loadValue, amo, lrSc.value);
    result := Ok(Verdict(cycle, loadValue, amo, lrSc.value));
  }

  /** One global memory order, if there is one, and the load-value offences against it. */
  method PickOrder(c: Candidate, po: set<Edge>, relations: seq<Relation>)
    returns (picked: Option<map<Id, int>>, loadValue: set<Edge>)
    requires WellFormed(c) && po == Po(c.ops) && Union(relations) == Order(c)
    ensures picked.None? <==> !Acyclic(Order(c))
    ensures picked.Some? ==> TotalOrder(picked.value, c.ops) && Extends(picked.value, Order(c))
    ensures picked.Some? ==> loadValue == OffencesAmong(c, picked.value, c.src.Keys)
    ensures picked.None? ==> loadValue == {}
  {
    OrderStaysInside(c);
    var gmo := TopologicalTotalOrder(c.ops.Keys, relations);
    picked, loadValue := None, {};
    if gmo.Some? {
      RanksAreTotal(c.ops, gmo.value);
      picked := Some(Ranks(gmo.value));
      loadValue := LoadValueOffences(c, po, picked.value);
    }
  }

  lemma RanksAreTotal(ops: Operations, order: seq<Id>)
    requires Enumerates(order, ops.Keys)
    ensures TotalOrder(Ranks(order), ops)
  {
    assert Ranks(order).Keys == Elements(order);
  }

  /**
   * The outcomes together say whether the annotations are right, the pairs share locations, and some global memory
   * order satisfies every axiom.
   */
  lemma VerdictIsRight(c: Candidate, picked: Option<map<Id, int>>, loadValue: set<Edge>, amo: set<Edge>,
                       lrSc: set<Edge>)
    requires WellFormed(c) && ValidPairs(c)
    requires picked.None? <==> !Acyclic(Order(c))
    requires picked.Some? ==> TotalOrder(picked.value, c.ops) && Extends(picked.value, Order(c))
    requires picked.Some? ==> loadValue == OffencesAmong(c, picked.value, c.src.Keys)
    requires amo == Mislabelled(c, c.ops.Keys) + Interrupted(c, c.ops.Keys)
    requires lrSc == Broken(c, c.inputs.pair) + Unpaired(c)
    ensures picked.Some? && loadValue == {} && amo == {} && lrSc == {} <==>
            AmosAreAmos(c.ops) && PairsShareLocation(c.ops, c.inputs.pair)
                && exists gmo: map<Id, int> :: Allowed(c, gmo)
  {
    NoAmoOffence(c);
    NoLrScOffence(c);
    if picked.Some? && loadValue == {} && amo == {} && lrSc == {} {
      forall r | r in c.src ensures LoadValue(c, picked.value, r) {
        assert (c.src[r], r) !in loadValue;
      }
      AcceptedIsAllowed(c, picked.value);
    }
    if AmosAreAmos(c.ops) && PairsShareLocation(c.ops, c.inputs.pair) && exists gmo: map<Id, int> :: Allowed(c, gmo) {
      var gmo: map<Id, int> :| Allowed(c, gmo);
      AllowedIsAccepted(c, gmo);
    }
  }
}
