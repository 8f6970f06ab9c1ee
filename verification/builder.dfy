/** From projected operations and hints to the space of candidate executions. */
module Builder {
  import opened Common
  import opened Relations
  import opened Execution
  import opened Rvwmo
  import opened Enumeration

  /** Trace evidence that a read took its value from a write. */
  datatype RfHint = RfHint(write: Id, address: Address, value: int)

  /** Trace evidence that one write reached memory before another. */
  datatype CoHint = CoHint(before: Id, after: Id, address: Address)

  /** What the projection of a trace supplies. */
  datatype Projection = Projection(ops: Operations, rfHints: map<Id, RfHint>, coHints: seq<CoHint>,
                                   relationHints: map<string, set<Edge>>)

  datatype CandidateSpace = CandidateSpace(rfChoices: map<Id, seq<Id>>, coOrders: map<Address, seq<seq<Id>>>)

  function ReadIds(ops: Operations): set<Id> {
    set r | r in ops && ops[r].IsRead()
  }

  function WritesAt(ops: Operations, address: Address): set<Id> {
    set w | w in ops && ops[w].IsWrite() && ops[w].address == address
  }

  /** The writes that a coherence order of the address lists: all but AMOs. */
  function ListedWrites(ops: Operations, address: Address): set<Id> {
    set w | w in WritesAt(ops, address) && ops[w].kind != Amo
  }

  function WriteAddresses(ops: Operations): set<Address> {
    set w | w in ops && ops[w].IsWrite() :: ops[w].address
  }

  predicate AmoFree(ops: Operations) {
    forall id | id in ops :: ops[id].kind != Amo
  }

  // ----- Legal choices

  predicate MatchingSource(ops: Operations, r: Id, w: Id)
    requires r in ops && w in ops
  {
    ops[w].IsWrite() && w != r && ops[w].address == ops[r].address && ops[w].StoredValue() == ops[r].value
  }

  /** `w` may be the source of `r`: same address and value, and the write that a hint names. */
  predicate LegalSource(p: Projection, r: Id, w: Id) {
    && r in p.ops && w in p.ops && MatchingSource(p.ops, r, w)
    && (r in p.rfHints ==> p.rfHints[r].write == w)
  }

  /** The evidence of a hint agrees with the read and with the write it names. */
  predicate ConsistentHint(ops: Operations, r: Id, hint: RfHint)
    requires r in ops
  {
    && hint.write in ops && ops[hint.write].IsWrite() && hint.write != r
    && hint.address == ops[r].address == ops[hint.write].address
    && hint.value == ops[r].value == ops[hint.write].StoredValue()
  }

  predicate Ordered(order: seq<Id>, before: Id, after: Id) {
    before in order && after in order && IndexOf(order, before) < IndexOf(order, after)
  }

  /** Only the head of the order may be an initial write. */
  predicate InitFirst(ops: Operations, order: seq<Id>) {
    forall i :: 0 <= i < |order| && order[i] in ops && ops[order[i]].kind == InitWrite ==> i == 0
  }

  /** An enumerated order of one address: its writes but AMOs, the initial one first, in the order of the hints. */
  ghost predicate LegalOrder(p: Projection, address: Address, order: seq<Id>) {
    && Enumerates(order, ListedWrites(p.ops, address))
    && InitFirst(p.ops, order)
    && (forall h :: h in p.coHints && h.address == address ==> Ordered(order, h.before, h.after))
  }

  /** A co hint names two different writes of its address. */
  predicate ValidCoHint(ops: Operations, h: CoHint) {
    && h.before in WritesAt(ops, h.address) && h.after in WritesAt(ops, h.address) && h.before != h.after
  }

  // ----- Choices of rf

  /** The legal sources of one read, sorted; an error for contradicted hints and reads without a source. */
  method SourceChoices(p: Projection, r: Id) returns (result: Result<seq<Id>>)
    requires r in p.ops
    ensures result.Ok? ==> result.value != [] && Enumerates(result.value, set w | w in p.ops && LegalSource(p, r, w))
    ensures result.Ok? <==>
            (r in p.rfHints ==> ConsistentHint(p.ops, r, p.rfHints[r])) && exists w :: LegalSource(p, r, w)
  {
    var candidates := set w | w in p.ops && MatchingSource(p.ops, r, w);
    if r in p.rfHints {
      var hint := p.rfHints[r];
      if !ConsistentHint(p.ops, r, hint) || hint.write !in candidates { return Err; }
      candidates := {hint.write};
      assert LegalSource(p, r, hint.write);
    }
    assert candidates == set w | w in p.ops && LegalSource(p, r, w);
    if candidates == {} {
      forall w ensures !LegalSource(p, r, w) { assert w !in candidates; }
      return Err;
    }
    var w :| w in candidates;
    assert LegalSource(p, r, w);
    var choices := Sorted(candidates);
    assert w in Elements(choices);
    result := Ok(choices);
  }

  // ----- Choices of co

  function PrefixAll(prefix: seq<Id>, orders: seq<seq<Id>>): (r: seq<seq<Id>>)
    ensures |r| == |orders| && forall i :: 0 <= i < |r| ==> r[i] == prefix + orders[i]
  {
    seq(|orders|, i requires 0 <= i < |orders| => prefix + orders[i])
  }

  /** `prefix` followed by each permutation of the ordinary writes is each order with the initial write first. */
  lemma PrefixedPermutations(p: Projection, address: Address, prefix: seq<Id>, ordinary: seq<Id>)
    requires |prefix| <= 1
    requires Enumerates(prefix, set w | w in WritesAt(p.ops, address) && p.ops[w].kind == InitWrite)
    requires Enumerates(ordinary, set w | w in WritesAt(p.ops, address) && p.ops[w].kind == Write)
    ensures NoDup(PrefixAll(prefix, Permutations(ordinary)))
    ensures forall order :: order in PrefixAll(prefix, Permutations(ordinary)) <==>
      Enumerates(order, ListedWrites(p.ops, address))
      && InitFirst(p.ops, order)
  {
    var all := Permutations(ordinary);
    var prefixed := PrefixAll(prefix, all);
    PermutationsExact(ordinary);
    forall i, j | 0 <= i < j < |prefixed| ensures prefixed[i] != prefixed[j] {
      assert prefixed[i][|prefix|..] == all[i] && prefixed[j][|prefix|..] == all[j];
    }
    forall order
      ensures order in prefixed <==>
        Enumerates(order, ListedWrites(p.ops, address))
        && InitFirst(p.ops, order)
    {
      if order in prefixed {
        var k :| 0 <= k < |prefixed| && prefixed[k] == order;
        assert all[k] in all;
        PrefixedIsLegal(p, address, prefix, all[k], Elements(ordinary));
      }
      if Enumerates(order, ListedWrites(p.ops, address)) && InitFirst(p.ops, order) {
        var rest := LegalIsPrefixed(p, address, prefix, order);
        assert rest in all;
        var k :| 0 <= k < |all| && all[k] == rest;
        assert prefixed[k] == order;
      }
    }
  }

  lemma PrefixedIsLegal(p: Projection, address: Address, prefix: seq<Id>, rest: seq<Id>, ordinary: set<Id>)
    requires |prefix| <= 1
    requires Enumerates(prefix, set w | w in WritesAt(p.ops, address) && p.ops[w].kind == InitWrite)
    requires ordinary == set w | w in WritesAt(p.ops, address) && p.ops[w].kind == Write
    requires Enumerates(rest, ordinary)
    ensures Enumerates(prefix + rest, ListedWrites(p.ops, address))
    ensures InitFirst(p.ops, prefix + rest)
  {
    var order := prefix + rest;
    assert Elements(order) == Elements(prefix) + Elements(rest);
    assert forall i :: 0 <= i < |order| ==> order[i] in Elements(order);
    forall i | 0 <= i < |order| ensures order[i] == if i < |prefix| then prefix[i] else rest[i - |prefix|] {
    }
    forall i | 0 <= i < |prefix| ensures prefix[i] in Elements(prefix) {
    }
    forall i | 0 <= i < |rest| ensures rest[i] in Elements(rest) {
    }
  }

  lemma LegalIsPrefixed(p: Projection, address: Address, prefix: seq<Id>, order: seq<Id>) returns (rest: seq<Id>)
    requires |prefix| <= 1
    requires Enumerates(prefix, set w | w in WritesAt(p.ops, address) && p.ops[w].kind == InitWrite)
    requires Enumerates(order, ListedWrites(p.ops, address))
    requires InitFirst(p.ops, order)
    ensures order == prefix + rest
    ensures Enumerates(rest, set w | w in WritesAt(p.ops, address) && p.ops[w].kind == Write)
  {
    if prefix == [] {
      rest := order;
      forall w | w in ListedWrites(p.ops, address) ensures p.ops[w].kind == Write {
        assert w !in Elements(prefix);
      }
    } else {
      assert prefix[0] in Elements(prefix);
      assert prefix[0] in Elements(order);
      assert order[0] == prefix[0];
      rest := order[1..];
      HeadTailEnumerates(order, ListedWrites(p.ops, address));
      forall w | w in ListedWrites(p.ops, address) ensures p.ops[w].kind == InitWrite <==> w == prefix[0] {
        assert w in Elements(prefix) <==> w == prefix[0];
      }
    }
  }

  /** The candidate orders of one address that satisfy its hints; a hint about an AMO leaves none. */
  method FilterByHints(candidates: seq<seq<Id>>, hints: seq<CoHint>) returns (kept: seq<seq<Id>>)
    requires NoDup(candidates)
    ensures NoDup(kept)
    ensures forall o :: o in kept <==> o in candidates && forall h :: h in hints ==> Ordered(o, h.before, h.after)
  {
    kept := [];
    for i := 0 to |candidates|
      invariant NoDup(kept)
      invariant forall o :: o in kept <==>
        o in candidates[..i] && forall h :: h in hints ==> Ordered(o, h.before, h.after)
    {
      var order := candidates[i];
      assert order !in candidates[..i];
      assert candidates[..i + 1] == candidates[..i] + [order];
      if forall h | h in hints :: Ordered(order, h.before, h.after) {
        kept := kept + [order];
      }
    }
    WholePrefix(candidates);
  }

  method HintsAt(hints: seq<CoHint>, address: Address) returns (relevant: seq<CoHint>)
    ensures forall h :: h in relevant <==> h in hints && h.address == address
  {
    relevant := [];
    for i := 0 to |hints|
      invariant forall h :: h in relevant <==> h in hints[..i] && h.address == address
    {
      assert hints[..i + 1] == hints[..i] + [hints[i]];
      if hints[i].address == address { relevant := relevant + [hints[i]]; }
    }
    WholePrefix(hints);
  }

  /** The legal coherence orders of one address; an error for several initial writes, bad hints or no order. */
  method OrderChoices(p: Projection, address: Address) returns (result: Result<seq<seq<Id>>>)
    ensures result.Ok? ==> result.value != [] && NoDup(result.value)
    ensures result.Ok? ==> forall o :: o in result.value <==> LegalOrder(p, address, o)
    ensures result.Ok? ==> forall h :: h in p.coHints && h.address == address ==> ValidCoHint(p.ops, h)
    ensures result.Err? ==> !exists o :: LegalOrder(p, address, o)
  {
    var inits := Sorted(set w | w in WritesAt(p.ops, address) && p.ops[w].kind == InitWrite);
    if |inits| > 1 {
      SeveralInitialWrites(p, address, inits);
      return Err;
    }
    var ordinary := Sorted(set w | w in WritesAt(p.ops, address) && p.ops[w].kind == Write);
    var candidates := PrefixAll(inits, Permutations(ordinary));
    PrefixedPermutations(p, address, inits, ordinary);
    var hints := HintsAt(p.coHints, address);
    if h :| h in hints && !ValidCoHint(p.ops, h) {
      BadHintForbidsOrders(p, address, h);
      return Err;
    }
    var orders := FilterByHints(candidates, hints);
    assert forall o :: o in orders <==> LegalOrder(p, address, o);
    if orders == [] {
      assert forall o :: LegalOrder(p, address, o) ==> o in orders;
      return Err;
    }
    result := Ok(orders);
  }

  lemma SeveralInitialWrites(p: Projection, address: Address, inits: seq<Id>)
    requires Enumerates(inits, set w | w in WritesAt(p.ops, address) && p.ops[w].kind == InitWrite) && |inits| > 1
    ensures !exists o :: LegalOrder(p, address, o)
  {
    assert inits[0] in Elements(inits) && inits[1] in Elements(inits);
    forall o | Enumerates(o, ListedWrites(p.ops, address)) ensures !InitFirst(p.ops, o) {
      assert inits[0] in Elements(o) && inits[1] in Elements(o);
      var i :| 0 <= i < |o| && o[i] == inits[0];
      var j :| 0 <= j < |o| && o[j] == inits[1];
      assert i != j;
    }
  }

  lemma BadHintForbidsOrders(p: Projection, address: Address, h: CoHint)
    requires h in p.coHints && h.address == address && !ValidCoHint(p.ops, h)
    ensures !exists o :: LegalOrder(p, address, o)
  {
    forall o | Enumerates(o, ListedWrites(p.ops, address)) ensures !Ordered(o, h.before, h.after) {
      assert h.before in o <==> h.before in Elements(o);
      assert h.after in o <==> h.after in Elements(o);
    }
  }

  // ----- The candidate space

  /** The source of every read is legal. */
  ghost predicate LegalSources(p: Projection, src: map<Id, Id>) {
    src.Keys == ReadIds(p.ops) && forall r :: r in src ==> LegalSource(p, r, src[r])
  }

  /** The coherence order of every written address is legal. */
  ghost predicate LegalOrders(p: Projection, orders: map<Address, seq<Id>>) {
    orders.Keys == WriteAddresses(p.ops) && forall a :: a in orders ==> LegalOrder(p, a, orders[a])
  }

  /** No hint contradicts the operations. */
  ghost predicate ConsistentHints(p: Projection) {
    && (forall r :: r in ReadIds(p.ops) && r in p.rfHints ==> ConsistentHint(p.ops, r, p.rfHints[r]))
    && (forall h :: h in p.coHints ==> ValidCoHint(p.ops, h))
  }

  /** The space lists exactly the legal sources of each read and the legal orders of each address, once each. */
  ghost predicate ExactSpace(p: Projection, space: CandidateSpace) {
    && space.rfChoices.Keys == ReadIds(p.ops)
    && space.coOrders.Keys == WriteAddresses(p.ops)
    && (forall r :: r in space.rfChoices ==>
          space.rfChoices[r] != []
          && Enumerates(space.rfChoices[r], set w | w in p.ops && LegalSource(p, r, w)))
    && (forall a :: a in space.coOrders ==>
          space.coOrders[a] != [] && NoDup(space.coOrders[a])
          && forall o :: o in space.coOrders[a] <==> LegalOrder(p, a, o))
  }

  method BuildRfChoices(p: Projection) returns (result: Result<map<Id, seq<Id>>>)
    ensures result.Ok? ==> result.value.Keys == ReadIds(p.ops)
    ensures result.Ok? ==> forall r :: r in result.value ==>
      result.value[r] != [] && Enumerates(result.value[r], set w | w in p.ops && LegalSource(p, r, w))
    ensures result.Ok? <==> forall r :: r in ReadIds(p.ops) ==>
      (r in p.rfHints ==> ConsistentHint(p.ops, r, p.rfHints[r])) && exists w :: LegalSource(p, r, w)
  {
    var choices: map<Id, seq<Id>> := map[];
    var ids := Sorted(ReadIds(p.ops));
    for i := 0 to |ids|
      invariant choices.Keys == Elements(ids[..i])
      invariant forall r :: r in choices ==>
        choices[r] != [] && Enumerates(choices[r], set w | w in p.ops && LegalSource(p, r, w))
      invariant forall r :: r in choices ==>
        (r in p.rfHints ==> r in p.ops && ConsistentHint(p.ops, r, p.rfHints[r])) && exists w :: LegalSource(p, r, w)
    {
      PrefixElements(ids, i);
      var c := SourceChoices(p, ids[i]);
      if c.Err? { return Err; }
      choices := choices[ids[i] := c.value];
    }
    WholePrefix(ids);
    result := Ok(choices);
  }

  /** Lists the written addresses; the program sorts them by their printed form. */
  method ListAddresses(addresses: set<Address>) returns (s: seq<Address>)
    ensures Enumerates(s, addresses)
  {
    s := [];
    var todo := addresses;
    while todo != {}
      invariant todo <= addresses && Enumerates(s, addresses - todo)
      decreases todo
    {
      var a :| a in todo;
      assert a !in Elements(s);
      assert Elements(s + [a]) == Elements(s) + {a};
      assert addresses - (todo - {a}) == (addresses - todo) + {a};
      s := s + [a];
      todo := todo - {a};
    }
  }

  method BuildCoOrders(p: Projection) returns (result: Result<map<Address, seq<seq<Id>>>>)
    ensures result.Ok? ==> result.value.Keys == WriteAddresses(p.ops)
    ensures result.Ok? ==> forall a :: a in result.value ==>
      result.value[a] != [] && NoDup(result.value[a]) && forall o :: o in result.value[a] <==> LegalOrder(p, a, o)
    ensures result.Ok? ==> forall h :: h in p.coHints && h.address in result.value ==> ValidCoHint(p.ops, h)
    ensures result.Err? ==> exists a :: a in WriteAddresses(p.ops) && !exists o :: LegalOrder(p, a, o)
  {
    var coOrders: map<Address, seq<seq<Id>>> := map[];
    var addresses := ListAddresses(WriteAddresses(p.ops));
    for i := 0 to |addresses|
      invariant coOrders.Keys == Elements(addresses[..i])
      invariant forall a :: a in coOrders ==>
        coOrders[a] != [] && NoDup(coOrders[a]) && forall o :: o in coOrders[a] <==> LegalOrder(p, a, o)
      invariant forall h :: h in p.coHints && h.address in coOrders ==> ValidCoHint(p.ops, h)
    {
      PrefixElements(addresses, i);
      var orders := OrderChoices(p, addresses[i]);
      if orders.Err? { return Err; }
      coOrders := coOrders[addresses[i] := orders.value];
    }
    WholePrefix(addresses);
    result := Ok(coOrders);
  }

  /** The space of candidates; an error exactly when a hint is inconsistent or nothing legal remains. */
  method BuildCandidateSpace(p: Projection) returns (result: Result<CandidateSpace>)
    ensures result.Ok? ==> ExactSpace(p, result.value)
    ensures result.Ok? <==>
            ConsistentHints(p) && (exists src :: LegalSources(p, src)) && (exists orders :: LegalOrders(p, orders))
  {
    var rfChoices := BuildRfChoices(p);
    if rfChoices.Err? {
      assert forall src, r :: LegalSources(p, src) && r in ReadIds(p.ops) ==> LegalSource(p, r, src[r]);
      return Err;
    }
    var coOrders := BuildCoOrders(p);
    if coOrders.Err? {
      ghost var a :| a in WriteAddresses(p.ops) && !exists o :: LegalOrder(p, a, o);
      forall orders | a in orders ensures !LegalOrders(p, orders) {
        assert !LegalOrder(p, a, orders[a]);
      }
      return Err;
    }
    if h :| h in p.coHints && h.address !in coOrders.value {
      assert h.before in WritesAt(p.ops, h.address) ==> h.address in WriteAddresses(p.ops);
      return Err;
    }
    result := Ok(CandidateSpace(rfChoices.value, coOrders.value));
    ghost var src, orders := SomeSelection(p, result.value);
  }

  lemma SomeSelection(p: Projection, space: CandidateSpace) returns (src: map<Id, Id>, orders: map<Address, seq<Id>>)
    requires ExactSpace(p, space)
    ensures LegalSources(p, src) && LegalOrders(p, orders)
  {
    src := map r | r in space.rfChoices :: space.rfChoices[r][0];
    orders := map a | a in space.coOrders :: space.coOrders[a][0];
    forall r | r in src ensures LegalSource(p, r, src[r]) {
      assert src[r] in Elements(space.rfChoices[r]);
    }
    forall a | a in orders ensures LegalOrder(p, a, orders[a]) {
      assert orders[a] in space.coOrders[a];
    }
  }
}
