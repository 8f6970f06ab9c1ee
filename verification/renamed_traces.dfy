/** The outcome of checking a trace, errors included, does not depend on the names in it. */
module RenamedTraces {
  import opened Common
  import opened Relations
  import opened Execution
  import opened Enumeration
  import opened Rvwmo
  import opened RvwmoCoherence
  import opened Builder
  import opened Checker
  import opened Renaming
  import opened TraceErrors

  /** Two traces without hints that are equal up to names. */
  ghost predicate SameUpToNames(p: Projection, q: Projection, rho: Id -> Id, sigma: int -> int,
                                tau: Address -> Address) {
    SymbolicTrace(p) && SymbolicTrace(q) && Renames(p.ops, q.ops, rho, sigma, tau)
  }

  lemma NamesBack(p: Projection, q: Projection, rho: Id -> Id, sigma: int -> int, tau: Address -> Address)
    requires SameUpToNames(p, q, rho, sigma, tau)
    ensures SameUpToNames(q, p, rho, sigma, tau)
  {
    RenamesBack(p.ops, q.ops, rho, sigma, tau);
  }

  // ----- Legal choices

  lemma LegalSourceRenamed(p: Projection, q: Projection, rho: Id -> Id, sigma: int -> int, tau: Address -> Address,
                           r: Id, w: Id)
    requires SameUpToNames(p, q, rho, sigma, tau) && LegalSource(p, r, w)
    ensures LegalSource(q, rho(r), rho(w))
  {
    PairsCorrespond(p.ops, q.ops, rho, sigma, tau, r, w);
  }

  lemma ReadsRenamed(p: Projection, q: Projection, rho: Id -> Id, sigma: int -> int, tau: Address -> Address, r: Id)
    requires SameUpToNames(p, q, rho, sigma, tau)
    ensures r in ReadIds(q.ops) <==> rho(r) in ReadIds(p.ops)
  {
    assert rho(rho(r)) == r;
  }

  lemma LegalSourcesRenamed(p: Projection, q: Projection, rho: Id -> Id, sigma: int -> int, tau: Address -> Address,
                            src: map<Id, Id>)
    requires SameUpToNames(p, q, rho, sigma, tau) && LegalSources(p, src)
    ensures LegalSources(q, RenameSources(src, rho))
  {
    var srcq := RenameSources(src, rho);
    forall r ensures r in srcq.Keys <==> r in ReadIds(q.ops) {
      assert rho(rho(r)) == r;
      ReadsRenamed(p, q, rho, sigma, tau, r);
      assert rho(r) in src.Keys <==> rho(r) in ReadIds(p.ops);
    }
    forall r | r in srcq ensures LegalSource(q, r, srcq[r]) {
      assert rho(rho(r)) == r && rho(r) in src;
      LegalSourceRenamed(p, q, rho, sigma, tau, rho(r), src[rho(r)]);
    }
  }

  function RenameSeq(order: seq<Id>, rho: Id -> Id): (renamed: seq<Id>)
    ensures |renamed| == |order| && forall i :: 0 <= i < |order| ==> renamed[i] == rho(order[i])
  {
    seq(|order|, i requires 0 <= i < |order| => rho(order[i]))
  }

  lemma RenamedMembers(order: seq<Id>, rho: Id -> Id)
    requires Involution(rho)
    ensures forall x :: x in order <==> rho(x) in RenameSeq(order, rho)
    ensures NoDup(order) ==> NoDup(RenameSeq(order, rho))
    ensures RenameSeq(RenameSeq(order, rho), rho) == order
  {
    var renamed := RenameSeq(order, rho);
    forall x ensures x in order <==> rho(x) in renamed {
      if i :| 0 <= i < |order| && order[i] == x { assert renamed[i] == rho(x); }
      if i :| 0 <= i < |order| && renamed[i] == rho(x) { assert rho(rho(order[i])) == order[i] && rho(rho(x)) == x; }
    }
    forall i | 0 <= i < |order|
      ensures RenameSeq(renamed, rho)[i] == order[i]
    {
      assert rho(rho(order[i])) == order[i];
    }
    assert forall i :: 0 <= i < |order| ==> order[i] == rho(renamed[i]);
  }

  lemma ListedRenamed(p: Projection, q: Projection, rho: Id -> Id, sigma: int -> int, tau: Address -> Address,
                      a: Address, w: Id)
    requires SameUpToNames(p, q, rho, sigma, tau)
    ensures w in ListedWrites(p.ops, a) <==> rho(w) in ListedWrites(q.ops, tau(a))
    ensures w in p.ops <==> rho(w) in q.ops
    ensures w in p.ops ==> p.ops[w].kind == q.ops[rho(w)].kind
  {
    if w in p.ops { assert tau(tau(p.ops[w].address)) == p.ops[w].address && tau(tau(a)) == a; }
  }

  lemma LegalOrderRenamed(p: Projection, q: Projection, rho: Id -> Id, sigma: int -> int, tau: Address -> Address,
                          a: Address, order: seq<Id>)
    requires SameUpToNames(p, q, rho, sigma, tau) && LegalOrder(p, a, order)
    ensures LegalOrder(q, tau(a), RenameSeq(order, rho))
  {
    var renamed := RenameSeq(order, rho);
    RenamedMembers(order, rho);
    forall w ensures w in Elements(renamed) <==> w in ListedWrites(q.ops, tau(a)) {
      assert rho(rho(w)) == w;
      ListedRenamed(p, q, rho, sigma, tau, a, rho(w));
      assert rho(w) in Elements(order) <==> rho(w) in order;
    }
    forall i | 0 <= i < |renamed| && renamed[i] in q.ops && q.ops[renamed[i]].kind == InitWrite ensures i == 0 {
      ListedRenamed(p, q, rho, sigma, tau, a, order[i]);
    }
  }

  ghost function RenameOrders(orders: map<Address, seq<Id>>, rho: Id -> Id, tau: Address -> Address):
    (r: map<Address, seq<Id>>)
    requires Involution(tau)
    ensures forall a :: a in orders <==> tau(a) in r
    ensures forall a :: a in orders ==> r[tau(a)] == RenameSeq(orders[a], rho)
  {
    var keyed := RenameKeys(orders, tau);
    map a | a in keyed :: RenameSeq(keyed[a], rho)
  }

  lemma AddressesRenamed(p: Projection, q: Projection, rho: Id -> Id, sigma: int -> int, tau: Address -> Address,
                         a: Address)
    requires SameUpToNames(p, q, rho, sigma, tau) && a in WriteAddresses(p.ops)
    ensures tau(a) in WriteAddresses(q.ops)
  {
    var w :| w in p.ops && p.ops[w].IsWrite() && p.ops[w].address == a;
    assert rho(w) in q.ops && q.ops[rho(w)].IsWrite() && q.ops[rho(w)].address == tau(a);
  }

  lemma WrittenRenamed(p: Projection, q: Projection, rho: Id -> Id, sigma: int -> int, tau: Address -> Address,
                       a: Address)
    requires SameUpToNames(p, q, rho, sigma, tau)
    ensures a in WriteAddresses(q.ops) <==> tau(a) in WriteAddresses(p.ops)
  {
    NamesBack(p, q, rho, sigma, tau);
    assert tau(tau(a)) == a;
    if tau(a) in WriteAddresses(p.ops) { AddressesRenamed(p, q, rho, sigma, tau, tau(a)); }
    if a in WriteAddresses(q.ops) { AddressesRenamed(q, p, rho, sigma, tau, a); }
  }

  lemma LegalOrdersRenamed(p: Projection, q: Projection, rho: Id -> Id, sigma: int -> int, tau: Address -> Address,
                           orders: map<Address, seq<Id>>)
    requires SameUpToNames(p, q, rho, sigma, tau) && LegalOrders(p, orders)
    ensures LegalOrders(q, RenameOrders(orders, rho, tau))
  {
    var renamed := RenameOrders(orders, rho, tau);
    forall a ensures a in renamed <==> a in WriteAddresses(q.ops) {
      assert tau(tau(a)) == a;
      WrittenRenamed(p, q, rho, sigma, tau, a);
    }
    forall a | a in renamed ensures LegalOrder(q, a, renamed[a]) {
      assert tau(tau(a)) == a && tau(a) in orders;
      LegalOrderRenamed(p, q, rho, sigma, tau, tau(a), orders[tau(a)]);
    }
  }

  // ----- The number of candidates

  function RenameLists(lists: seq<seq<Id>>, rho: Id -> Id): (renamed: seq<seq<Id>>)
    ensures |renamed| == |lists| && forall i :: 0 <= i < |lists| ==> renamed[i] == RenameSeq(lists[i], rho)
  {
    seq(|lists|, i requires 0 <= i < |lists| => RenameSeq(lists[i], rho))
  }

  ghost function RenameSpace(space: CandidateSpace, rho: Id -> Id, tau: Address -> Address): (r: CandidateSpace)
    requires Involution(rho) && Involution(tau)
    ensures forall id :: id in space.rfChoices <==> rho(id) in r.rfChoices
    ensures forall id :: id in space.rfChoices ==> r.rfChoices[rho(id)] == RenameSeq(space.rfChoices[id], rho)
    ensures forall a :: a in space.coOrders <==> tau(a) in r.coOrders
    ensures forall a :: a in space.coOrders ==> r.coOrders[tau(a)] == RenameLists(space.coOrders[a], rho)
  {
    var (keyed, ordered) := (RenameKeys(space.rfChoices, rho), RenameKeys(space.coOrders, tau));
    CandidateSpace(map r | r in keyed :: RenameSeq(keyed[r], rho), map a | a in ordered :: RenameLists(ordered[a], rho))
  }

  lemma SourceListRenamed(p: Projection, q: Projection, rho: Id -> Id, sigma: int -> int, tau: Address -> Address,
                          r: Id, list: seq<Id>)
    requires SameUpToNames(p, q, rho, sigma, tau) && Enumerates(list, set w | w in p.ops && LegalSource(p, r, w))
    ensures Enumerates(RenameSeq(list, rho), set w | w in q.ops && LegalSource(q, rho(r), w))
  {
    RenamedMembers(list, rho);
    NamesBack(p, q, rho, sigma, tau);
    forall w ensures w in Elements(RenameSeq(list, rho)) <==> w in q.ops && LegalSource(q, rho(r), w) {
      assert rho(rho(w)) == w && rho(rho(r)) == r;
      assert rho(w) in list <==> rho(w) in Elements(list);
      if rho(w) in list { LegalSourceRenamed(p, q, rho, sigma, tau, r, rho(w)); }
      if w in q.ops && LegalSource(q, rho(r), w) { LegalSourceRenamed(q, p, rho, sigma, tau, rho(r), w); }
    }
  }

  lemma OrderListRenamed(p: Projection, q: Projection, rho: Id -> Id, sigma: int -> int, tau: Address -> Address,
                         a: Address, lists: seq<seq<Id>>)
    requires SameUpToNames(p, q, rho, sigma, tau) && NoDup(lists)
    requires forall o :: o in lists <==> LegalOrder(p, a, o)
    ensures NoDup(RenameLists(lists, rho))
    ensures forall o :: o in RenameLists(lists, rho) <==> LegalOrder(q, tau(a), o)
  {
    var renamed := RenameLists(lists, rho);
    NamesBack(p, q, rho, sigma, tau);
    forall i, j | 0 <= i < j < |renamed| ensures renamed[i] != renamed[j] {
      RenamedMembers(lists[i], rho);
      RenamedMembers(lists[j], rho);
    }
    forall o ensures o in renamed <==> LegalOrder(q, tau(a), o) {
      RenamedMembers(o, rho);
      assert tau(tau(a)) == a;
      if i :| 0 <= i < |renamed| && renamed[i] == o {
        assert lists[i] in lists;
        LegalOrderRenamed(p, q, rho, sigma, tau, a, lists[i]);
      }
      if LegalOrder(q, tau(a), o) {
        LegalOrderRenamed(q, p, rho, sigma, tau, tau(a), o);
        var i :| 0 <= i < |lists| && lists[i] == RenameSeq(o, rho);
        assert renamed[i] == o;
      }
    }
  }

  lemma SpaceReadsRenamed(p: Projection, q: Projection, rho: Id -> Id, sigma: int -> int, tau: Address -> Address,
                          space: CandidateSpace, r: Id)
    requires SameUpToNames(p, q, rho, sigma, tau) && space.rfChoices.Keys == ReadIds(p.ops)
    ensures r in RenameSpace(space, rho, tau).rfChoices <==> r in ReadIds(q.ops)
  {
    ReadsRenamed(p, q, rho, sigma, tau, r);
    assert rho(rho(r)) == r;
    assert rho(r) in space.rfChoices <==> rho(r) in space.rfChoices.Keys;
  }

  lemma SpaceAddressesRenamed(p: Projection, q: Projection, rho: Id -> Id, sigma: int -> int, tau: Address -> Address,
                              space: CandidateSpace, a: Address)
    requires SameUpToNames(p, q, rho, sigma, tau) && space.coOrders.Keys == WriteAddresses(p.ops)
    ensures a in RenameSpace(space, rho, tau).coOrders <==> a in WriteAddresses(q.ops)
  {
    WrittenRenamed(p, q, rho, sigma, tau, a);
    assert tau(tau(a)) == a;
    assert tau(a) in space.coOrders <==> tau(a) in space.coOrders.Keys;
  }

  lemma SpaceKeysRenamed(p: Projection, q: Projection, rho: Id -> Id, sigma: int -> int, tau: Address -> Address,
                         space: CandidateSpace)
    requires SameUpToNames(p, q, rho, sigma, tau)
    requires space.rfChoices.Keys == ReadIds(p.ops) && space.coOrders.Keys == WriteAddresses(p.ops)
    ensures RenameSpace(space, rho, tau).rfChoices.Keys == ReadIds(q.ops)
    ensures RenameSpace(space, rho, tau).coOrders.Keys == WriteAddresses(q.ops)
  {
    forall r ensures r in RenameSpace(space, rho, tau).rfChoices <==> r in ReadIds(q.ops) {
      SpaceReadsRenamed(p, q, rho, sigma, tau, space, r);
    }
    forall a ensures a in RenameSpace(space, rho, tau).coOrders <==> a in WriteAddresses(q.ops) {
      SpaceAddressesRenamed(p, q, rho, sigma, tau, space, a);
    }
  }

  /** The renamed space of a trace is the space of the renamed trace. */
  lemma SpaceRenamed(p: Projection, q: Projection, rho: Id -> Id, sigma: int -> int, tau: Address -> Address,
                     space: CandidateSpace)
    requires SameUpToNames(p, q, rho, sigma, tau) && ExactSpace(p, space)
    ensures ExactSpace(q, RenameSpace(space, rho, tau))
  {
    var renamed := RenameSpace(space, rho, tau);
    SpaceKeysRenamed(p, q, rho, sigma, tau, space);
    forall r | r in renamed.rfChoices
      ensures renamed.rfChoices[r] != []
      ensures Enumerates(renamed.rfChoices[r], set w | w in q.ops && LegalSource(q, r, w))
    {
      assert rho(rho(r)) == r && rho(r) in space.rfChoices;
      SourceListRenamed(p, q, rho, sigma, tau, rho(r), space.rfChoices[rho(r)]);
    }
    forall a | a in renamed.coOrders
      ensures renamed.coOrders[a] != [] && NoDup(renamed.coOrders[a])
      ensures forall o :: o in renamed.coOrders[a] <==> LegalOrder(q, a, o)
    {
      assert tau(tau(a)) == a && tau(a) in space.coOrders;
      OrderListRenamed(p, q, rho, sigma, tau, tau(a), space.coOrders[tau(a)]);
    }
  }

  lemma KeysRenamed<K(!new), V, W>(m: map<K, seq<V>>, n: map<K, seq<W>>, rho: K -> K)
    requires Involution(rho) && (forall k :: k in m <==> rho(k) in n) && forall k :: k in m ==> |m[k]| == |n[rho(k)]|
    ensures Count(m) == Count(n)
  {
    var f := map k | k in m :: rho(k);
    forall k | k in n ensures k in f.Values {
      assert rho(rho(k)) == k;
      assert f[rho(k)] == k;
    }
    forall j, k | j in f && k in f && f[j] == f[k] ensures j == k {
      assert rho(rho(j)) == j && rho(rho(k)) == k;
    }
    CountRekeyed(m, n, f);
  }

  lemma TooManyRenamed(p: Projection, q: Projection, rho: Id -> Id, sigma: int -> int, tau: Address -> Address,
                       maxCandidates: int)
    requires SameUpToNames(p, q, rho, sigma, tau) && TooMany(p, maxCandidates)
    ensures TooMany(q, maxCandidates)
  {
    var space :| ExactSpace(p, space) && Estimated(space) > maxCandidates;
    var renamed := RenameSpace(space, rho, tau);
    SpaceRenamed(p, q, rho, sigma, tau, space);
    KeysRenamed(space.rfChoices, renamed.rfChoices, rho);
    KeysRenamed(space.coOrders, renamed.coOrders, tau);
  }

  // ----- The outcome

  lemma PlainRenamed(p: Projection, q: Projection, rho: Id -> Id, sigma: int -> int, tau: Address -> Address)
    requires SameUpToNames(p, q, rho, sigma, tau) && PlainOperations(p.ops)
    ensures PlainOperations(q.ops)
  {
    forall a | a in q.ops ensures q.ops[a].kind != Amo && q.ops[a].IsRegular() {
      assert rho(rho(a)) == a && rho(a) in p.ops;
    }
    forall a, b | a in q.ops && b in q.ops && a != b && q.ops[a].hart.Some? && q.ops[a].hart == q.ops[b].hart
      ensures q.ops[a].programIndex != q.ops[b].programIndex
    {
      assert rho(rho(a)) == a && rho(rho(b)) == b && rho(a) in p.ops && rho(b) in p.ops;
      PairsCorrespond(p.ops, q.ops, rho, sigma, tau, rho(a), rho(b));
    }
  }

  lemma AnnotationsRenamed(p: Projection, q: Projection, rho: Id -> Id, sigma: int -> int, tau: Address -> Address)
    requires SameUpToNames(p, q, rho, sigma, tau) && RightAnnotations(p)
    ensures RightAnnotations(q)
  {
    NoInputs(q);
    forall a | a in q.ops ensures q.ops[a].AtomicKind() == "amo" ==> q.ops[a].kind == Amo {
      assert rho(rho(a)) == a && rho(a) in p.ops;
    }
  }

  lemma ErrorsRenamed(p: Projection, q: Projection, rho: Id -> Id, sigma: int -> int, tau: Address -> Address,
                      maxCandidates: int)
    requires SameUpToNames(p, q, rho, sigma, tau) && !TraceRaises(p, maxCandidates)
    ensures !TraceRaises(q, maxCandidates)
  {
    SymbolicTraceRaises(p, maxCandidates);
    SymbolicTraceRaises(q, maxCandidates);
    NamesBack(p, q, rho, sigma, tau);
    var src, orders :| LegalSources(p, src) && LegalOrders(p, orders);
    LegalSourcesRenamed(p, q, rho, sigma, tau, src);
    LegalOrdersRenamed(p, q, rho, sigma, tau, orders);
    if TooMany(q, maxCandidates) { TooManyRenamed(q, p, rho, sigma, tau, maxCandidates); }
    PlainRenamed(p, q, rho, sigma, tau);
  }

  /** Renaming harts, locations and operations changes neither the errors nor the verdict of the check. */
  lemma VerdictIsNameFree(p: Projection, q: Projection, rho: Id -> Id, sigma: int -> int, tau: Address -> Address,
                          maxCandidates: int)
    requires SameUpToNames(p, q, rho, sigma, tau)
    ensures TraceRaises(p, maxCandidates) <==> TraceRaises(q, maxCandidates)
    ensures IsAllowed(p) <==> IsAllowed(q)
  {
    NamesBack(p, q, rho, sigma, tau);
    if !TraceRaises(p, maxCandidates) { ErrorsRenamed(p, q, rho, sigma, tau, maxCandidates); }
    if !TraceRaises(q, maxCandidates) { ErrorsRenamed(q, p, rho, sigma, tau, maxCandidates); }
    ExecutionsAreNameFree(p, q, rho, sigma, tau);
    if RightAnnotations(p) { AnnotationsRenamed(p, q, rho, sigma, tau); }
    if RightAnnotations(q) { AnnotationsRenamed(q, p, rho, sigma, tau); }
  }
}
