/** Renaming harts, locations and operations keeps the allowed executions of a trace. */
module Renaming {
  import opened Common
  import opened Relations
  import opened Execution
  import opened Rvwmo
  import opened Builder
  import opened Checker

  /** A renaming that undoes itself, such as the exchange of two names. */
  ghost predicate Involution<T(!new)>(f: T -> T) {
    forall x :: f(f(x)) == x
  }

  /** A location that is named by a symbol. */
  predicate Symbolic(op: Operation) {
    op.address.Token? && op.metadata.byteAddresses.None?
  }

  function RenameOp(op: Operation, sigma: int -> int, tau: Address -> Address): Operation {
    op.(hart := if op.hart.None? then None else Some(sigma(op.hart.value)), address := tau(op.address))
  }

  /** `q` is `p` with operations, harts and locations renamed. */
  ghost predicate Renames(p: Operations, q: Operations, rho: Id -> Id, sigma: int -> int, tau: Address -> Address) {
    && Involution(rho) && Involution(sigma) && Involution(tau)
    && (forall id :: id in p <==> rho(id) in q)
    && (forall id :: id in p ==> q[rho(id)] == RenameOp(p[id], sigma, tau) && Symbolic(p[id]) && Symbolic(q[rho(id)]))
  }

  lemma RenamesBack(p: Operations, q: Operations, rho: Id -> Id, sigma: int -> int, tau: Address -> Address)
    requires Renames(p, q, rho, sigma, tau)
    ensures Renames(q, p, rho, sigma, tau)
  {
    forall id ensures id in q <==> rho(id) in p {
      assert rho(rho(id)) == id;
    }
    forall id | id in q ensures p[rho(id)] == RenameOp(q[id], sigma, tau) && Symbolic(q[id]) && Symbolic(p[rho(id)]) {
      assert rho(rho(id)) == id && rho(id) in p;
      assert q[id] == RenameOp(p[rho(id)], sigma, tau);
      assert tau(tau(p[rho(id)].address)) == p[rho(id)].address;
      if p[rho(id)].hart.Some? { assert sigma(sigma(p[rho(id)].hart.value)) == p[rho(id)].hart.value; }
    }
  }

  lemma SymbolicLocation(op: Operation)
    requires Symbolic(op)
    ensures Location(op) == {op.address}
  {
  }

  /** Renamed pairs of operations are related as the originals. */
  lemma PairsCorrespond(p: Operations, q: Operations, rho: Id -> Id, sigma: int -> int, tau: Address -> Address, a: Id,
                        b: Id)
    requires Renames(p, q, rho, sigma, tau) && a in p && b in p
    ensures rho(a) in q && rho(b) in q && (a == b <==> rho(a) == rho(b))
    ensures PoBefore(p, a, b) <==> PoBefore(q, rho(a), rho(b))
    ensures p[a].address == p[b].address <==> q[rho(a)].address == q[rho(b)].address
    ensures SameLocation(p[a], p[b]) <==> p[a].address == p[b].address
    ensures Overlap(p[a], p[b]) <==> p[a].address == p[b].address
    ensures SameLocation(p[a], p[b]) <==> SameLocation(q[rho(a)], q[rho(b)])
    ensures Overlap(p[a], p[b]) <==> Overlap(q[rho(a)], q[rho(b)])
    ensures p[a].hart == p[b].hart <==> q[rho(a)].hart == q[rho(b)].hart
    ensures CoherentWrites(p, a, b) <==> CoherentWrites(q, rho(a), rho(b))
  {
    assert rho(rho(a)) == a && rho(rho(b)) == b;
    assert tau(tau(p[a].address)) == p[a].address && tau(tau(p[b].address)) == p[b].address;
    if p[a].hart.Some? { assert sigma(sigma(p[a].hart.value)) == p[a].hart.value; }
    if p[b].hart.Some? { assert sigma(sigma(p[b].hart.value)) == p[b].hart.value; }
    SymbolicLocation(p[a]);
    SymbolicLocation(p[b]);
    SymbolicLocation(q[rho(a)]);
    SymbolicLocation(q[rho(b)]);
  }

  // ----- Renamed sources and orders

  ghost function RenameKeys<K(!new), V>(m: map<K, V>, rho: K -> K): (r: map<K, V>)
    requires Involution(rho)
    ensures forall id :: id in m <==> rho(id) in r
    ensures forall id :: id in m ==> r[rho(id)] == m[id]
  {
    var keys := set id | id in m :: rho(id);
    assert forall id :: id in m ==> rho(rho(id)) == id;
    assert forall id :: rho(id) in keys ==> id in m by {
      forall id | rho(id) in keys ensures id in m {
        var k :| k in m && rho(k) == rho(id);
        assert rho(rho(k)) == k && rho(rho(id)) == id;
      }
    }
    map id | id in keys :: m[rho(id)]
  }

  ghost function RenameSources(src: map<Id, Id>, rho: Id -> Id): (r: map<Id, Id>)
    requires Involution(rho)
    ensures forall id :: id in src <==> rho(id) in r
    ensures forall id :: id in src ==> r[rho(id)] == rho(src[id])
  {
    var keyed := RenameKeys(src, rho);
    map id | id in keyed :: rho(keyed[id])
  }

  /** A trace without evidence hints. */
  predicate Unhinted(p: Projection) {
    p.rfHints == map[] && p.coHints == [] && p.relationHints == map[]
  }

  /** Both traces, the renaming, and corresponding sources and orders. */
  ghost predicate Corresponds(p: Projection, q: Projection, rho: Id -> Id, sigma: int -> int, tau: Address -> Address,
                              src: map<Id, Id>, gmo: map<Id, int>, srcq: map<Id, Id>, gmoq: map<Id, int>) {
    && Unhinted(p) && Unhinted(q) && Renames(p.ops, q.ops, rho, sigma, tau)
    && (forall id :: id in src <==> rho(id) in srcq)
    && (forall id :: id in src ==> srcq[rho(id)] == rho(src[id]))
    && (forall id :: id in gmo <==> rho(id) in gmoq)
    && (forall id :: id in gmo ==> gmoq[rho(id)] == gmo[id])
  }

  lemma CorrespondsBack(p: Projection, q: Projection, rho: Id -> Id, sigma: int -> int, tau: Address -> Address,
                        src: map<Id, Id>, gmo: map<Id, int>, srcq: map<Id, Id>, gmoq: map<Id, int>)
    requires Corresponds(p, q, rho, sigma, tau, src, gmo, srcq, gmoq)
    ensures Corresponds(q, p, rho, sigma, tau, srcq, gmoq, src, gmo)
  {
    RenamesBack(p.ops, q.ops, rho, sigma, tau);
    forall id ensures id in srcq <==> rho(id) in src { assert rho(rho(id)) == id; }
    forall id | id in srcq ensures src[rho(id)] == rho(srcq[id]) {
      assert rho(rho(id)) == id && rho(id) in src;
      assert rho(rho(src[rho(id)])) == src[rho(id)];
    }
    forall id ensures id in gmoq <==> rho(id) in gmo { assert rho(rho(id)) == id; }
    forall id | id in gmoq ensures gmo[rho(id)] == gmoq[id] { assert rho(rho(id)) == id && rho(id) in gmo; }
  }

  // ----- Axioms

  lemma SourcesRenamed(p: Projection, q: Projection, rho: Id -> Id, sigma: int -> int, tau: Address -> Address,
                       src: map<Id, Id>, gmo: map<Id, int>, srcq: map<Id, Id>, gmoq: map<Id, int>)
    requires Corresponds(p, q, rho, sigma, tau, src, gmo, srcq, gmoq)
    requires LegalSources(p, src) && ValidSources(p.ops, src)
    ensures LegalSources(q, srcq) && ValidSources(q.ops, srcq)
  {
    forall r ensures r in srcq <==> r in q.ops && q.ops[r].IsRead() {
      assert rho(rho(r)) == r;
    }
    forall r | r in srcq ensures LegalSource(q, r, srcq[r]) && ValidSource(q.ops, srcq[r], r) {
      assert rho(rho(r)) == r && rho(r) in src;
      assert LegalSource(p, rho(r), src[rho(r)]) && ValidSource(p.ops, src[rho(r)], rho(r));
      PairsCorrespond(p.ops, q.ops, rho, sigma, tau, src[rho(r)], rho(r));
      assert srcq[r] == rho(src[rho(r)]);
    }
    assert srcq.Keys == ReadIds(q.ops);
  }

  lemma StoreBetweenRenamed(p: Projection, q: Projection, rho: Id -> Id, sigma: int -> int, tau: Address -> Address,
                            src: map<Id, Id>, gmo: map<Id, int>, srcq: map<Id, Id>, gmoq: map<Id, int>, a: Id, b: Id)
    requires Corresponds(p, q, rho, sigma, tau, src, gmo, srcq, gmoq) && a in p.ops && b in p.ops
    requires StoreBetween(GmoCandidate(p, src, gmo), a, b, p.ops[a].address)
    ensures StoreBetween(GmoCandidate(q, srcq, gmoq), rho(a), rho(b), q.ops[rho(a)].address)
  {
    var m :| PoBefore(p.ops, a, m) && PoBefore(p.ops, m, b) && p.ops[m].IsWrite()
        && p.ops[a].address in Location(p.ops[m]);
    PairsCorrespond(p.ops, q.ops, rho, sigma, tau, a, m);
    PairsCorrespond(p.ops, q.ops, rho, sigma, tau, m, b);
    SymbolicLocation(p.ops[m]);
    SymbolicLocation(q.ops[rho(m)]);
    assert PoBefore(q.ops, rho(a), rho(m)) && PoBefore(q.ops, rho(m), rho(b));
  }

  lemma NoInputs(p: Projection)
    requires Unhinted(p)
    ensures HintedInputs(p) == Inputs({}, {}, {}, {}, {}, {})
  {
  }

  lemma NoStoreBetweenRenamed(p: Projection, q: Projection, rho: Id -> Id, sigma: int -> int, tau: Address -> Address,
                              src: map<Id, Id>, gmo: map<Id, int>, srcq: map<Id, Id>, gmoq: map<Id, int>, a: Id, b: Id)
    requires Corresponds(p, q, rho, sigma, tau, src, gmo, srcq, gmoq) && a in p.ops && b in p.ops
    requires !StoreBetween(GmoCandidate(p, src, gmo), a, b, p.ops[a].address)
    ensures rho(a) in q.ops && !StoreBetween(GmoCandidate(q, srcq, gmoq), rho(a), rho(b), q.ops[rho(a)].address)
  {
    assert rho(rho(a)) == a && rho(rho(b)) == b;
    if StoreBetween(GmoCandidate(q, srcq, gmoq), rho(a), rho(b), q.ops[rho(a)].address) {
      CorrespondsBack(p, q, rho, sigma, tau, src, gmo, srcq, gmoq);
      StoreBetweenRenamed(q, p, rho, sigma, tau, srcq, gmoq, src, gmo, rho(a), rho(b));
    }
  }

  /** Same-location reads with different sources and no store in between. */
  lemma RuleTwoRenamed(p: Projection, q: Projection, rho: Id -> Id, sigma: int -> int, tau: Address -> Address,
                       src: map<Id, Id>, gmo: map<Id, int>, srcq: map<Id, Id>, gmoq: map<Id, int>, a: Id, b: Id)
    requires Corresponds(p, q, rho, sigma, tau, src, gmo, srcq, gmoq)
    requires PoBefore(p.ops, a, b) && PoBefore(q.ops, rho(a), rho(b)) && PpoRule(GmoCandidate(p, src, gmo), 2, a, b)
    ensures PpoRule(GmoCandidate(q, srcq, gmoq), 2, rho(a), rho(b))
  {
    PairsCorrespond(p.ops, q.ops, rho, sigma, tau, a, b);
    SymbolicLocation(p.ops[a]);
    SymbolicLocation(p.ops[b]);
    SymbolicLocation(q.ops[rho(a)]);
    SymbolicLocation(q.ops[rho(b)]);
    assert rho(rho(src[a])) == src[a] && rho(rho(src[b])) == src[b];
    NoStoreBetweenRenamed(p, q, rho, sigma, tau, src, gmo, srcq, gmoq, a, b);
  }

  lemma RuleRenamed(p: Projection, q: Projection, rho: Id -> Id, sigma: int -> int, tau: Address -> Address,
                    src: map<Id, Id>, gmo: map<Id, int>, srcq: map<Id, Id>, gmoq: map<Id, int>, k: int, a: Id, b: Id)
    requires Corresponds(p, q, rho, sigma, tau, src, gmo, srcq, gmoq)
    requires PoBefore(p.ops, a, b) && PoBefore(q.ops, rho(a), rho(b)) && PpoRule(GmoCandidate(p, src, gmo), k, a, b)
    ensures PpoRule(GmoCandidate(q, srcq, gmoq), k, rho(a), rho(b))
  {
    if k == 2 {
      RuleTwoRenamed(p, q, rho, sigma, tau, src, gmo, srcq, gmoq, a, b);
    } else {
      NoInputs(p);
      NoInputs(q);
      PairsCorrespond(p.ops, q.ops, rho, sigma, tau, a, b);
    }
  }

  lemma PreservedRenamed(p: Projection, q: Projection, rho: Id -> Id, sigma: int -> int, tau: Address -> Address,
                         src: map<Id, Id>, gmo: map<Id, int>, srcq: map<Id, Id>, gmoq: map<Id, int>, e: Edge)
    requires Corresponds(p, q, rho, sigma, tau, src, gmo, srcq, gmoq) && e in Ppo(GmoCandidate(p, src, gmo))
    ensures (rho(e.0), rho(e.1)) in Ppo(GmoCandidate(q, srcq, gmoq))
  {
    PairsCorrespond(p.ops, q.ops, rho, sigma, tau, e.0, e.1);
    var k :| 1 <= k <= 13 && PpoRule(GmoCandidate(p, src, gmo), k, e.0, e.1);
    RuleRenamed(p, q, rho, sigma, tau, src, gmo, srcq, gmoq, k, e.0, e.1);
  }

  lemma TotalOrderRenamed(p: Operations, q: Operations, rho: Id -> Id, sigma: int -> int, tau: Address -> Address,
                          gmo: map<Id, int>, gmoq: map<Id, int>)
    requires Renames(p, q, rho, sigma, tau) && TotalOrder(gmo, p)
    requires (forall id :: id in gmo <==> rho(id) in gmoq) && forall id :: id in gmo ==> gmoq[rho(id)] == gmo[id]
    ensures TotalOrder(gmoq, q)
  {
    forall id ensures id in gmoq <==> id in q { assert rho(rho(id)) == id; }
    assert gmoq.Keys == q.Keys;
    forall a, b | a in gmoq && b in gmoq && a != b ensures gmoq[a] != gmoq[b] {
      assert rho(rho(a)) == a && rho(rho(b)) == b;
    }
  }

  lemma PpoExtendsRenamed(p: Projection, q: Projection, rho: Id -> Id, sigma: int -> int, tau: Address -> Address,
                          src: map<Id, Id>, gmo: map<Id, int>, srcq: map<Id, Id>, gmoq: map<Id, int>)
    requires Corresponds(p, q, rho, sigma, tau, src, gmo, srcq, gmoq) && gmo.Keys == p.ops.Keys
    requires gmoq.Keys == q.ops.Keys
    requires Extends(gmo, Ppo(GmoCandidate(p, src, gmo)))
    ensures Extends(gmoq, Ppo(GmoCandidate(q, srcq, gmoq)))
  {
    CorrespondsBack(p, q, rho, sigma, tau, src, gmo, srcq, gmoq);
    forall e | e in Ppo(GmoCandidate(q, srcq, gmoq)) ensures e.0 in gmoq && e.1 in gmoq && gmoq[e.0] < gmoq[e.1] {
      assert rho(rho(e.0)) == e.0 && rho(rho(e.1)) == e.1;
      PreservedRenamed(q, p, rho, sigma, tau, srcq, gmoq, src, gmo, e);
    }
  }

  lemma LoadValueRenamed(p: Projection, q: Projection, rho: Id -> Id, sigma: int -> int, tau: Address -> Address,
                         src: map<Id, Id>, gmo: map<Id, int>, srcq: map<Id, Id>, gmoq: map<Id, int>, r: Id)
    requires Corresponds(p, q, rho, sigma, tau, src, gmo, srcq, gmoq)
    requires ValidSources(p.ops, src) && ValidSources(q.ops, srcq) && gmo.Keys == p.ops.Keys && gmoq.Keys == q.ops.Keys
    requires r in src && LoadValue(GmoCandidate(p, src, gmo), gmo, r)
    ensures LoadValue(GmoCandidate(q, srcq, gmoq), gmoq, rho(r))
  {
    CorrespondsBack(p, q, rho, sigma, tau, src, gmo, srcq, gmoq);
    PairsCorrespond(p.ops, q.ops, rho, sigma, tau, src[r], r);
    forall w | w in q.ops && Visible(GmoCandidate(q, srcq, gmoq), gmoq, w, rho(r))
      ensures gmoq[w] <= gmoq[rho(src[r])]
    {
      assert rho(rho(w)) == w && rho(rho(r)) == r;
      PairsCorrespond(q.ops, p.ops, rho, sigma, tau, w, rho(r));
      assert Visible(GmoCandidate(p, src, gmo), gmo, rho(w), r);
    }
  }

  lemma HintsRespectedRenamed(p: Projection, q: Projection, rho: Id -> Id, sigma: int -> int, tau: Address -> Address,
                              src: map<Id, Id>, gmo: map<Id, int>, srcq: map<Id, Id>, gmoq: map<Id, int>)
    requires Corresponds(p, q, rho, sigma, tau, src, gmo, srcq, gmoq) && RespectsHints(p, gmo)
    ensures RespectsHints(q, gmoq)
  {
    CorrespondsBack(p, q, rho, sigma, tau, src, gmo, srcq, gmoq);
    forall a, b | CoherentWrites(q.ops, a, b) && q.ops[a].kind == InitWrite && a in gmoq && b in gmoq
      ensures gmoq[a] < gmoq[b]
    {
      PairsCorrespond(q.ops, p.ops, rho, sigma, tau, a, b);
      assert gmo[rho(a)] < gmo[rho(b)];
    }
  }

  lemma KindsRenamed(p: Operations, q: Operations, rho: Id -> Id, sigma: int -> int, tau: Address -> Address)
    requires Renames(p, q, rho, sigma, tau) && forall s :: s in p ==> p[s].AtomicKind() != "sc"
    ensures forall s :: s in q ==> q[s].AtomicKind() != "sc"
  {
    forall s | s in q ensures q[s].AtomicKind() != "sc" {
      assert rho(rho(s)) == s && rho(s) in p;
      assert p[rho(s)].AtomicKind() == q[s].AtomicKind();
    }
  }

  /** Without hints no pair exists, so the atomicity axiom says that there is no store-conditional. */
  lemma UnhintedAtomicity(p: Projection, src: map<Id, Id>, gmo: map<Id, int>)
    requires Unhinted(p)
    ensures ValidPairs(GmoCandidate(p, src, gmo))
    ensures ScsPaired(GmoCandidate(p, src, gmo)) <==> forall s :: s in p.ops ==> p.ops[s].AtomicKind() != "sc"
  {
    NoInputs(p);
    assert (set e | e in HintedInputs(p).pair :: e.1) == {};
  }

  /** What an allowed trace without hints amounts to. */
  ghost predicate PlainlyAllowed(p: Projection, src: map<Id, Id>, gmo: map<Id, int>) {
    && LegalSources(p, src) && ValidSources(p.ops, src) && RespectsHints(p, gmo)
    && TotalOrder(gmo, p.ops) && Extends(gmo, Ppo(GmoCandidate(p, src, gmo)))
    && (forall r :: r in src ==> LoadValue(GmoCandidate(p, src, gmo), gmo, r))
    && forall s :: s in p.ops ==> p.ops[s].AtomicKind() != "sc"
  }

  lemma AllowedPlainly(p: Projection, src: map<Id, Id>, gmo: map<Id, int>)
    requires Unhinted(p)
    ensures TraceAllowed(p, src, gmo) <==> PlainlyAllowed(p, src, gmo)
  {
    NoInputs(p);
    UnhintedAtomicity(p, src, gmo);
    assert gmo.Keys == p.ops.Keys ==> Extends(gmo, GmoCoherence(p.ops, gmo));
  }

  /** Renamed sources and the renamed order allow the renamed trace. */
  lemma AllowedRenamed(p: Projection, q: Projection, rho: Id -> Id, sigma: int -> int, tau: Address -> Address,
                       src: map<Id, Id>, gmo: map<Id, int>, srcq: map<Id, Id>, gmoq: map<Id, int>)
    requires Corresponds(p, q, rho, sigma, tau, src, gmo, srcq, gmoq) && PlainlyAllowed(p, src, gmo)
    ensures PlainlyAllowed(q, srcq, gmoq)
  {
    SourcesRenamed(p, q, rho, sigma, tau, src, gmo, srcq, gmoq);
    HintsRespectedRenamed(p, q, rho, sigma, tau, src, gmo, srcq, gmoq);
    TotalOrderRenamed(p.ops, q.ops, rho, sigma, tau, gmo, gmoq);
    PpoExtendsRenamed(p, q, rho, sigma, tau, src, gmo, srcq, gmoq);
    forall r | r in srcq ensures LoadValue(GmoCandidate(q, srcq, gmoq), gmoq, r) {
      assert rho(rho(r)) == r;
      LoadValueRenamed(p, q, rho, sigma, tau, src, gmo, srcq, gmoq, rho(r));
    }
    KindsRenamed(p.ops, q.ops, rho, sigma, tau);
  }

  /** Renaming harts, locations and operations does not change whether a trace has an allowed execution. */
  lemma ExecutionsAreNameFree(p: Projection, q: Projection, rho: Id -> Id, sigma: int -> int, tau: Address -> Address)
    requires Unhinted(p) && Unhinted(q) && Renames(p.ops, q.ops, rho, sigma, tau)
    ensures (exists src, gmo :: TraceAllowed(p, src, gmo)) <==> (exists src, gmo :: TraceAllowed(q, src, gmo))
  {
    RenamesBack(p.ops, q.ops, rho, sigma, tau);
    if src, gmo :| TraceAllowed(p, src, gmo) {
      AllowedTransfers(p, q, rho, sigma, tau, src, gmo);
    }
    if src, gmo :| TraceAllowed(q, src, gmo) {
      AllowedTransfers(q, p, rho, sigma, tau, src, gmo);
    }
  }

  lemma AllowedTransfers(p: Projection, q: Projection, rho: Id -> Id, sigma: int -> int, tau: Address -> Address,
                         src: map<Id, Id>, gmo: map<Id, int>)
    requires Unhinted(p) && Unhinted(q) && Renames(p.ops, q.ops, rho, sigma, tau) && TraceAllowed(p, src, gmo)
    ensures TraceAllowed(q, RenameSources(src, rho), RenameKeys(gmo, rho))
  {
    AllowedPlainly(p, src, gmo);
    AllowedRenamed(p, q, rho, sigma, tau, src, gmo, RenameSources(src, rho), RenameKeys(gmo, rho));
    AllowedPlainly(q, RenameSources(src, rho), RenameKeys(gmo, rho));
  }
}
