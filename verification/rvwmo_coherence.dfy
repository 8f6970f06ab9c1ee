/** Consequences of an accepted graph: per-location coherence, AMO atomicity, and what LR/SC atomicity adds. */
module RvwmoCoherence {
  import opened Common
  import opened Relations
  import opened Execution
  import opened Rvwmo
  import opened RvwmoTheory

  // ----- Per-location coherence

  ghost function PoLoc(c: Candidate): set<Edge> {
    set e | e in Po(c.ops) && SameLocation(c.ops[e.0], c.ops[e.1])
  }

  /** Where an operation stands among the writes of its location: a write at itself, a read at its source. */
  ghost function Anchor(c: Candidate, gmo: map<Id, int>, a: Id): int
    requires ValidSources(c.ops, c.src) && gmo.Keys == c.ops.Keys && a in c.ops
  {
    if c.ops[a].IsWrite() then gmo[a] else gmo[c.src[a]]
  }

  /** Earlier anchor first; at one anchor the write first, then the reads of a hart in program order. */
  ghost predicate Earlier(c: Candidate, gmo: map<Id, int>, a: Id, b: Id)
    requires ValidSources(c.ops, c.src) && gmo.Keys == c.ops.Keys
  {
    && a in c.ops && b in c.ops
    && (|| Anchor(c, gmo, a) < Anchor(c, gmo, b)
        || (Anchor(c, gmo, a) == Anchor(c, gmo, b) && !c.ops[b].IsWrite()
            && (c.ops[a].IsWrite() || PoBefore(c.ops, a, b))))
  }

  /** `a` and `b` have no own store to their location between them. */
  ghost predicate NothingBetween(c: Candidate, a: Id, b: Id)
    requires a in c.ops
  {
    !exists m :: PoBefore(c.ops, a, m) && PoBefore(c.ops, m, b) && c.ops[m].IsWrite()
        && SameLocation(c.ops[a], c.ops[m])
  }

  lemma NoByteBetween(c: Candidate, a: Id, b: Id, x: Address)
    requires WellFormed(c) && a in c.ops && NothingBetween(c, a, b) && x in Location(c.ops[a])
    ensures !StoreBetween(c, a, b, x)
  {
    forall m | PoBefore(c.ops, a, m) && PoBefore(c.ops, m, b) && c.ops[m].IsWrite()
      ensures x !in Location(c.ops[m])
    {
      OverlapIsSameLocation(c, a, m);
      assert x !in Location(c.ops[a]) * Location(c.ops[m]);
    }
  }

  /** PPO rule 2: same-location loads with different sources and no own store between them. */
  lemma RuleTwo(c: Candidate, gmo: map<Id, int>, a: Id, b: Id)
    requires WellFormed(c) && Extends(gmo, Ppo(c))
    requires PoBefore(c.ops, a, b) && SameLocation(c.ops[a], c.ops[b]) && NothingBetween(c, a, b)
    requires a in c.src && b in c.src && c.src[a] != c.src[b]
    ensures a in gmo && b in gmo && gmo[a] < gmo[b]
  {
    var x := CommonByte(c, a, b);
    NoByteBetween(c, a, b, x);
    RuleTwoEdge(c, a, b, x);
  }

  lemma CommonByte(c: Candidate, a: Id, b: Id) returns (x: Address)
    requires WellFormed(c) && a in c.ops && b in c.ops && a != b && SameLocation(c.ops[a], c.ops[b])
    ensures x in Location(c.ops[a]) && x in Location(c.ops[b])
  {
    LocationNonempty(c.ops, a, b);
    x :| x in Location(c.ops[a]);
  }

  lemma RuleTwoEdge(c: Candidate, a: Id, b: Id, x: Address)
    requires PoBefore(c.ops, a, b) && c.ops[a].IsRead() && c.ops[b].IsRead()
    requires a in c.src && b in c.src && c.src[a] != c.src[b]
    requires x in Location(c.ops[a]) && x in Location(c.ops[b]) && !StoreBetween(c, a, b, x)
    ensures (a, b) in Ppo(c)
  {
    assert PpoRule(c, 2, a, b);
  }

  /** A source precedes every write that follows its read in program order. */
  lemma ReadThenStore(c: Candidate, gmo: map<Id, int>, r: Id, w: Id)
    requires WellFormed(c) && Respects(c, gmo) && r in c.src && LoadValue(c, gmo, r)
    requires PoBefore(c.ops, r, w) && c.ops[w].IsWrite() && SameLocation(c.ops[r], c.ops[w])
    ensures gmo[c.src[r]] < gmo[w]
  {
    var s := c.src[r];
    assert ValidSource(c.ops, s, r);
    if PoBefore(c.ops, s, r) { PoTransitive(c.ops, s, r, w); }
  }

  /** A write precedes, or is, the source of every read that follows it in program order. */
  lemma StoreThenRead(c: Candidate, gmo: map<Id, int>, w: Id, r: Id)
    requires WellFormed(c) && Respects(c, gmo) && r in c.src && LoadValue(c, gmo, r)
    requires PoBefore(c.ops, w, r) && c.ops[w].IsWrite() && SameLocation(c.ops[w], c.ops[r])
    ensures gmo[w] <= gmo[c.src[r]]
  {
    assert Visible(c, gmo, w, r);
  }

  /** Two reads of a hart never see the writes of their location go backwards. */
  lemma ReadThenRead(c: Candidate, gmo: map<Id, int>, a: Id, b: Id)
    requires WellFormed(c) && Explains(c, gmo) && Respects(c, gmo)
    requires PoBefore(c.ops, a, b) && SameLocation(c.ops[a], c.ops[b]) && a in c.src && b in c.src
    ensures gmo[c.src[a]] <= gmo[c.src[b]]
  {
    var (s, t) := (c.src[a], c.src[b]);
    assert ValidSource(c.ops, s, a) && ValidSource(c.ops, t, b);
    assert LoadValue(c, gmo, a) && LoadValue(c, gmo, b);
    if !NothingBetween(c, a, b) {
      var m :| PoBefore(c.ops, a, m) && PoBefore(c.ops, m, b) && c.ops[m].IsWrite() && SameLocation(c.ops[a], c.ops[m]);
      ReadThenStore(c, gmo, a, m);
      StoreThenRead(c, gmo, m, b);
    } else if s != t {
      RuleTwo(c, gmo, a, b);
      if s != b {
        if PoBefore(c.ops, s, a) { PoTransitive(c.ops, s, a, b); }
        assert Visible(c, gmo, s, b);
      }
    }
  }

  lemma PoLocIsEarlier(c: Candidate, gmo: map<Id, int>, a: Id, b: Id)
    requires WellFormed(c) && Explains(c, gmo) && Respects(c, gmo)
    requires PoBefore(c.ops, a, b) && SameLocation(c.ops[a], c.ops[b])
    ensures Earlier(c, gmo, a, b)
  {
    if c.ops[b].IsWrite() {
      if !c.ops[a].IsWrite() { ReadThenStore(c, gmo, a, b); }
    } else if c.ops[a].IsWrite() {
      StoreThenRead(c, gmo, a, b);
    } else {
      ReadThenRead(c, gmo, a, b);
    }
  }

  lemma RfIsEarlier(c: Candidate, gmo: map<Id, int>, r: Id)
    requires WellFormed(c) && Explains(c, gmo) && Respects(c, gmo) && r in c.src
    ensures Earlier(c, gmo, c.src[r], r)
  {
    assert ValidSource(c.ops, c.src[r], r);
    assert LoadValue(c, gmo, r) && Visible(c, gmo, c.src[r], r);
  }

  lemma FrIsEarlier(c: Candidate, gmo: map<Id, int>, r: Id, w: Id)
    requires WellFormed(c) && Respects(c, gmo) && r in c.src && (c.src[r], w) in c.co && w != r
    ensures Earlier(c, gmo, r, w)
  {
    assert CoherentWrites(c.ops, c.src[r], w);
  }

  lemma CoherenceEdgeIsEarlier(c: Candidate, gmo: map<Id, int>, a: Id, b: Id)
    requires WellFormed(c) && Explains(c, gmo) && Respects(c, gmo)
    requires (a, b) in PoLoc(c) + Rf(c) + c.co + Fr(c)
    ensures Earlier(c, gmo, a, b)
  {
    if (a, b) in PoLoc(c) {
      PoLocIsEarlier(c, gmo, a, b);
    } else if (a, b) in Rf(c) {
      RfIsEarlier(c, gmo, b);
    } else if (a, b) in c.co {
      assert CoherentWrites(c.ops, a, b);
    } else {
      FrIsEarlier(c, gmo, a, b);
    }
  }

  lemma EarlierIsStrict(c: Candidate, gmo: map<Id, int>)
    requires ValidSources(c.ops, c.src) && TotalOrder(gmo, c.ops)
    ensures forall a :: !Earlier(c, gmo, a, a)
    ensures forall a, b, d :: Earlier(c, gmo, a, b) && Earlier(c, gmo, b, d) ==> Earlier(c, gmo, a, d)
  {
    forall a, b, d | Earlier(c, gmo, a, b) && Earlier(c, gmo, b, d) ensures Earlier(c, gmo, a, d) {
      if PoBefore(c.ops, a, b) && PoBefore(c.ops, b, d) { PoTransitive(c.ops, a, b, d); }
    }
  }

  /**
   * Per-location coherence: po-loc, rf, co and fr together have no cycle, although the checker never tests
   * po-loc or internal rf.
   */
  lemma PerLocationCoherence(c: Candidate, gmo: map<Id, int>)
    requires WellFormed(c) && Explains(c, gmo)
    ensures Acyclic(PoLoc(c) + Rf(c) + c.co + Fr(c))
  {
    ExplainsExtends(c, gmo);
    var edges := PoLoc(c) + Rf(c) + c.co + Fr(c);
    forall a, b | (a, b) in edges ensures Earlier(c, gmo, a, b) {
      CoherenceEdgeIsEarlier(c, gmo, a, b);
    }
    EarlierIsStrict(c, gmo);
    StrictOrderIsAcyclic(edges, (a, b) => Earlier(c, gmo, a, b));
  }

  // ----- AMO atomicity is implied

  /** `s` immediately precedes `w` in coherence order. */
  ghost predicate ImmediatePredecessor(c: Candidate, s: Id, w: Id) {
    (s, w) in c.co && !exists m :: (s, m) in c.co && (m, w) in c.co
  }

  /** Every AMO reads from its immediate coherence predecessor. */
  lemma AmoAtomicity(c: Candidate, gmo: map<Id, int>, amo: Id)
    requires WellFormed(c) && Explains(c, gmo) && amo in c.ops && c.ops[amo].kind == Amo
    ensures amo in c.src && ImmediatePredecessor(c, c.src[amo], amo)
  {
    ExplainsExtends(c, gmo);
    RfIsEarlier(c, gmo, amo);
    assert ValidSource(c.ops, c.src[amo], amo);
    assert CoherentWrites(c.ops, c.src[amo], amo);
    forall m | (c.src[amo], m) in c.co ensures (m, amo) !in c.co {
      assert CoherentWrites(c.ops, c.src[amo], m);
      assert m != amo ==> gmo[amo] < gmo[m];
      assert (m, amo) in c.co ==> CoherentWrites(c.ops, m, amo);
    }
  }

  // ----- LR/SC atomicity, as the checker tests it on co

  /** A store of another hart that coherence puts between the source of the LR and the SC. */
  ghost predicate IntervenesInCo(c: Candidate, lr: Id, sc: Id, w: Id)
    requires ValidSources(c.ops, c.src) && lr in c.src && sc in c.ops
  {
    && w in c.ops && c.ops[w].IsWrite() && w != c.src[lr] && w != sc && c.ops[w].hart != c.ops[lr].hart
    && Overlap(c.ops[w], c.ops[lr]) && (c.src[lr], w) in c.co && (w, sc) in c.co
  }

  /** The coherence form of LR/SC atomicity that the checker evaluates. */
  ghost predicate LrScByCoherence(c: Candidate, lr: Id, sc: Id)
    requires ValidSources(c.ops, c.src) && lr in c.src && sc in c.ops
  {
    (c.src[lr], sc) in c.co && !exists w :: IntervenesInCo(c, lr, sc, w)
  }

  lemma InterveningByGmo(c: Candidate, gmo: map<Id, int>, lr: Id, sc: Id, w: Id)
    requires WellFormed(c) && Respects(c, gmo) && lr in c.src
    requires CoherentWrites(c.ops, c.src[lr], sc)
    ensures IntervenesInCo(c, lr, sc, w) <==> Intervenes(c, gmo, lr, sc, w)
  {
    if w in c.ops && c.ops[w].hart != c.ops[lr].hart {
      var s := c.src[lr];
      assert ValidSource(c.ops, s, lr);
      OverlapIsSameLocation(c, w, lr);
      if c.ops[w].IsWrite() && SameLocation(c.ops[w], c.ops[lr]) && w != s && w != sc {
        assert CoherentWrites(c.ops, s, w) && CoherentWrites(c.ops, w, sc);
      }
    }
  }

  lemma PairEdge(c: Candidate, gmo: map<Id, int>, lr: Id, sc: Id)
    requires WellFormed(c) && Respects(c, gmo) && lr in c.src && sc in c.ops
    ensures (c.src[lr], sc) in c.co <==>
            CoherentWrites(c.ops, c.src[lr], sc) && gmo[c.src[lr]] < gmo[sc]
    ensures (c.src[lr], sc) in c.co <==> SharedLocation(c, lr, sc) && gmo[c.src[lr]] < gmo[sc]
  {
    assert ValidSource(c.ops, c.src[lr], lr);
    assert (c.src[lr], sc) in c.co ==> CoherentWrites(c.ops, c.src[lr], sc);
  }

  /** The SC stores to the location of the LR. */
  predicate SharedLocation(c: Candidate, lr: Id, sc: Id)
    requires lr in c.ops && sc in c.ops
  {
    c.ops[sc].IsWrite() && SameLocation(c.ops[lr], c.ops[sc])
  }

  /**
   * It holds exactly when the SC stores to the location of the LR and the standard's atomicity axiom holds of the
   * pair in the witness order.
   */
  lemma LrScByCoherenceIsAtomic(c: Candidate, gmo: map<Id, int>, lr: Id, sc: Id)
    requires WellFormed(c) && Respects(c, gmo) && lr in c.src && sc in c.ops
    ensures LrScByCoherence(c, lr, sc) <==> SharedLocation(c, lr, sc) && LrScAtomic(c, gmo, lr, sc)
  {
    PairEdge(c, gmo, lr, sc);
    if CoherentWrites(c.ops, c.src[lr], sc) {
      forall w ensures IntervenesInCo(c, lr, sc, w) <==> Intervenes(c, gmo, lr, sc, w) {
        InterveningByGmo(c, gmo, lr, sc, w);
      }
      SameInterveners(c, gmo, lr, sc);
    }
  }

  lemma SameInterveners(c: Candidate, gmo: map<Id, int>, lr: Id, sc: Id)
    requires ValidSources(c.ops, c.src) && gmo.Keys == c.ops.Keys && lr in c.src && sc in c.ops
    requires forall w :: IntervenesInCo(c, lr, sc, w) <==> Intervenes(c, gmo, lr, sc, w)
    requires (c.src[lr], sc) in c.co <==> SharedLocation(c, lr, sc) && gmo[c.src[lr]] < gmo[sc]
    ensures LrScByCoherence(c, lr, sc) <==> SharedLocation(c, lr, sc) && LrScAtomic(c, gmo, lr, sc)
  {
  }

  // ----- The verdict

  /** Operations annotated as AMOs really are AMOs. */
  predicate AmosAreAmos(ops: Operations) {
    forall a | a in ops :: ops[a].AtomicKind() == "amo" ==> ops[a].kind == Amo
  }

  /** What the atomicity checks establish, with AMO atomicity taken from co. */
  ghost predicate AtomicByCoherence(c: Candidate)
    requires ValidSources(c.ops, c.src) && ValidPairs(c)
  {
    && (forall a :: a in c.ops && c.ops[a].kind == Amo ==> a in c.src && ImmediatePredecessor(c, c.src[a], a))
    && ScsPaired(c)
    && (forall e :: e in c.inputs.pair ==> LrScByCoherence(c, e.0, e.1))
  }

  /** A graph that passes every check against one picked order is allowed with that order. */
  lemma AcceptedIsAllowed(c: Candidate, picked: map<Id, int>)
    requires WellFormed(c) && ValidPairs(c) && AtomicByCoherence(c)
    requires TotalOrder(picked, c.ops) && Extends(picked, Order(c))
    requires forall r :: r in c.src ==> LoadValue(c, picked, r)
    ensures Allowed(c, picked) && PairsShareLocation(c.ops, c.inputs.pair)
  {
    OrderParts(c, picked);
    ExtensionRespects(c, picked);
    forall e | e in c.inputs.pair ensures SharedLocation(c, e.0, e.1) && LrScAtomic(c, picked, e.0, e.1) {
      LrScByCoherenceIsAtomic(c, picked, e.0, e.1);
    }
  }

  /**
   * An allowed graph whose pairs share a location passes the cycle check and the atomicity checks, and its load
   * values against any picked order.
   */
  lemma AllowedIsAccepted(c: Candidate, gmo: map<Id, int>)
    requires WellFormed(c) && ValidPairs(c) && Allowed(c, gmo) && PairsShareLocation(c.ops, c.inputs.pair)
    ensures Acyclic(Order(c)) && AtomicByCoherence(c)
    ensures forall picked: map<Id, int>, r ::
      TotalOrder(picked, c.ops) && Extends(picked, Order(c)) && r in c.src ==> LoadValue(c, picked, r)
  {
    ExplainsExtends(c, gmo);
    RankedIsAcyclic(Order(c), gmo);
    forall a | a in c.ops && c.ops[a].kind == Amo ensures a in c.src && ImmediatePredecessor(c, c.src[a], a) {
      AmoAtomicity(c, gmo, a);
    }
    forall e | e in c.inputs.pair ensures LrScByCoherence(c, e.0, e.1) {
      LrScByCoherenceIsAtomic(c, gmo, e.0, e.1);
    }
    forall picked: map<Id, int>, r | TotalOrder(picked, c.ops) && Extends(picked, Order(c)) && r in c.src
      ensures LoadValue(c, picked, r)
    {
      OneWitnessSuffices(c, gmo, picked);
    }
  }
}
