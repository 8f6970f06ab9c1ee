/** What acyclicity and one witness order decide: the theorems behind the RVWMO graph checker. */
module RvwmoTheory {
  import opened Common
  import opened Relations
  import opened Execution
  import opened Rvwmo

  lemma LocationNonempty(ops: Operations, a: Id, b: Id)
    requires ScalarLocations(ops) && a in ops && b in ops && a != b
    ensures Location(ops[a]) != {}
  {
    CardinalityOfSubset({a, b}, ops.Keys);
  }

  /** After validation, different operations overlap exactly when they have the same location. */
  lemma OverlapIsSameLocation(c: Candidate, a: Id, b: Id)
    requires WellFormed(c) && a in c.ops && b in c.ops && a != b
    ensures Overlap(c.ops[a], c.ops[b]) <==> SameLocation(c.ops[a], c.ops[b])
  {
    if SameLocation(c.ops[a], c.ops[b]) {
      LocationNonempty(c.ops, a, b);
      assert Location(c.ops[a]) * Location(c.ops[b]) == Location(c.ops[a]);
    }
  }

  lemma PoTransitive(ops: Operations, a: Id, b: Id, d: Id)
    requires PoBefore(ops, a, b) && PoBefore(ops, b, d)
    ensures PoBefore(ops, a, d)
  {
  }

  lemma PoTotal(c: Candidate, a: Id, b: Id)
    requires WellFormed(c) && a in c.ops && b in c.ops && a != b
    requires c.ops[a].hart.Some? && c.ops[a].hart == c.ops[b].hart
    ensures PoBefore(c.ops, a, b) || PoBefore(c.ops, b, a)
  {
    assert c.ops[a].Placed() && c.ops[b].Placed();
  }

  // ----- What a linear extension of the checked relations gives

  /** An access precedes every program-order-later store of its location. */
  ghost predicate OwnStoresOrdered(c: Candidate, gmo: map<Id, int>)
    requires gmo.Keys == c.ops.Keys
  {
    forall a, w :: PoBefore(c.ops, a, w) && c.ops[w].IsWrite() && SameLocation(c.ops[a], c.ops[w]) ==> gmo[a] < gmo[w]
  }

  ghost predicate CoherenceIsGmo(c: Candidate, gmo: map<Id, int>)
    requires gmo.Keys == c.ops.Keys
  {
    forall a, b :: CoherentWrites(c.ops, a, b) ==> ((a, b) in c.co <==> gmo[a] < gmo[b])
  }

  ghost predicate ReadsBeforeNewer(c: Candidate, gmo: map<Id, int>)
    requires gmo.Keys == c.ops.Keys && ValidSources(c.ops, c.src)
  {
    forall r, w :: r in c.src && w in c.ops && CoherentWrites(c.ops, c.src[r], w) && (c.src[r], w) in c.co && w != r ==>
      gmo[r] < gmo[w]
  }

  ghost predicate ExternalSourcesFirst(c: Candidate, gmo: map<Id, int>)
    requires gmo.Keys == c.ops.Keys && ValidSources(c.ops, c.src)
  {
    forall r :: r in c.src && c.ops[c.src[r]].hart != c.ops[r].hart ==> gmo[c.src[r]] < gmo[r]
  }

  /** The facts about an order that the proofs below use. */
  ghost predicate Respects(c: Candidate, gmo: map<Id, int>)
    requires ValidSources(c.ops, c.src)
  {
    && TotalOrder(gmo, c.ops)
    && OwnStoresOrdered(c, gmo)
    && CoherenceIsGmo(c, gmo)
    && ReadsBeforeNewer(c, gmo)
    && ExternalSourcesFirst(c, gmo)
  }

  /** PPO rule 1. */
  lemma PpoOrdersOwnStores(c: Candidate, gmo: map<Id, int>)
    requires WellFormed(c) && TotalOrder(gmo, c.ops) && Extends(gmo, Ppo(c))
    ensures OwnStoresOrdered(c, gmo)
  {
    forall a, w | PoBefore(c.ops, a, w) && c.ops[w].IsWrite() && SameLocation(c.ops[a], c.ops[w])
      ensures gmo[a] < gmo[w]
    {
      OverlapIsSameLocation(c, a, w);
      assert PpoRule(c, 1, a, w);
      assert (a, w) in Ppo(c);
    }
  }

  lemma CoherenceFollowsGmo(c: Candidate, gmo: map<Id, int>)
    requires WellFormed(c) && TotalOrder(gmo, c.ops) && Extends(gmo, c.co)
    ensures CoherenceIsGmo(c, gmo)
  {
    forall a, b | CoherentWrites(c.ops, a, b) ensures (a, b) in c.co <==> gmo[a] < gmo[b] {
      assert (a, b) in c.co || (b, a) in c.co;
    }
  }

  lemma ExtensionRespects(c: Candidate, gmo: map<Id, int>)
    requires WellFormed(c) && TotalOrder(gmo, c.ops)
    requires Extends(gmo, Ppo(c)) && Extends(gmo, Rfe(c)) && Extends(gmo, c.co) && Extends(gmo, Fr(c))
    ensures Respects(c, gmo)
  {
    PpoOrdersOwnStores(c, gmo);
    CoherenceFollowsGmo(c, gmo);
    forall r, w | r in c.src && w in c.ops && (c.src[r], w) in c.co && w != r ensures gmo[r] < gmo[w] {
      assert (r, w) in Fr(c);
    }
    forall r | r in c.src && c.ops[c.src[r]].hart != c.ops[r].hart ensures gmo[c.src[r]] < gmo[r] {
      assert (c.src[r], r) in Rfe(c);
    }
  }

  lemma OrderParts(c: Candidate, gmo: map<Id, int>)
    requires ValidSources(c.ops, c.src)
    ensures Extends(gmo, Order(c)) <==>
            Extends(gmo, Ppo(c)) && Extends(gmo, Rfe(c)) && Extends(gmo, c.co) && Extends(gmo, Fr(c))
  {
    var order := Order(c);
    assert forall e :: e in order <==> e in Ppo(c) || e in Rfe(c) || e in c.co || e in Fr(c);
  }

  // ----- One witness order suffices

  /** The offence of a read in po, rf and co alone: it reads its own future, or a newer own write hides the source. */
  ghost predicate StaleOrFuture(c: Candidate, r: Id)
    requires ValidSources(c.ops, c.src) && r in c.src
  {
    || PoBefore(c.ops, r, c.src[r])
    || exists w :: CoherentWrites(c.ops, c.src[r], w) && (c.src[r], w) in c.co && w != r && PoBefore(c.ops, w, r)
  }

  /** In every order the checker may pick, the source is visible unless it is in the read's own future. */
  lemma SourceVisible(c: Candidate, gmo: map<Id, int>, r: Id)
    requires WellFormed(c) && Respects(c, gmo) && r in c.src
    ensures Visible(c, gmo, c.src[r], r) <==> !PoBefore(c.ops, r, c.src[r])
  {
    assert ValidSource(c.ops, c.src[r], r);
    if c.ops[c.src[r]].hart == c.ops[r].hart {
      assert c.ops[r].Placed();
      PoTotal(c, c.src[r], r);
    }
  }

  /** A write newer than the source is visible exactly when it is an own earlier write. */
  lemma NewerVisible(c: Candidate, gmo: map<Id, int>, r: Id, w: Id)
    requires ValidSources(c.ops, c.src) && Respects(c, gmo) && r in c.src && w != r
    requires CoherentWrites(c.ops, c.src[r], w)
    ensures Visible(c, gmo, w, r) && gmo[w] > gmo[c.src[r]] <==> (c.src[r], w) in c.co && PoBefore(c.ops, w, r)
  {
    assert ValidSource(c.ops, c.src[r], r);
  }

  /** The load-value verdict of a read does not depend on which linear extension was picked. */
  lemma LoadValueIsWitnessFree(c: Candidate, gmo: map<Id, int>, r: Id)
    requires WellFormed(c) && Respects(c, gmo) && r in c.src
    ensures LoadValue(c, gmo, r) <==> !StaleOrFuture(c, r)
  {
    var s := c.src[r];
    assert ValidSource(c.ops, s, r);
    SourceVisible(c, gmo, r);
    if StaleOrFuture(c, r) && !PoBefore(c.ops, r, s) {
      var w :| CoherentWrites(c.ops, s, w) && (s, w) in c.co && w != r && PoBefore(c.ops, w, r);
      NewerVisible(c, gmo, r, w);
    }
    if !LoadValue(c, gmo, r) && Visible(c, gmo, s, r) {
      var w :| w in c.ops && Visible(c, gmo, w, r) && gmo[w] > gmo[s];
      assert CoherentWrites(c.ops, s, w);
      NewerVisible(c, gmo, r, w);
    }
  }

  /** Two linear extensions give every read the same verdict. */
  lemma OneWitnessSuffices(c: Candidate, gmo: map<Id, int>, other: map<Id, int>)
    requires WellFormed(c)
    requires TotalOrder(gmo, c.ops) && Extends(gmo, Order(c))
    requires TotalOrder(other, c.ops) && Extends(other, Order(c))
    ensures forall r :: r in c.src ==> (LoadValue(c, gmo, r) <==> LoadValue(c, other, r))
  {
    OrderParts(c, gmo);
    OrderParts(c, other);
    ExtensionRespects(c, gmo);
    ExtensionRespects(c, other);
    forall r | r in c.src ensures LoadValue(c, gmo, r) <==> LoadValue(c, other, r) {
      LoadValueIsWitnessFree(c, gmo, r);
      LoadValueIsWitnessFree(c, other, r);
    }
  }

  // ----- The standard's orders are exactly the checker's

  /** An order with the standard's load values runs every external source before its read. */
  lemma ExplainsRfe(c: Candidate, gmo: map<Id, int>)
    requires ValidSources(c.ops, c.src) && TotalOrder(gmo, c.ops)
    requires forall r :: r in c.src ==> LoadValue(c, gmo, r)
    ensures Extends(gmo, Rfe(c))
  {
    forall e | e in Rfe(c) ensures e.0 in gmo && e.1 in gmo && gmo[e.0] < gmo[e.1] {
      assert LoadValue(c, gmo, e.1) && Visible(c, gmo, e.0, e.1);
    }
  }

  /** ... and every read before the writes that overwrite its source. */
  lemma ExplainsFr(c: Candidate, gmo: map<Id, int>)
    requires ValidSources(c.ops, c.src) && ValidCoherence(c.ops, c.co) && TotalOrder(gmo, c.ops)
    requires Extends(gmo, c.co)
    requires forall r :: r in c.src ==> LoadValue(c, gmo, r)
    ensures Extends(gmo, Fr(c))
  {
    forall e | e in Fr(c) ensures e.0 in gmo && e.1 in gmo && gmo[e.0] < gmo[e.1] {
      var (r, w) := (e.0, e.1);
      assert LoadValue(c, gmo, r) && (c.src[r], w) in c.co;
      assert CoherentWrites(c.ops, c.src[r], w) && ValidSource(c.ops, c.src[r], r);
      assert !Visible(c, gmo, w, r);
    }
  }

  lemma ExplainsExtends(c: Candidate, gmo: map<Id, int>)
    requires WellFormed(c) && Explains(c, gmo)
    ensures Extends(gmo, Order(c)) && Respects(c, gmo)
  {
    ExplainsRfe(c, gmo);
    ExplainsFr(c, gmo);
    OrderParts(c, gmo);
    ExtensionRespects(c, gmo);
  }

  /**
   * Checker equals standard: testing the load values against any one linear extension `picked` of the checked
   * relations decides whether the standard has an order at all.
   */
  lemma PickedOrderDecides(c: Candidate, picked: map<Id, int>)
    requires WellFormed(c) && TotalOrder(picked, c.ops) && Extends(picked, Order(c))
    ensures (forall r :: r in c.src ==> LoadValue(c, picked, r)) <==> exists gmo: map<Id, int> :: Explains(c, gmo)
  {
    OrderParts(c, picked);
    if forall r :: r in c.src ==> LoadValue(c, picked, r) {
      assert Explains(c, picked);
    }
    if gmo: map<Id, int> :| Explains(c, gmo) {
      ExplainsExtends(c, gmo);
      OneWitnessSuffices(c, gmo, picked);
    }
  }

  /** A cycle in the checked relations rules out every order of the standard. */
  lemma CycleRefutesStandard(c: Candidate)
    requires WellFormed(c) && !Acyclic(Order(c))
    ensures !exists gmo: map<Id, int> :: Explains(c, gmo)
  {
    if gmo: map<Id, int> :| Explains(c, gmo) {
      ExplainsExtends(c, gmo);
      RankedIsAcyclic(Order(c), gmo);
    }
  }
}
