/** Which relation hints order memory accesses, by their names. */
module Hints {
  import opened Common
  import opened Relations
  import opened Execution
  import opened Rvwmo
  import opened RvwmoTheory
  import opened RvwmoChecker
  import opened Builder
  import opened Checker

  type Named = map<string, set<Edge>>

  predicate Hinted(hints: Named, name: string, a: Id, b: Id) {
    name in hints && (a, b) in hints[name]
  }

  /** A hint orders the accesses: fences, pairs and address dependencies any, the others those that end in a write. */
  ghost predicate HintPreserves(ops: Operations, src: map<Id, Id>, hints: Named, a: Id, b: Id)
    requires a in ops && b in ops
  {
    || Hinted(hints, "fence", a, b) || Hinted(hints, "pair", a, b) || Hinted(hints, "addr", a, b)
    || (ops[b].IsWrite()
        && (Hinted(hints, "data", a, b) || Hinted(hints, "ctrl", a, b) || Hinted(hints, "pipeline", a, b)))
    || FeedsForwardedStore(ops, src, hints, a, b)
    || AddressesEarlier(ops, hints, a, b)
  }

  /** `a` gives the address or the data of an own store that `b` reads. */
  ghost predicate FeedsForwardedStore(ops: Operations, src: map<Id, Id>, hints: Named, a: Id, b: Id) {
    && b in ops && ops[b].IsRead() && b in src && src[b] in ops && ops[src[b]].IsWrite()
    && PoBefore(ops, a, src[b]) && PoBefore(ops, src[b], b)
    && (Hinted(hints, "addr", a, src[b]) || Hinted(hints, "data", a, src[b]))
  }

  /** `a` gives the address of an access before the write `b`. */
  ghost predicate AddressesEarlier(ops: Operations, hints: Named, a: Id, b: Id) {
    && b in ops && ops[b].IsWrite()
    && exists m :: Hinted(hints, "addr", a, m) && PoBefore(ops, a, m) && PoBefore(ops, m, b)
  }

  predicate AnnotatedOneOf(op: Operation, names: set<string>) {
    exists name | name in names :: name in op.metadata.ordering
  }

  /** What the accesses order by themselves: locations, atomics and ordering annotations. */
  ghost predicate AccessesPreserve(c: Candidate, a: Id, b: Id)
    requires a in c.ops && b in c.ops
  {
    var (first, second) := (c.ops[a], c.ops[b]);
    || (second.kind != Read && Location(first) * Location(second) != {})
    || (first.IsRead() && second.IsRead() && a in c.src && b in c.src && c.src[a] != c.src[b]
        && exists x :: x in Location(first) && x in Location(second) && !StoreBetween(c, a, b, x))
    || ((first.kind == Amo || first.metadata.atomicKind in {"amo", "sc"}) && second.kind in {Read, Amo} && b in c.src
        && c.src[b] == a)
    || first.metadata.acquire || AnnotatedOneOf(first, {"acquire", "acquire_rcpc", "acquire_rcsc", "aq"})
    || second.metadata.release || AnnotatedOneOf(second, {"release", "release_rcpc", "release_rcsc", "rl"})
    || (SequentiallyAnnotated(first) && SequentiallyAnnotated(second))
  }

  predicate SequentiallyAnnotated(op: Operation) {
    op.metadata.rcsc || AnnotatedOneOf(op, {"acquire_rcsc", "release_rcsc", "rcsc", "aq", "rl"})
  }

  lemma AnnotatedMeans(op: Operation, names: set<string>)
    ensures op.metadata.ordering * names != {} <==> AnnotatedOneOf(op, names)
  {
    if name :| name in names && name in op.metadata.ordering { assert name in op.metadata.ordering * names; }
    if op.metadata.ordering * names != {} { var name :| name in op.metadata.ordering * names; }
  }

  lemma AnnotationsMean(op: Operation)
    ensures op.IsAcquire() <==>
            op.metadata.acquire || AnnotatedOneOf(op, {"acquire", "acquire_rcpc", "acquire_rcsc", "aq"})
    ensures op.IsRelease() <==>
            op.metadata.release || AnnotatedOneOf(op, {"release", "release_rcpc", "release_rcsc", "rl"})
    ensures op.IsRcsc() <==> SequentiallyAnnotated(op)
  {
    AnnotatedMeans(op, {"acquire", "acquire_rcpc", "acquire_rcsc", "aq"});
    AnnotatedMeans(op, {"release", "release_rcpc", "release_rcsc", "rl"});
    AnnotatedMeans(op, {"acquire_rcsc", "release_rcsc", "rcsc", "aq", "rl"});
  }

  /** Preserved program order is what accesses preserve and what the named hints preserve, and nothing else. */
  lemma PreservedByName(c: Candidate, hints: Named, a: Id, b: Id)
    requires c.inputs == InputsFrom(hints) && PoBefore(c.ops, a, b)
    ensures (a, b) in Ppo(c) <==> AccessesPreserve(c, a, b) || HintPreserves(c.ops, c.src, hints, a, b)
  {
    AnnotationsMean(c.ops[a]);
    AnnotationsMean(c.ops[b]);
    if AccessesPreserve(c, a, b) { AccessRule(c, a, b); }
    if HintPreserves(c.ops, c.src, hints, a, b) { HintRule(c, hints, a, b); }
    if k :| 1 <= k <= 13 && PpoRule(c, k, a, b) { RulePreserves(c, hints, k, a, b); }
  }

  lemma AccessRule(c: Candidate, a: Id, b: Id)
    requires PoBefore(c.ops, a, b) && AccessesPreserve(c, a, b)
    ensures exists k :: 1 <= k <= 13 && PpoRule(c, k, a, b)
  {
    AnnotationsMean(c.ops[a]);
    AnnotationsMean(c.ops[b]);
    assert || PpoRule(c, 1, a, b) || PpoRule(c, 2, a, b) || PpoRule(c, 3, a, b)
           || PpoRule(c, 5, a, b) || PpoRule(c, 6, a, b) || PpoRule(c, 7, a, b);
  }

  lemma HintRule(c: Candidate, hints: Named, a: Id, b: Id)
    requires c.inputs == InputsFrom(hints) && PoBefore(c.ops, a, b) && HintPreserves(c.ops, c.src, hints, a, b)
    ensures exists k :: 1 <= k <= 13 && PpoRule(c, k, a, b)
  {
    assert || PpoRule(c, 4, a, b) || PpoRule(c, 8, a, b) || PpoRule(c, 9, a, b) || PpoRule(c, 10, a, b)
           || PpoRule(c, 11, a, b) || PpoRule(c, 12, a, b) || PpoRule(c, 13, a, b);
  }

  lemma RulePreserves(c: Candidate, hints: Named, k: int, a: Id, b: Id)
    requires c.inputs == InputsFrom(hints) && PoBefore(c.ops, a, b) && 1 <= k <= 13 && PpoRule(c, k, a, b)
    ensures AccessesPreserve(c, a, b) || HintPreserves(c.ops, c.src, hints, a, b)
  {
    AnnotationsMean(c.ops[a]);
    AnnotationsMean(c.ops[b]);
  }

  // ----- Graphs

  /** The named relations of a graph order its accesses in every order that explains it. */
  lemma GraphHintsOrder(g: Graph, c: Candidate, gmo: map<Id, int>)
    requires Describes(g, c) && WellFormed(c) && Explains(c, gmo)
    ensures forall a, b ::
      Hinted(g.relations, "addr", a, b) || Hinted(g.relations, "fence", a, b) || Hinted(g.relations, "pair", a, b) ==>
        a in gmo && b in gmo && gmo[a] < gmo[b]
    ensures forall a, b | b in c.ops && c.ops[b].IsWrite() ::
      Hinted(g.relations, "data", a, b) || Hinted(g.relations, "ctrl", a, b)
      || Hinted(g.relations, "pipeline", a, b) ==>
        a in gmo && b in gmo && gmo[a] < gmo[b]
    ensures forall a, b ::
      FeedsForwardedStore(c.ops, c.src, g.relations, a, b) || AddressesEarlier(c.ops, g.relations, a, b) ==>
      a in gmo && b in gmo && gmo[a] < gmo[b]
  {
    HintsOrder(c, g.relations, gmo);
  }

  lemma HintInPo(c: Candidate, hints: Named, name: string, a: Id, b: Id)
    requires c.inputs == InputsFrom(hints) && ValidInputs(c.ops, c.inputs) && Hinted(hints, name, a, b)
    requires name in {"addr", "data", "ctrl", "fence", "pair", "pipeline"}
    ensures PoBefore(c.ops, a, b)
  {
    assert (a, b) in Po(c.ops);
  }

  lemma HintsOrder(c: Candidate, hints: Named, gmo: map<Id, int>)
    requires c.inputs == InputsFrom(hints) && ValidInputs(c.ops, c.inputs) && Extends(gmo, Ppo(c))
    ensures forall a, b ::
      Hinted(hints, "addr", a, b) || Hinted(hints, "fence", a, b) || Hinted(hints, "pair", a, b) ==>
        a in gmo && b in gmo && gmo[a] < gmo[b]
    ensures forall a, b | b in c.ops && c.ops[b].IsWrite() ::
      Hinted(hints, "data", a, b) || Hinted(hints, "ctrl", a, b) || Hinted(hints, "pipeline", a, b) ==>
        a in gmo && b in gmo && gmo[a] < gmo[b]
    ensures forall a, b :: FeedsForwardedStore(c.ops, c.src, hints, a, b) || AddressesEarlier(c.ops, hints, a, b) ==>
      a in gmo && b in gmo && gmo[a] < gmo[b]
  {
    forall a, b | PoBefore(c.ops, a, b) && HintPreserves(c.ops, c.src, hints, a, b)
      ensures a in gmo && b in gmo && gmo[a] < gmo[b]
    {
      PreservedByName(c, hints, a, b);
      assert (a, b) in Ppo(c);
    }
    forall a, b, name | name in {"addr", "data", "ctrl", "fence", "pair", "pipeline"} && Hinted(hints, name, a, b)
      ensures PoBefore(c.ops, a, b)
    {
      HintInPo(c, hints, name, a, b);
    }
    forall a, b | FeedsForwardedStore(c.ops, c.src, hints, a, b) ensures PoBefore(c.ops, a, b) {
      PoTransitive(c.ops, a, c.src[b], b);
    }
    forall a, b | AddressesEarlier(c.ops, hints, a, b) ensures PoBefore(c.ops, a, b) {
      var m :| Hinted(hints, "addr", a, m) && PoBefore(c.ops, a, m) && PoBefore(c.ops, m, b);
      PoTransitive(c.ops, a, m, b);
    }
  }

  // ----- Traces

  /** The named hints of a trace order its accesses in every execution; pairs join LRs to SCs. */
  lemma TraceHintsOrder(p: Projection, maxCandidates: int, src: map<Id, Id>, gmo: map<Id, int>)
    requires !TraceRaises(p, maxCandidates) && TraceAllowed(p, src, gmo)
    ensures forall a, b ::
      Hinted(p.relationHints, "addr", a, b) || Hinted(p.relationHints, "fence", a, b)
      || Hinted(p.relationHints, "pair", a, b) ==>
        a in gmo && b in gmo && gmo[a] < gmo[b]
    ensures forall a, b | b in p.ops && p.ops[b].IsWrite() ::
      Hinted(p.relationHints, "data", a, b) || Hinted(p.relationHints, "ctrl", a, b)
      || Hinted(p.relationHints, "pipeline", a, b) ==>
        a in gmo && b in gmo && gmo[a] < gmo[b]
    ensures forall a, b ::
      FeedsForwardedStore(p.ops, src, p.relationHints, a, b) || AddressesEarlier(p.ops, p.relationHints, a, b) ==>
        a in gmo && b in gmo && gmo[a] < gmo[b]
    ensures forall a, b | Hinted(p.relationHints, "pair", a, b) ::
      a in p.ops && b in p.ops && p.ops[a].AtomicKind() == "lr" && p.ops[b].AtomicKind() == "sc"
  {
    var s :| LegalSelection(p, s) && Checked(p, s);
    HintsOrder(GmoCandidate(p, src, gmo), p.relationHints, gmo);
    forall a, b | Hinted(p.relationHints, "pair", a, b)
      ensures a in p.ops && b in p.ops && p.ops[a].AtomicKind() == "lr" && p.ops[b].AtomicKind() == "sc"
    {
      assert (a, b) in HintedInputs(p).pair;
    }
  }

  /** Hints with other names do not matter. */
  lemma OtherHintsAreIgnored(p: Projection, q: Projection, src: map<Id, Id>, gmo: map<Id, int>)
    requires p.ops == q.ops && p.rfHints == q.rfHints && p.coHints == q.coHints
    requires forall name, a, b | name in {"addr", "data", "ctrl", "fence", "pair", "pipeline"} ::
      Hinted(p.relationHints, name, a, b) <==> Hinted(q.relationHints, name, a, b)
    ensures TraceAllowed(p, src, gmo) <==> TraceAllowed(q, src, gmo)
  {
    forall name | name in {"addr", "data", "ctrl", "fence", "pair", "pipeline"}
      ensures (if name in p.relationHints then p.relationHints[name] else {})
           == (if name in q.relationHints then q.relationHints[name] else {})
    {
      SameHints(p.relationHints, q.relationHints, name);
    }
    assert HintedInputs(p) == HintedInputs(q);
  }

  lemma SameHints(hints: Named, others: Named, name: string)
    requires forall a, b :: Hinted(hints, name, a, b) <==> Hinted(others, name, a, b)
    ensures (if name in hints then hints[name] else {}) == (if name in others then others[name] else {})
  {
    var (left, right) := (if name in hints then hints[name] else {}, if name in others then others[name] else {});
    forall e ensures e in left <==> e in right {
      assert e == (e.0, e.1);
      assert e in left <==> Hinted(hints, name, e.0, e.1);
      assert e in right <==> Hinted(others, name, e.0, e.1);
    }
  }
}
