/** RVWMO: the axiomatic model and what the graph checker's conditions mean in it. */
module Rvwmo {
  import opened Common
  import opened Relations
  import opened Execution

  /** The relations a front-end supplies next to rf and co. */
  datatype Inputs = Inputs(addr: set<Edge>, data: set<Edge>, ctrl: set<Edge>, fence: set<Edge>,
                           pair: set<Edge>, pipeline: set<Edge>)

  /** The relations a front-end names; absent ones are empty. */
  function InputsFrom(relations: map<string, set<Edge>>): Inputs {
    var named := (name: string) => if name in relations then relations[name] else {};
    Inputs(named("addr"), named("data"), named("ctrl"), named("fence"), named("pair"), named("pipeline"))
  }

  /** A candidate execution: operations, the source write of each read, coherence, and the inputs. */
  datatype Candidate = Candidate(ops: Operations, src: map<Id, Id>, co: set<Edge>, inputs: Inputs)

  predicate PoBefore(ops: Operations, a: Id, b: Id) {
    && a in ops && b in ops
    && ops[a].hart.Some? && ops[a].hart == ops[b].hart
    && ops[a].programIndex.Some? && ops[b].programIndex.Some?
    && ops[a].programIndex.value < ops[b].programIndex.value
  }

  ghost function Po(ops: Operations): set<Edge> {
    set a, b | a in ops && b in ops && PoBefore(ops, a, b) :: (a, b)
  }

  // ----- Well-formed candidates

  ghost predicate DistinctIndexes(ops: Operations) {
    forall a, b :: a in ops && b in ops && a != b && ops[a].hart.Some? && ops[a].hart == ops[b].hart ==>
      ops[a].programIndex != ops[b].programIndex
  }

  /** No two operations overlap only partially. */
  ghost predicate ScalarLocations(ops: Operations) {
    && (|ops| >= 2 ==> forall a :: a in ops ==> Footprint(ops[a]).Ok?)
    && (forall a, b :: a in ops && b in ops && a != b && Overlap(ops[a], ops[b]) ==> SameLocation(ops[a], ops[b]))
  }

  predicate ValidSource(ops: Operations, w: Id, r: Id) {
    && w in ops && r in ops && w != r && ops[w].IsWrite() && ops[r].IsRead()
    && SameLocation(ops[w], ops[r]) && ops[w].StoredValue() == ops[r].value
  }

  /** Every read has exactly one source: a different write of its location and value. */
  ghost predicate ValidSources(ops: Operations, src: map<Id, Id>) {
    && (forall r :: r in src <==> r in ops && ops[r].IsRead())
    && (forall r :: r in src ==> ValidSource(ops, src[r], r))
  }

  predicate CoherentWrites(ops: Operations, a: Id, b: Id) {
    a in ops && b in ops && a != b && ops[a].IsWrite() && ops[b].IsWrite() && SameLocation(ops[a], ops[b])
  }

  /** co orders the writes of each location totally and puts the initial write first. */
  ghost predicate ValidCoherence(ops: Operations, co: set<Edge>) {
    && (forall e :: e in co ==> CoherentWrites(ops, e.0, e.1))
    && (forall a, b :: CoherentWrites(ops, a, b) ==> ((a, b) in co <==> (b, a) !in co))
    && Acyclic(co)
    && (forall a, b :: CoherentWrites(ops, a, b) && ops[a].kind == InitWrite ==> (a, b) in co)
  }

  ghost predicate ValidInputs(ops: Operations, inputs: Inputs) {
    inputs.addr + inputs.data + inputs.ctrl + inputs.fence + inputs.pair + inputs.pipeline <= Po(ops)
  }

  ghost predicate Placed(ops: Operations) {
    forall a :: a in ops ==> ops[a].Placed()
  }

  /** Regular, placed, scalar operations with distinct indexes on each hart. */
  ghost predicate ValidOperations(ops: Operations) {
    && Placed(ops)
    && (forall a :: a in ops ==> ops[a].IsRegular())
    && ScalarLocations(ops)
    && DistinctIndexes(ops)
  }

  ghost predicate WellFormed(c: Candidate) {
    && ValidOperations(c.ops)
    && ValidSources(c.ops, c.src)
    && ValidCoherence(c.ops, c.co)
    && ValidInputs(c.ops, c.inputs)
  }

  // ----- Preserved program order, in the words of the RVWMO rules

  /** A store to byte `x` lies between `a` and `b` in program order. */
  ghost predicate StoreBetween(c: Candidate, a: Id, b: Id, x: Address) {
    exists m :: PoBefore(c.ops, a, m) && PoBefore(c.ops, m, b) && c.ops[m].IsWrite() && x in Location(c.ops[m])
  }

  /** Rule `k` orders `a` before `b`, given that `a` precedes `b` in program order. */
  ghost predicate PpoRule(c: Candidate, k: int, a: Id, b: Id)
    requires PoBefore(c.ops, a, b)
  {
    var (first, second) := (c.ops[a], c.ops[b]);
    if k == 1 then
      second.IsWrite() && Overlap(first, second)
    else if k == 2 then
      && first.IsRead() && second.IsRead() && a in c.src && b in c.src && c.src[a] != c.src[b]
      && exists x :: x in Location(first) && x in Location(second) && !StoreBetween(c, a, b, x)
    else if k == 3 then
      first.AtomicKind() in {"amo", "sc"} && second.IsRead() && b in c.src && c.src[b] == a
    else if k == 4 then (a, b) in c.inputs.fence
    else if k == 5 then first.IsAcquire()
    else if k == 6 then second.IsRelease()
    else if k == 7 then first.IsRcsc() && second.IsRcsc()
    else if k == 8 then (a, b) in c.inputs.pair
    else if k == 9 then (a, b) in c.inputs.addr
    else if k == 10 then second.IsWrite() && (a, b) in c.inputs.data
    else if k == 11 then second.IsWrite() && (a, b) in c.inputs.ctrl
    else if k == 12 then
      && second.IsRead() && b in c.src && PoBefore(c.ops, a, c.src[b]) && PoBefore(c.ops, c.src[b], b)
      && c.ops[c.src[b]].IsWrite()
      && ((a, c.src[b]) in c.inputs.addr || (a, c.src[b]) in c.inputs.data)
    else if k == 13 then
      && second.IsWrite()
      && ((a, b) in c.inputs.pipeline
          || exists m :: (a, m) in c.inputs.addr && PoBefore(c.ops, a, m) && PoBefore(c.ops, m, b))
    else false
  }

  ghost function PpoRuleEdges(c: Candidate, k: int): set<Edge> {
    set e | e in Po(c.ops) && PpoRule(c, k, e.0, e.1)
  }

  ghost predicate Preserved(c: Candidate, a: Id, b: Id) {
    PoBefore(c.ops, a, b) && exists k :: 1 <= k <= 13 && PpoRule(c, k, a, b)
  }

  ghost function Ppo(c: Candidate): set<Edge> {
    set e | e in Po(c.ops) && Preserved(c, e.0, e.1)
  }

  // ----- Derived communication relations

  function SourceEdges(src: map<Id, Id>): set<Edge> {
    set r | r in src :: (src[r], r)
  }

  function Rf(c: Candidate): set<Edge> {
    SourceEdges(c.src)
  }

  ghost function Rfe(c: Candidate): set<Edge>
    requires ValidSources(c.ops, c.src)
  {
    set r | r in c.src && c.ops[c.src[r]].hart != c.ops[r].hart :: (c.src[r], r)
  }

  /** A read precedes every write that is coherence-after its source. */
  ghost function Fr(c: Candidate): set<Edge> {
    set r, e | r in c.src && e in c.co && e.0 == c.src[r] && e.1 != r :: (r, e.1)
  }

  /** The union whose acyclicity the checker tests. */
  ghost function Order(c: Candidate): set<Edge>
    requires ValidSources(c.ops, c.src)
  {
    Ppo(c) + Rfe(c) + c.co + Fr(c)
  }

  // ----- The axioms

  /** A global memory order is an injective ranking of the operations. */
  ghost predicate TotalOrder(gmo: map<Id, int>, ops: Operations) {
    gmo.Keys == ops.Keys && forall a, b :: a in gmo && b in gmo && a != b ==> gmo[a] != gmo[b]
  }

  /** `w` is another write of the location of `r`, before `r` in global memory order or program order. */
  ghost predicate Visible(c: Candidate, gmo: map<Id, int>, w: Id, r: Id)
    requires gmo.Keys == c.ops.Keys && r in c.ops
  {
    && w in c.ops && c.ops[w].IsWrite() && w != r && SameLocation(c.ops[w], c.ops[r])
    && (gmo[w] < gmo[r] || PoBefore(c.ops, w, r))
  }

  /** Load Value Axiom: the source of `r` is the latest visible write. */
  ghost predicate LoadValue(c: Candidate, gmo: map<Id, int>, r: Id)
    requires gmo.Keys == c.ops.Keys && ValidSources(c.ops, c.src) && r in c.src
  {
    Visible(c, gmo, c.src[r], r) && forall w :: w in c.ops && Visible(c, gmo, w, r) ==> gmo[w] <= gmo[c.src[r]]
  }

  /** The memory-order axioms of the standard: the order respects ppo and co and gives every read its value. */
  ghost predicate Explains(c: Candidate, gmo: map<Id, int>)
    requires ValidSources(c.ops, c.src)
  {
    && TotalOrder(gmo, c.ops)
    && Extends(gmo, Ppo(c))
    && Extends(gmo, c.co)
    && forall r :: r in c.src ==> LoadValue(c, gmo, r)
  }

  /** A store of another hart to the location of the LR, between its source and the SC. */
  ghost predicate Intervenes(c: Candidate, gmo: map<Id, int>, lr: Id, sc: Id, w: Id)
    requires gmo.Keys == c.ops.Keys && ValidSources(c.ops, c.src) && lr in c.src && sc in c.ops
  {
    && w in c.ops && c.ops[w].IsWrite() && c.ops[w].hart != c.ops[lr].hart
    && SameLocation(c.ops[w], c.ops[lr]) && gmo[c.src[lr]] < gmo[w] < gmo[sc]
  }

  /**
   * Atomicity Axiom for a paired LR and SC: the write the LR returns precedes the SC, and no store of another
   * hart to the location of the LR lies between them. The SC may have another location.
   */
  ghost predicate LrScAtomic(c: Candidate, gmo: map<Id, int>, lr: Id, sc: Id)
    requires gmo.Keys == c.ops.Keys && ValidSources(c.ops, c.src) && lr in c.src && sc in c.ops
  {
    gmo[c.src[lr]] < gmo[sc] && !exists w :: Intervenes(c, gmo, lr, sc, w)
  }

  /** The pair relation joins LRs to SCs, each LR to at most one SC. */
  ghost predicate ValidPairs(c: Candidate) {
    && (forall e :: e in c.inputs.pair ==>
          && e.0 in c.ops && e.1 in c.ops
          && c.ops[e.0].AtomicKind() == "lr" && c.ops[e.1].AtomicKind() == "sc" && c.ops[e.0].IsRead())
    && (forall e, f :: e in c.inputs.pair && f in c.inputs.pair && e.0 == f.0 ==> e == f)
  }

  /** Every SC of the graph succeeded, so it is paired with exactly one LR. */
  ghost predicate ScsPaired(c: Candidate) {
    && (forall s :: s in c.ops && c.ops[s].AtomicKind() == "sc" ==> s in set e | e in c.inputs.pair :: e.1)
    && (forall e, f :: e in c.inputs.pair && f in c.inputs.pair && e.1 == f.1 ==> e == f)
  }

  /** The SC of every pair stores to the location of its LR. The axioms do not ask for it, the checker does. */
  predicate PairsShareLocation(ops: Operations, pairs: set<Edge>) {
    forall e | e in pairs :: e.0 in ops && e.1 in ops && ops[e.1].IsWrite() && SameLocation(ops[e.0], ops[e.1])
  }

  /** The execution is allowed with global memory order `gmo`: memory-order and atomicity axioms. */
  ghost predicate Allowed(c: Candidate, gmo: map<Id, int>)
    requires ValidSources(c.ops, c.src) && ValidPairs(c)
  {
    && Explains(c, gmo)
    && ScsPaired(c)
    && (forall e :: e in c.inputs.pair ==> LrScAtomic(c, gmo, e.0, e.1))
  }
}
