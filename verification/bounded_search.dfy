/** Generating bounded programs: the reductions that skip programs are sound for forbidden executions. */
module BoundedSearch {
  import opened Common
  import opened Relations
  import opened Execution
  import opened Rvwmo
  import opened Builder
  import opened Checker
  import opened Renaming
  import opened TraceErrors
  import opened RenamedTraces
  import opened Literals

  /** One choice of the generator: a load or a store of a hart, with its address and value. */
  datatype RawOp = RawOp(store: bool, hart: int, address: Address, value: int)

  datatype Assigned = Assigned(id: Id, store: bool, hart: int, programIndex: int, address: Address, value: int)

  /** The initial write of an address. */
  datatype Initial = Initial(id: Id, address: Address)

  function CountKind(raw: seq<RawOp>, store: bool): nat {
    if raw == [] then 0
    else CountKind(raw[..|raw| - 1], store) + if raw[|raw| - 1].store == store then 1 else 0
  }

  function CountHart(raw: seq<RawOp>, hart: int): nat {
    if raw == [] then 0
    else CountHart(raw[..|raw| - 1], hart) + if raw[|raw| - 1].hart == hart then 1 else 0
  }

  function IdOf(raw: seq<RawOp>, i: nat): Id
    requires i < |raw|
  {
    (if raw[i].store then "W" else "L") + Digits(CountKind(raw[..i], raw[i].store))
  }

  function AssignedAt(raw: seq<RawOp>, i: nat): Assigned
    requires i < |raw|
  {
    Assigned(IdOf(raw, i), raw[i].store, raw[i].hart, CountHart(raw[..i], raw[i].hart), raw[i].address, raw[i].value)
  }

  lemma PrefixCounts(raw: seq<RawOp>, i: nat)
    requires i < |raw|
    ensures forall store ::
      CountKind(raw[..i + 1], store) == CountKind(raw[..i], store) + if raw[i].store == store then 1 else 0
    ensures forall hart ::
      CountHart(raw[..i + 1], hart) == CountHart(raw[..i], hart) + if raw[i].hart == hart then 1 else 0
  {
    assert raw[..i + 1][..i] == raw[..i];
  }

  /** Numbers the operations of each kind, and those of each hart. */
  method MaterializeBoundedOperations(raw: seq<RawOp>) returns (result: seq<Assigned>)
    ensures |result| == |raw| && forall i :: 0 <= i < |raw| ==> result[i] == AssignedAt(raw, i)
  {
    var programIndexes: map<int, int> := map[];
    var loads, stores := 0, 0;
    result := [];
    for i := 0 to |raw|
      invariant |result| == i && forall j :: 0 <= j < i ==> result[j] == AssignedAt(raw, j)
      invariant loads == CountKind(raw[..i], false) && stores == CountKind(raw[..i], true)
      invariant forall h :: CountHart(raw[..i], h) == if h in programIndexes then programIndexes[h] else 0
    {
      var op := raw[i];
      PrefixCounts(raw, i);
      var id := (if op.store then "W" else "L") + Digits(if op.store then stores else loads);
      if op.store { stores := stores + 1; } else { loads := loads + 1; }
      var programIndex := if op.hart in programIndexes then programIndexes[op.hart] else 0;
      programIndexes := programIndexes[op.hart := programIndex + 1];
      result := result + [Assigned(id, op.store, op.hart, programIndex, op.address, op.value)];
    }
    WholePrefix(raw);
  }

  /** Programs with loads and stores whose first operation uses the first hart and the first address. */
  predicate CandidateIsCanonical(raw: seq<RawOp>, firstAddress: Address)
    requires raw != []
  {
    && (exists k | 0 <= k < |raw| :: raw[k].store) && (exists k | 0 <= k < |raw| :: !raw[k].store)
    && raw[0].hart == 0 && raw[0].address == firstAddress
  }

  // ----- The trace of a program

  const PLAIN := Metadata(None, None, Some(1), "main", {}, false, false, false, "")

  function InitialOperation(initial: Initial, value: int): Operation {
    Operation(InitWrite, initial.address, value, 0, None, None, PLAIN)
  }

  function TraceOperation(x: Assigned): Operation {
    Operation(if x.store then Write else Read, x.address, x.value, 0, Some(x.hart), Some(x.programIndex), PLAIN)
  }

  function RawOperation(raw: seq<RawOp>, i: nat): Operation
    requires i < |raw|
  {
    TraceOperation(AssignedAt(raw, i))
  }

  /** The identifiers of the trace, in the order of its events. */
  function Ids(initials: seq<Initial>, raw: seq<RawOp>): (ids: seq<Id>)
    ensures |ids| == |initials| + |raw|
    ensures forall k :: 0 <= k < |initials| ==> ids[k] == initials[k].id
    ensures forall i :: 0 <= i < |raw| ==> ids[|initials| + i] == IdOf(raw, i)
  {
    seq(|initials| + |raw|, k requires 0 <= k < |initials| + |raw| =>
      if k < |initials| then initials[k].id else IdOf(raw, k - |initials|))
  }

  function OperationAt(initials: seq<Initial>, raw: seq<RawOp>, value: int, k: nat): Operation
    requires k < |initials| + |raw|
  {
    if k < |initials| then InitialOperation(initials[k], value) else RawOperation(raw, k - |initials|)
  }

  /** The operations of a program: an initial write for each address, and its loads and stores. */
  function Program(initials: seq<Initial>, value: int, raw: seq<RawOp>): Projection {
    var ids := Ids(initials, raw);
    Projection(map id | id in ids :: OperationAt(initials, raw, value, IndexOf(ids, id)), map[], [], map[])
  }

  /** Initial writes have their own identifiers, one for each symbolic address. */
  predicate ValidInitials(initials: seq<Initial>) {
    && (forall j, k :: 0 <= j < k < |initials| ==>
          initials[j].id != initials[k].id && initials[j].address != initials[k].address)
    && (forall k :: 0 <= k < |initials| ==>
          initials[k].address.Token? && initials[k].id != "" && initials[k].id[0] == 'I')
  }

  ghost predicate HasInitial(initials: seq<Initial>, address: Address) {
    exists k :: 0 <= k < |initials| && initials[k].address == address
  }

  /** Every address that the program uses has an initial write. */
  ghost predicate Covered(initials: seq<Initial>, raw: seq<RawOp>) {
    ValidInitials(initials) && forall i :: 0 <= i < |raw| ==> HasInitial(initials, raw[i].address)
  }

  lemma {:induction false} CountsGrow(raw: seq<RawOp>, i: nat, j: nat)
    requires i <= j <= |raw|
    ensures forall store :: CountKind(raw[..i], store) <= CountKind(raw[..j], store)
    ensures forall hart :: CountHart(raw[..i], hart) <= CountHart(raw[..j], hart)
  {
    if i < j {
      PrefixCounts(raw, j - 1);
      CountsGrow(raw, i, j - 1);
    }
  }

  lemma DistinctOperationIds(raw: seq<RawOp>, i: nat, j: nat)
    requires i < j < |raw|
    ensures IdOf(raw, i) != IdOf(raw, j)
  {
    if raw[i].store == raw[j].store {
      var (m, n) := (CountKind(raw[..i], raw[i].store), CountKind(raw[..j], raw[i].store));
      PrefixCounts(raw, i);
      CountsGrow(raw, i + 1, j);
      DigitsNumber(m);
      DigitsNumber(n);
      assert IdOf(raw, i)[1..] == Digits(m) && IdOf(raw, j)[1..] == Digits(n);
    } else {
      assert IdOf(raw, i)[0] != IdOf(raw, j)[0];
    }
  }

  lemma IdsDistinct(initials: seq<Initial>, raw: seq<RawOp>)
    requires ValidInitials(initials)
    ensures NoDup(Ids(initials, raw))
  {
    var ids := Ids(initials, raw);
    forall j, k | 0 <= j < k < |ids| ensures ids[j] != ids[k] {
      if j >= |initials| {
        DistinctOperationIds(raw, j - |initials|, k - |initials|);
      } else if k >= |initials| {
        assert ids[j][0] == 'I' && ids[k][0] != 'I';
      }
    }
  }

  /** What the program holds at each place of its trace. */
  lemma ProgramAt(initials: seq<Initial>, value: int, raw: seq<RawOp>, k: nat)
    requires ValidInitials(initials) && k < |initials| + |raw|
    ensures Ids(initials, raw)[k] in Program(initials, value, raw).ops
    ensures Program(initials, value, raw).ops[Ids(initials, raw)[k]] == OperationAt(initials, raw, value, k)
  {
    var ids := Ids(initials, raw);
    IdsDistinct(initials, raw);
    assert ids[k] in ids;
    assert IndexOf(ids, ids[k]) == k;
  }

  lemma PlaceOf(initials: seq<Initial>, value: int, raw: seq<RawOp>, id: Id) returns (k: nat)
    requires ValidInitials(initials) && id in Program(initials, value, raw).ops
    ensures k < |initials| + |raw| && Ids(initials, raw)[k] == id && k == IndexOf(Ids(initials, raw), id)
    ensures Program(initials, value, raw).ops[id] == OperationAt(initials, raw, value, k)
  {
    k := IndexOf(Ids(initials, raw), id);
  }

  /** The operations of a kind, or of a hart, among the first `n`. */
  ghost function OfKind(raw: seq<RawOp>, n: nat, store: bool): set<nat>
    requires n <= |raw|
  {
    set j: nat | j < n && raw[j].store == store
  }

  ghost function OfHart(raw: seq<RawOp>, n: nat, hart: int): set<nat>
    requires n <= |raw|
  {
    set j: nat | j < n && raw[j].hart == hart
  }

  lemma OneMoreOperation(raw: seq<RawOp>, n: nat, store: bool, hart: int)
    requires n < |raw|
    ensures OfKind(raw, n + 1, store) == OfKind(raw, n, store) + if raw[n].store == store then {n} else {}
    ensures OfHart(raw, n + 1, hart) == OfHart(raw, n, hart) + if raw[n].hart == hart then {n} else {}
    ensures n !in OfKind(raw, n, store) && n !in OfHart(raw, n, hart)
  {
  }

  lemma {:induction false} KindSize(raw: seq<RawOp>, n: nat, store: bool)
    requires n <= |raw|
    ensures CountKind(raw[..n], store) == |OfKind(raw, n, store)|
  {
    if n > 0 {
      KindSize(raw, n - 1, store);
      PrefixCounts(raw, n - 1);
      OneMoreOperation(raw, n - 1, store, 0);
    }
  }

  lemma {:induction false} HartSize(raw: seq<RawOp>, n: nat, hart: int)
    requires n <= |raw|
    ensures CountHart(raw[..n], hart) == |OfHart(raw, n, hart)|
  {
    if n > 0 {
      HartSize(raw, n - 1, hart);
      PrefixCounts(raw, n - 1);
      OneMoreOperation(raw, n - 1, true, hart);
    }
  }

  /**
   * A program holds, for each choice, one plain load or store of its hart, named by a letter for its kind and its
   * number among that kind, and placed after the earlier operations of its hart.
   */
  lemma ProgramHolds(initials: seq<Initial>, value: int, raw: seq<RawOp>, i: nat)
    requires ValidInitials(initials) && i < |raw|
    ensures var ops := Program(initials, value, raw).ops; exists id :: id in ops && Holds(id, ops[id], raw, i)
  {
    ProgramAt(initials, value, raw, |initials| + i);
    RawHolds(raw, i);
  }

  /** It holds an initial write of each address, and no hints. */
  lemma ProgramStarts(initials: seq<Initial>, value: int, raw: seq<RawOp>, k: nat)
    requires ValidInitials(initials) && k < |initials|
    ensures var p, id := Program(initials, value, raw), initials[k].id;
            && id in p.ops && p.ops[id].kind == InitWrite && p.ops[id].hart.None?
            && p.ops[id].address == initials[k].address && p.ops[id].value == value
            && p.rfHints == map[] && p.coHints == [] && p.relationHints == map[]
  {
    ProgramAt(initials, value, raw, k);
  }

  lemma RawHolds(raw: seq<RawOp>, i: nat)
    requires i < |raw|
    ensures Holds(IdOf(raw, i), RawOperation(raw, i), raw, i)
  {
    KindSize(raw, i, raw[i].store);
    HartSize(raw, i, raw[i].hart);
    DigitsNumber(CountKind(raw[..i], raw[i].store));
    assert IdOf(raw, i)[1..] == Digits(CountKind(raw[..i], raw[i].store));
  }

  /** The plain operation of one choice. */
  ghost predicate Holds(id: Id, op: Operation, raw: seq<RawOp>, i: nat)
    requires i < |raw|
  {
    && id != "" && id[0] == (if raw[i].store then 'W' else 'L')
    && NumberIn(10, id[1..]) == Some(|OfKind(raw, i, raw[i].store)|)
    && op.kind == (if raw[i].store then Write else Read) && op.address == raw[i].address && op.value == raw[i].value
    && op.hart == Some(raw[i].hart)
    && op.programIndex == Some(|OfHart(raw, i, raw[i].hart)|)
    && !op.IsAcquire() && !op.IsRelease() && !op.metadata.rcsc && op.metadata.atomicKind == ""
    && op.metadata.memoryRegion == "main"
  }

  // ----- Verdicts

  /** Checking the trace answers FORBIDDEN: it raises no error, and no candidate is allowed. */
  ghost predicate IsForbidden(p: Projection, maxCandidates: int) {
    !TraceRaises(p, maxCandidates) && !IsAllowed(p)
  }

  // ----- The order of the trace

  /** The order of the trace as a global memory order. */
  ghost function TraceOrder(initials: seq<Initial>, raw: seq<RawOp>): map<Id, int> {
    var ids := Ids(initials, raw);
    map id | id in ids :: IndexOf(ids, id)
  }

  predicate OneKind(raw: seq<RawOp>) {
    (forall k | 0 <= k < |raw| :: raw[k].store) || (forall k | 0 <= k < |raw| :: !raw[k].store)
  }

  lemma ProgramIsSymbolic(initials: seq<Initial>, value: int, raw: seq<RawOp>, id: Id)
    requires Covered(initials, raw) && id in Program(initials, value, raw).ops
    ensures Symbolic(Program(initials, value, raw).ops[id])
            && Program(initials, value, raw).ops[id].AtomicKind() != "sc"
  {
    var k := PlaceOf(initials, value, raw, id);
    if k >= |initials| {
      var j :| 0 <= j < |initials| && initials[j].address == raw[k - |initials|].address;
    }
  }

  lemma EarlierIndex(raw: seq<RawOp>, i: nat, j: nat)
    requires i < |raw| && j < |raw| && CountHart(raw[..i], raw[i].hart) < CountHart(raw[..j], raw[i].hart)
    ensures i < j
  {
    if j <= i { CountsGrow(raw, j, i); }
  }

  /** Operations with a hart are those of the program. */
  lemma PlacedOperation(initials: seq<Initial>, value: int, raw: seq<RawOp>, id: Id) returns (i: nat)
    requires ValidInitials(initials) && id in Program(initials, value, raw).ops
    requires Program(initials, value, raw).ops[id].hart.Some?
    ensures i < |raw| && Program(initials, value, raw).ops[id] == RawOperation(raw, i)
    ensures IndexOf(Ids(initials, raw), id) == |initials| + i
  {
    var k := PlaceOf(initials, value, raw, id);
    i := k - |initials|;
  }

  /** Program order follows the trace. */
  lemma TraceOrderIsPo(initials: seq<Initial>, value: int, raw: seq<RawOp>, a: Id, b: Id)
    requires ValidInitials(initials) && PoBefore(Program(initials, value, raw).ops, a, b)
    ensures a in Ids(initials, raw) && b in Ids(initials, raw)
    ensures IndexOf(Ids(initials, raw), a) < IndexOf(Ids(initials, raw), b)
  {
    var i := PlacedOperation(initials, value, raw, a);
    var j := PlacedOperation(initials, value, raw, b);
    EarlierIndex(raw, i, j);
  }

  lemma PpoFollowsTrace(initials: seq<Initial>, value: int, raw: seq<RawOp>, src: map<Id, Id>)
    requires Covered(initials, raw)
    ensures Extends(TraceOrder(initials, raw),
                    Ppo(GmoCandidate(Program(initials, value, raw), src, TraceOrder(initials, raw))))
  {
    var p, gmo := Program(initials, value, raw), TraceOrder(initials, raw);
    forall e | e in Ppo(GmoCandidate(p, src, gmo)) ensures e.0 in gmo && e.1 in gmo && gmo[e.0] < gmo[e.1] {
      assert PoBefore(p.ops, e.0, e.1);
      TraceOrderIsPo(initials, value, raw, e.0, e.1);
    }
  }

  /** Without stores the only write of an address is its initial write. */
  lemma OnlyInitialWrites(initials: seq<Initial>, value: int, raw: seq<RawOp>, v: Id, w: Id)
    requires Covered(initials, raw) && forall k :: 0 <= k < |raw| ==> !raw[k].store
    requires var ops := Program(initials, value, raw).ops;
             v in ops && w in ops && ops[v].IsWrite() && ops[w].IsWrite() && SameLocation(ops[v], ops[w])
    ensures v == w
  {
    var p := Program(initials, value, raw);
    var j := PlaceOf(initials, value, raw, v);
    var k := PlaceOf(initials, value, raw, w);
    ProgramIsSymbolic(initials, value, raw, v);
    ProgramIsSymbolic(initials, value, raw, w);
    SymbolicLocation(p.ops[v]);
    SymbolicLocation(p.ops[w]);
  }

  lemma InitialBeforeRest(initials: seq<Initial>, value: int, raw: seq<RawOp>)
    requires Covered(initials, raw)
    ensures RespectsHints(Program(initials, value, raw), TraceOrder(initials, raw))
  {
    var (p, gmo) := (Program(initials, value, raw), TraceOrder(initials, raw));
    forall a, b | CoherentWrites(p.ops, a, b) && p.ops[a].kind == InitWrite ensures gmo[a] < gmo[b] {
      var j := PlaceOf(initials, value, raw, a);
      var k := PlaceOf(initials, value, raw, b);
      ProgramIsSymbolic(initials, value, raw, a);
      ProgramIsSymbolic(initials, value, raw, b);
      SymbolicLocation(p.ops[a]);
      SymbolicLocation(p.ops[b]);
    }
  }

  lemma TraceOrderIsTotal(initials: seq<Initial>, value: int, raw: seq<RawOp>)
    requires ValidInitials(initials)
    ensures TotalOrder(TraceOrder(initials, raw), Program(initials, value, raw).ops)
  {
  }

  // ----- Errors

  lemma LaterIndex(raw: seq<RawOp>, i: nat, j: nat)
    requires i <= j < |raw| && raw[i].hart == raw[j].hart
    ensures AssignedAt(raw, i).programIndex <= AssignedAt(raw, j).programIndex
    ensures AssignedAt(raw, i).programIndex == AssignedAt(raw, j).programIndex ==> i == j
  {
    if i < j {
      PrefixCounts(raw, i);
      CountsGrow(raw, i + 1, j);
    }
  }

  lemma DistinctProgramIndexes(initials: seq<Initial>, value: int, raw: seq<RawOp>)
    requires ValidInitials(initials)
    ensures DistinctIndexes(Program(initials, value, raw).ops)
  {
    var ops := Program(initials, value, raw).ops;
    forall a, b | a in ops && b in ops && a != b && ops[a].hart.Some? && ops[a].hart == ops[b].hart
      ensures ops[a].programIndex != ops[b].programIndex
    {
      var i := PlacedOperation(initials, value, raw, a);
      var j := PlacedOperation(initials, value, raw, b);
      if i < j { LaterIndex(raw, i, j); } else { LaterIndex(raw, j, i); }
    }
  }

  /** Programs stay inside what the checker accepts. */
  lemma ProgramIsPlain(initials: seq<Initial>, value: int, raw: seq<RawOp>)
    requires Covered(initials, raw)
    ensures SymbolicTrace(Program(initials, value, raw)) && PlainOperations(Program(initials, value, raw).ops)
    ensures RightAnnotations(Program(initials, value, raw))
  {
    var p := Program(initials, value, raw);
    forall id | id in p.ops
      ensures Symbolic(p.ops[id]) && p.ops[id].Placed() && p.ops[id].IsRegular()
      ensures p.ops[id].kind != Amo && p.ops[id].AtomicKind() != "amo"
    {
      var k := PlaceOf(initials, value, raw, id);
      ProgramIsSymbolic(initials, value, raw, id);
    }
    DistinctProgramIndexes(initials, value, raw);
    NoInputs(p);
  }

  /** Each address has an order: that of the trace. */
  lemma ProgramHasOrders(initials: seq<Initial>, value: int, raw: seq<RawOp>)
    requires Covered(initials, raw)
    ensures HasOrders(Program(initials, value, raw))
  {
    var (p, gmo) := (Program(initials, value, raw), TraceOrder(initials, raw));
    ProgramIsPlain(initials, value, raw);
    TraceOrderIsTotal(initials, value, raw);
    InitialBeforeRest(initials, value, raw);
    var orders := OrdersByRank(p, gmo, WriteAddresses(p.ops));
    forall a | a in orders ensures LegalOrder(p, a, orders[a]) {
      forall x, y | x in WritesAt(p.ops, a) && y in WritesAt(p.ops, a) && x != y ensures CoherentWrites(p.ops, x, y) {
        SymbolicLocations(p, x, y);
      }
      RankOrderIsLegal(p, gmo, a, orders[a]);
    }
    assert LegalOrders(p, orders);
  }

  /** Checking a program raises exactly for a bad limit, a load without a source, or too many candidates. */
  lemma ProgramRaises(initials: seq<Initial>, value: int, raw: seq<RawOp>, maxCandidates: int)
    requires Covered(initials, raw)
    ensures var p := Program(initials, value, raw);
            TraceRaises(p, maxCandidates) <==> maxCandidates <= 0 || !HasSources(p) || TooMany(p, maxCandidates)
  {
    ProgramIsPlain(initials, value, raw);
    ProgramHasOrders(initials, value, raw);
    SymbolicTraceRaises(Program(initials, value, raw), maxCandidates);
  }

  // ----- Programs of one kind

  lemma ReadsInitialValue(initials: seq<Initial>, value: int, raw: seq<RawOp>, src: map<Id, Id>, r: Id)
    requires Covered(initials, raw) && ValidSources(Program(initials, value, raw).ops, src) && r in src && OneKind(raw)
    requires TraceOrder(initials, raw).Keys == Program(initials, value, raw).ops.Keys
    ensures LoadValue(GmoCandidate(Program(initials, value, raw), src, TraceOrder(initials, raw)),
                      TraceOrder(initials, raw), r)
  {
    var (p, gmo) := (Program(initials, value, raw), TraceOrder(initials, raw));
    var i := PlaceOf(initials, value, raw, r);
    assert !raw[i - |initials|].store;
    var s := PlaceOf(initials, value, raw, src[r]);
    assert ValidSource(p.ops, src[r], r);
    assert s < |initials| <= i;
    forall w | w in p.ops && Visible(GmoCandidate(p, src, gmo), gmo, w, r) ensures w == src[r] {
      OnlyInitialWrites(initials, value, raw, w, src[r]);
    }
  }

  lemma TraceExplainsOneKind(initials: seq<Initial>, value: int, raw: seq<RawOp>, src: map<Id, Id>)
    requires Covered(initials, raw) && OneKind(raw) && LegalSources(Program(initials, value, raw), src)
    ensures PlainlyAllowed(Program(initials, value, raw), src, TraceOrder(initials, raw))
  {
    ProgramIsPlain(initials, value, raw);
    SourcesValidate(Program(initials, value, raw), src);
    InitialBeforeRest(initials, value, raw);
    TraceOrderIsTotal(initials, value, raw);
    PpoFollowsTrace(initials, value, raw, src);
    forall r | r in src
      ensures LoadValue(GmoCandidate(Program(initials, value, raw), src, TraceOrder(initials, raw)),
                        TraceOrder(initials, raw), r)
    {
      ReadsInitialValue(initials, value, raw, src, r);
    }
    forall s | s in Program(initials, value, raw).ops
      ensures Program(initials, value, raw).ops[s].AtomicKind() != "sc"
    {
      ProgramIsSymbolic(initials, value, raw, s);
    }
  }

  /** A program that lacks loads or lacks stores is never forbidden: the order of its trace explains it. */
  lemma OneKindIsNeverForbidden(initials: seq<Initial>, value: int, raw: seq<RawOp>, maxCandidates: int)
    requires Covered(initials, raw) && OneKind(raw)
    ensures !IsForbidden(Program(initials, value, raw), maxCandidates)
  {
    var p := Program(initials, value, raw);
    ProgramIsPlain(initials, value, raw);
    SymbolicTraceRaises(p, maxCandidates);
    if src :| LegalSources(p, src) {
      TraceExplainsOneKind(initials, value, raw, src);
      AllowedPlainly(p, src, TraceOrder(initials, raw));
    }
  }

  // ----- One round of the generator

  /** Skips a program that is not canonical; otherwise the check of its trace decides. Errors drop the program. */
  method ExamineProgram(initials: seq<Initial>, value: int, raw: seq<RawOp>, maxCandidates: int)
    returns (forbidden: bool)
    requires Covered(initials, raw) && raw != [] && initials != []
    ensures forbidden <==>
      && (exists k :: 0 <= k < |raw| && raw[k].store) && (exists k :: 0 <= k < |raw| && !raw[k].store)
      && raw[0].hart == 0 && raw[0].address == initials[0].address
      && IsForbidden(Program(initials, value, raw), maxCandidates)
  {
    if !CandidateIsCanonical(raw, initials[0].address) { return false; }
    var p := Program(initials, value, raw);
    ProgramIsPlain(initials, value, raw);
    var checked := CheckTraceMemoryModel(p, maxCandidates);
    forbidden := checked == Ok(ForbiddenTrace);
  }

  // ----- Canonical names

  function Swap<T(==)>(x: T, y: T): T -> T {
    z => if z == x then y else if z == y then x else z
  }

  lemma SwapUndoesItself<T(!new)>(x: T, y: T)
    ensures Involution(Swap(x, y))
  {
  }

  function RenameRaw(raw: seq<RawOp>, sigma: int -> int, tau: Address -> Address): (r: seq<RawOp>)
    ensures |r| == |raw| && forall i :: 0 <= i < |r| ==>
      r[i] == RawOp(raw[i].store, sigma(raw[i].hart), tau(raw[i].address), raw[i].value)
  {
    seq(|raw|, i requires 0 <= i < |raw| => RawOp(raw[i].store, sigma(raw[i].hart), tau(raw[i].address), raw[i].value))
  }

  /** Renaming keeps the numbering of operations. */
  lemma {:induction false} CountsRenamed(raw: seq<RawOp>, sigma: int -> int, tau: Address -> Address, i: nat,
                                         store: bool, hart: int)
    requires i <= |raw| && Involution(sigma)
    ensures CountKind(RenameRaw(raw, sigma, tau)[..i], store) == CountKind(raw[..i], store)
    ensures CountHart(RenameRaw(raw, sigma, tau)[..i], sigma(hart)) == CountHart(raw[..i], hart)
  {
    if i == 0 {
      assert RenameRaw(raw, sigma, tau)[..0] == [] && raw[..0] == [];
    } else {
      CountsRenamed(raw, sigma, tau, i - 1, store, hart);
      PrefixCounts(raw, i - 1);
      PrefixCounts(RenameRaw(raw, sigma, tau), i - 1);
      assert sigma(sigma(hart)) == hart && sigma(sigma(raw[i - 1].hart)) == raw[i - 1].hart;
    }
  }

  lemma IdsRenamed(raw: seq<RawOp>, sigma: int -> int, tau: Address -> Address, i: nat)
    requires i < |raw| && Involution(sigma)
    ensures IdOf(RenameRaw(raw, sigma, tau), i) == IdOf(raw, i)
    ensures RawOperation(RenameRaw(raw, sigma, tau), i) == RenameOp(RawOperation(raw, i), sigma, tau)
  {
    CountsRenamed(raw, sigma, tau, i, raw[i].store, raw[i].hart);
  }

  /** Exchanging two addresses exchanges their initial writes. */
  lemma SwappedProgram(initials: seq<Initial>, value: int, raw: seq<RawOp>, h: int, g: int, j: nat, k: nat)
    requires Covered(initials, raw) && j < |initials| && k < |initials|
    ensures var (sigma, tau) := (Swap(h, g), Swap(initials[j].address, initials[k].address));
            && Covered(initials, RenameRaw(raw, sigma, tau))
            && Renames(Program(initials, value, raw).ops, Program(initials, value, RenameRaw(raw, sigma, tau)).ops,
                       Swap(initials[j].id, initials[k].id), sigma, tau)
  {
    var sigma, tau := Swap(h, g), Swap(initials[j].address, initials[k].address);
    var rho := Swap(initials[j].id, initials[k].id);
    var renamed := RenameRaw(raw, sigma, tau);
    SwapUndoesItself(h, g);
    SwapUndoesItself(initials[j].address, initials[k].address);
    SwapUndoesItself(initials[j].id, initials[k].id);
    RenamedIsCovered(initials, raw, sigma, j, k);
    var p, q := Program(initials, value, raw), Program(initials, value, renamed);
    forall id | id in p.ops
      ensures rho(id) in q.ops && q.ops[rho(id)] == RenameOp(p.ops[id], sigma, tau)
    {
      var n := PlaceOf(initials, value, raw, id);
      SwappedOperation(initials, value, raw, sigma, j, k, n);
    }
    SameIds(initials, value, raw, sigma, tau, j, k);
    forall id | id in p.ops ensures Symbolic(p.ops[id]) && Symbolic(q.ops[rho(id)]) {
      ProgramIsSymbolic(initials, value, raw, id);
      ProgramIsSymbolic(initials, value, renamed, rho(id));
    }
  }

  lemma RenamedIsCovered(initials: seq<Initial>, raw: seq<RawOp>, sigma: int -> int, j: nat, k: nat)
    requires Covered(initials, raw) && j < |initials| && k < |initials|
    ensures Covered(initials, RenameRaw(raw, sigma, Swap(initials[j].address, initials[k].address)))
  {
    var tau := Swap(initials[j].address, initials[k].address);
    forall i | 0 <= i < |raw| ensures HasInitial(initials, tau(raw[i].address)) {
      var n :| 0 <= n < |initials| && initials[n].address == raw[i].address;
      assert tau(raw[i].address) == initials[if n == j then k else if n == k then j else n].address;
    }
  }

  lemma SwappedInitial(initials: seq<Initial>, value: int, renamed: seq<RawOp>, j: nat, k: nat, n: nat,
                       sigma: int -> int)
    requires ValidInitials(initials) && j < |initials| && k < |initials| && n < |initials|
    ensures var (tau, rho) := (Swap(initials[j].address, initials[k].address), Swap(initials[j].id, initials[k].id));
            var q := Program(initials, value, renamed);
            && rho(initials[n].id) in q.ops
            && q.ops[rho(initials[n].id)] == RenameOp(InitialOperation(initials[n], value), sigma, tau)
  {
    var m := if n == j then k else if n == k then j else n;
    assert Swap(initials[j].id, initials[k].id)(initials[n].id) == initials[m].id;
    assert Swap(initials[j].address, initials[k].address)(initials[n].address) == initials[m].address;
    ProgramAt(initials, value, renamed, m);
  }

  lemma SwappedRaw(initials: seq<Initial>, value: int, raw: seq<RawOp>, j: nat, k: nat, i: nat, sigma: int -> int,
                   tau: Address -> Address)
    requires ValidInitials(initials) && j < |initials| && k < |initials| && i < |raw| && Involution(sigma)
    ensures var rho := Swap(initials[j].id, initials[k].id);
            var q := Program(initials, value, RenameRaw(raw, sigma, tau));
            rho(IdOf(raw, i)) in q.ops && q.ops[rho(IdOf(raw, i))] == RenameOp(RawOperation(raw, i), sigma, tau)
  {
    assert IdOf(raw, i)[0] != 'I';
    IdsRenamed(raw, sigma, tau, i);
    ProgramAt(initials, value, RenameRaw(raw, sigma, tau), |initials| + i);
  }

  /** The renamed program holds the renamed operation. */
  ghost predicate Carries(p: Projection, q: Projection, rho: Id -> Id, sigma: int -> int, tau: Address -> Address,
                          id: Id)
    requires id in p.ops
  {
    rho(id) in q.ops && q.ops[rho(id)] == RenameOp(p.ops[id], sigma, tau)
  }

  /** Where the operation of a place goes. */
  lemma SwappedOperation(initials: seq<Initial>, value: int, raw: seq<RawOp>, sigma: int -> int, j: nat, k: nat, n: nat)
    requires ValidInitials(initials) && j < |initials| && k < |initials| && n < |initials| + |raw| && Involution(sigma)
    ensures Ids(initials, raw)[n] in Program(initials, value, raw).ops
    ensures var tau := Swap(initials[j].address, initials[k].address);
            Carries(Program(initials, value, raw), Program(initials, value, RenameRaw(raw, sigma, tau)),
                    Swap(initials[j].id, initials[k].id), sigma, tau, Ids(initials, raw)[n])
  {
    ProgramAt(initials, value, raw, n);
    var tau := Swap(initials[j].address, initials[k].address);
    if n < |initials| {
      SwappedInitial(initials, value, RenameRaw(raw, sigma, tau), j, k, n, sigma);
    } else {
      SwappedRaw(initials, value, raw, j, k, n - |initials|, sigma, tau);
    }
  }

  lemma SameIds(initials: seq<Initial>, value: int, raw: seq<RawOp>, sigma: int -> int, tau: Address -> Address, j: nat,
                k: nat)
    requires ValidInitials(initials) && j < |initials| && k < |initials| && Involution(sigma)
    ensures var rho := Swap(initials[j].id, initials[k].id);
            forall id :: id in Program(initials, value, raw).ops <==>
              rho(id) in Program(initials, value, RenameRaw(raw, sigma, tau)).ops
  {
    var renamed := RenameRaw(raw, sigma, tau);
    forall i | 0 <= i < |raw| ensures IdOf(renamed, i) == IdOf(raw, i) { IdsRenamed(raw, sigma, tau, i); }
    assert Ids(initials, renamed) == Ids(initials, raw);
    assert initials[j].id == Ids(initials, raw)[j] && initials[k].id == Ids(initials, raw)[k];
  }

  /** The program with its first hart renamed to 0 and its first address to the first one. */
  function Canonized(raw: seq<RawOp>, firstAddress: Address): seq<RawOp>
    requires raw != []
  {
    RenameRaw(raw, Swap(raw[0].hart, 0), Swap(raw[0].address, firstAddress))
  }

  /**
   * Skipping programs that are not canonical loses no forbidden program: a forbidden program has loads and stores,
   * and its canonical renaming, within the same bounds, is forbidden as well.
   */
  lemma CanonicalProgramsSuffice(initials: seq<Initial>, value: int, raw: seq<RawOp>, harts: nat, maxCandidates: int)
    requires Covered(initials, raw) && raw != [] && initials != []
    requires IsForbidden(Program(initials, value, raw), maxCandidates)
    requires forall i :: 0 <= i < |raw| ==> 0 <= raw[i].hart < harts
    ensures var canonical := Canonized(raw, initials[0].address);
            && CandidateIsCanonical(canonical, initials[0].address)
            && Covered(initials, canonical) && (forall i :: 0 <= i < |canonical| ==> 0 <= canonical[i].hart < harts)
            && IsForbidden(Program(initials, value, canonical), maxCandidates)
  {
    if OneKind(raw) { OneKindIsNeverForbidden(initials, value, raw, maxCandidates); }
    CanonicalIsForbidden(initials, value, raw, maxCandidates);
    CanonicalShape(raw, initials[0].address, harts);
  }

  lemma CanonicalIsForbidden(initials: seq<Initial>, value: int, raw: seq<RawOp>, maxCandidates: int)
    requires Covered(initials, raw) && raw != [] && initials != []
    ensures var canonical := Canonized(raw, initials[0].address);
            && Covered(initials, canonical)
            && (IsForbidden(Program(initials, value, raw), maxCandidates) <==>
                IsForbidden(Program(initials, value, canonical), maxCandidates))
  {
    var canonical := Canonized(raw, initials[0].address);
    var k :| 0 <= k < |initials| && initials[k].address == raw[0].address;
    SwappedProgram(initials, value, raw, raw[0].hart, 0, k, 0);
    ProgramIsPlain(initials, value, raw);
    ProgramIsPlain(initials, value, canonical);
    VerdictIsNameFree(Program(initials, value, raw), Program(initials, value, canonical),
                      Swap(initials[k].id, initials[0].id), Swap(raw[0].hart, 0),
                      Swap(raw[0].address, initials[0].address), maxCandidates);
  }

  lemma CanonicalShape(raw: seq<RawOp>, firstAddress: Address, harts: nat)
    requires raw != [] && !OneKind(raw) && forall i :: 0 <= i < |raw| ==> 0 <= raw[i].hart < harts
    ensures CandidateIsCanonical(Canonized(raw, firstAddress), firstAddress)
    ensures forall i :: 0 <= i < |raw| ==> 0 <= Canonized(raw, firstAddress)[i].hart < harts
  {
    var load :| 0 <= load < |raw| && !raw[load].store;
    var store :| 0 <= store < |raw| && raw[store].store;
    assert !Canonized(raw, firstAddress)[load].store && Canonized(raw, firstAddress)[store].store;
  }
}
