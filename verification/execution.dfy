/** Execution-graph nodes: memory operations, their views as reads and writes, and their footprints. */
module Execution {
  import opened Common
  import opened Relations

  datatype Kind = InitWrite | Read | Write | Amo

  /** An address is a number or a symbolic location name. */
  datatype Address = Number(n: int) | Token(name: string)

  /** `size` is `Some(1)` when absent and `None` when it is not an integer. */
  datatype Metadata = Metadata(
    byteAddresses: Option<seq<Address>>,
    byteMask: Option<int>,
    size: Option<int>,
    memoryRegion: string,
    ordering: set<string>,
    acquire: bool,
    release: bool,
    rcsc: bool,
    atomicKind: string)

  datatype Operation = Operation(
    kind: Kind,
    address: Address,
    value: int,
    writeValue: int,
    hart: Option<int>,
    programIndex: Option<int>,
    metadata: Metadata)
  {
    predicate IsRead() { kind == Read || kind == Amo }

    predicate IsWrite() { kind == Write || kind == InitWrite || kind == Amo }

    function StoredValue(): int { if kind == Amo then writeValue else value }

    function AtomicKind(): string { if kind == Amo then "amo" else metadata.atomicKind }

    predicate IsRegular() { metadata.memoryRegion in {"main", "regular", "memory"} }

    predicate IsAcquire() {
      metadata.acquire || metadata.ordering * {"acquire", "acquire_rcpc", "acquire_rcsc", "aq"} != {}
    }

    predicate IsRelease() {
      metadata.release || metadata.ordering * {"release", "release_rcpc", "release_rcsc", "rl"} != {}
    }

    predicate IsRcsc() {
      metadata.rcsc || metadata.ordering * {"acquire_rcsc", "release_rcsc", "rcsc", "aq", "rl"} != {}
    }

    /** Initial writes belong to no hart; every other operation has a hart and a program index. */
    predicate Placed() {
      if kind == InitWrite then hart.None? else hart.Some? && programIndex.Some?
    }
  }

  type Operations = map<Id, Operation>

  datatype Graph = Graph(operations: Operations, relations: map<string, set<Edge>>)
  {
    /** What the graph constructor enforces: every edge joins operations of the graph. */
    predicate Valid() {
      && (forall id :: id in operations ==> operations[id].Placed())
      && (forall name :: name in relations ==>
            forall e :: e in relations[name] ==> e.0 in operations && e.1 in operations)
    }
  }

  // ----- Footprints

  function BitLength(mask: nat): nat {
    if mask == 0 then 0 else 1 + BitLength(mask / 2)
  }

  lemma {:induction false} TopBitIsSet(mask: nat)
    requires mask > 0
    ensures BitLength(mask) > 0 && Bit(mask, BitLength(mask) - 1)
  {
    if mask > 1 { TopBitIsSet(mask / 2); }
  }

  function Byte(base: int, offset: int): Address { Number(base + offset) }

  /** The bytes an operation touches; never empty. */
  function Footprint(op: Operation): (bytes: Result<set<Address>>)
    ensures bytes.Ok? ==> bytes.value != {}
  {
    if op.metadata.byteAddresses.Some? then
      if op.metadata.byteAddresses.value == [] then Err
      else
        assert op.metadata.byteAddresses.value[0] in Elements(op.metadata.byteAddresses.value);
        Ok(Elements(op.metadata.byteAddresses.value))
    else if op.address.Number? && op.metadata.byteMask.Some? then
      var mask := op.metadata.byteMask.value;
      if mask <= 0 then Err
      else
        TopBitIsSet(mask);
        var bytes := set k | 0 <= k < BitLength(mask) && Bit(mask, k) :: Byte(op.address.n, k);
        assert Byte(op.address.n, BitLength(mask) - 1) in bytes;
        Ok(bytes)
    else if op.address.Number? && op.metadata.size.Some? then
      var size := op.metadata.size.value;
      if size <= 0 then Err
      else
        var bytes := set k | 0 <= k < size :: Byte(op.address.n, k);
        assert Byte(op.address.n, 0) in bytes;
        Ok(bytes)
    else Ok({op.address})
  }

  /** The footprint as a location; operations without a footprint have none. */
  function Location(op: Operation): set<Address> {
    var bytes := Footprint(op);
    if bytes.Ok? then bytes.value else {}
  }

  predicate Overlap(left: Operation, right: Operation) {
    Location(left) * Location(right) != {}
  }

  predicate SameLocation(left: Operation, right: Operation) {
    Location(left) == Location(right)
  }
}
