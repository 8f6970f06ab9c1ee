/** The bytes that operations touch, and when a write may be the source of a read. */
module Footprints {
  import opened Common
  import opened Relations
  import opened Execution
  import opened Rvwmo

  function Weight(bit: nat): (weight: nat)
    ensures weight > 0
  {
    if bit == 0 then 1 else 2 * Weight(bit - 1)
  }

  lemma HalfOfQuotient(mask: nat, p: nat)
    requires p > 0
    ensures (mask / 2) / p == mask / (2 * p)
  {
    var q, r := (mask / 2) / p, (mask / 2) % p;
    assert mask / 2 == q * p + r;
    var rest := 2 * r + mask % 2;
    assert mask == q * (2 * p) + rest by {
      assert mask == 2 * (mask / 2) + mask % 2;
      assert 2 * (q * p) == q * (2 * p);
    }
    QuotientIs(mask, 2 * p, q, rest);
  }

  lemma QuotientIs(n: nat, d: nat, q: nat, r: nat)
    requires d > 0 && n == q * d + r && r < d
    ensures n / d == q
  {
    assert n == (n / d) * d + n % d;
    if n / d < q { MultiplesApart(n / d, q, d); } else if q < n / d { MultiplesApart(q, n / d, d); }
  }

  /** A bit of a mask is the parity of the mask divided by its weight. */
  lemma {:induction false} BitIsDigit(mask: nat, k: nat)
    ensures Bit(mask, k) <==> mask / Weight(k) % 2 == 1
    decreases k
  {
    if k > 0 {
      BitIsDigit(mask / 2, k - 1);
      HalfOfQuotient(mask, Weight(k - 1));
    }
  }

  lemma {:induction false} HighBitsAreClear(mask: nat, k: nat)
    requires k >= BitLength(mask)
    ensures !Bit(mask, k)
    decreases k
  {
    if k > 0 {
      HighBitsAreClear(mask / 2, k - 1);
    }
  }

  /** The bytes of a mask are those at its set bits, counted from the address. */
  lemma MaskedBytes(op: Operation, base: int, mask: int)
    requires op.metadata.byteAddresses.None? && op.address == Number(base) && op.metadata.byteMask == Some(mask)
    ensures Footprint(op).Ok? <==> mask > 0
    ensures mask > 0 ==> forall x :: x in Footprint(op).value <==>
      x.Number? && x.n >= base && mask / Weight(x.n - base) % 2 == 1
  {
    if mask > 0 {
      forall x ensures x in Footprint(op).value <==> x.Number? && x.n >= base && mask / Weight(x.n - base) % 2 == 1 {
        if x.Number? && x.n >= base {
          var k := x.n - base;
          BitIsDigit(mask, k);
          if k >= BitLength(mask) { HighBitsAreClear(mask, k); }
          assert x == Byte(base, k);
        }
      }
    }
  }

  /** A size gives the bytes from the address on. */
  lemma SizedBytes(op: Operation, base: int, size: int)
    requires op.metadata.byteAddresses.None? && op.metadata.byteMask.None?
    requires op.address == Number(base) && op.metadata.size == Some(size)
    ensures Footprint(op).Ok? <==> size > 0
    ensures size > 0 ==> forall x :: x in Footprint(op).value <==> x.Number? && base <= x.n < base + size
  {
    if size > 0 {
      forall x: Address | x.Number? && base <= x.n < base + size ensures x in Footprint(op).value {
        assert x == Byte(base, x.n - base);
      }
    }
  }

  /** Listed bytes come first, and a symbolic location or a number without mask and size is one location. */
  lemma OtherBytes(op: Operation)
    ensures op.metadata.byteAddresses.Some? ==>
      && (Footprint(op).Ok? <==> op.metadata.byteAddresses.value != [])
      && (Footprint(op).Ok? ==> forall x :: x in Footprint(op).value <==> x in op.metadata.byteAddresses.value)
    ensures op.metadata.byteAddresses.None?
            && (op.address.Token? || (op.metadata.byteMask.None? && op.metadata.size.None?)) ==>
      Footprint(op) == Ok({op.address})
  {
  }

  predicate Plain(op: Operation, base: int, size: int) {
    && op.metadata.byteAddresses.None? && op.metadata.byteMask.None?
    && op.address == Number(base) && op.metadata.size == Some(size) && size > 0
  }

  /** Plain accesses overlap when their intervals meet, and have the same location when these are equal. */
  lemma PlainAccesses(a: Operation, b: Operation, m: int, n: int, s: int, t: int)
    requires Plain(a, m, s) && Plain(b, n, t)
    ensures Overlap(a, b) <==> m < n + t && n < m + s
    ensures SameLocation(a, b) <==> m == n && s == t
  {
    SizedBytes(a, m, s);
    SizedBytes(b, n, t);
    assert Location(a) == Footprint(a).value && Location(b) == Footprint(b).value;
    if m < n + t && n < m + s {
      var first := Number(if m < n then n else m);
      assert first in Location(a) && first in Location(b);
      assert first in Location(a) * Location(b);
    }
    if Overlap(a, b) {
      var x :| x in Location(a) * Location(b);
      assert m <= x.n < m + s && n <= x.n < n + t;
    }
    if SameLocation(a, b) {
      assert Number(m) in Location(b) && Number(n) in Location(a);
      assert Number(m + s - 1) in Location(b) && Number(n + t - 1) in Location(a);
    }
  }

  /** A source is another write, of the location that is read, which left the value that is read. */
  lemma SourceMeans(ops: Operations, w: Id, r: Id)
    requires w in ops && r in ops
    ensures ValidSource(ops, w, r) <==>
            && w != r && ops[w].kind != Read && ops[r].kind in {Read, Amo} && Location(ops[w]) == Location(ops[r])
            && ops[r].value == if ops[w].kind == Amo then ops[w].writeValue else ops[w].value
  {
  }
}
