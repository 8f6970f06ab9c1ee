/** What partial evaluation concludes, operator by operator, from the outcomes of the operands. */
module Outcomes {
  import opened Common
  import opened Expressions
  import opened Evaluator

  // ----- Three-valued connectives

  /** Some operand raises. */
  ghost predicate SomeRaises(es: seq<Expr>, events: Events, a: Assignment) {
    exists e :: e in es && Evaluate(e, events, a).Raised?
  }

  /** One false operand decides a conjunction, whatever is still unknown. */
  lemma ConjunctionOutcome(es: seq<Expr>, events: Events, a: Assignment)
    ensures var both := Evaluate(Nary(AllOf, es), events, a);
            && (both == Raised <==> SomeRaises(es, events, a))
            && (both == Known(FALSE) <==>
                !SomeRaises(es, events, a) && exists e :: e in es && Evaluate(e, events, a) == Known(FALSE))
            && (both == Known(TRUE) <==> forall e :: e in es ==> Evaluate(e, events, a) == Known(TRUE))
            && both in {Known(TRUE), Known(FALSE), Unknown, Raised}
  {
    MembersEvaluate(es, events, a);
    AllOutcomes(es, events, a, Known(TRUE));
  }

  /** One true operand decides a disjunction. */
  lemma DisjunctionOutcome(es: seq<Expr>, events: Events, a: Assignment)
    ensures var either := Evaluate(Nary(AnyOf, es), events, a);
            && (either == Raised <==> SomeRaises(es, events, a))
            && (either == Known(TRUE) <==>
                !SomeRaises(es, events, a) && exists e :: e in es && Evaluate(e, events, a) == Known(TRUE))
            && (either == Known(FALSE) <==> forall e :: e in es ==> Evaluate(e, events, a) == Known(FALSE))
            && either in {Known(TRUE), Known(FALSE), Unknown, Raised}
  {
    MembersEvaluate(es, events, a);
    AllOutcomes(es, events, a, Known(FALSE));
  }

  lemma AllOutcomes(es: seq<Expr>, events: Events, a: Assignment, v: Outcome)
    ensures (forall w | w in EvaluateAll(es, events, a) :: w == v) ==>
            forall e :: e in es ==> Evaluate(e, events, a) == v
    ensures (forall e :: e in es ==> Evaluate(e, events, a) == v) ==>
            forall w | w in EvaluateAll(es, events, a) :: w == v
  {
    MembersEvaluate(es, events, a);
    var vs := EvaluateAll(es, events, a);
    forall e | e in es ensures Evaluate(e, events, a) in vs {
    }
  }

  lemma OutcomePair(l: Expr, r: Expr, events: Events, a: Assignment)
    ensures EvaluateAll([l, r], events, a) == [Evaluate(l, events, a), Evaluate(r, events, a)]
  {
    assert [l, r][1..] == [r] && [r][1..] == [];
    assert EvaluateAll([r], events, a) == [Evaluate(r, events, a)];
  }

  /** The binary connectives are the connectives of two operands. */
  lemma BinaryConnectives(l: Expr, r: Expr, events: Events, a: Assignment)
    ensures Evaluate(Binary(And, l, r), events, a) == Evaluate(Nary(AllOf, [l, r]), events, a)
    ensures Evaluate(Binary(Or, l, r), events, a) == Evaluate(Nary(AnyOf, [l, r]), events, a)
  {
    var v, w := Evaluate(l, events, a), Evaluate(r, events, a);
    OutcomePair(l, r, events, a);
    assert Known(TRUE) in [v, w] <==> v == Known(TRUE) || w == Known(TRUE);
    assert Known(FALSE) in [v, w] <==> v == Known(FALSE) || w == Known(FALSE);
    assert Outcome.Raised in [v, w] <==> v.Raised? || w.Raised?;
    assert [v, w][0] in [v, w] && [v, w][1] in [v, w];
  }

  /** An implication is true when its left side is false or its right side true, and false only from true to false. */
  lemma ImplicationOutcome(l: Expr, r: Expr, events: Events, a: Assignment)
    ensures var v, w := Evaluate(l, events, a), Evaluate(r, events, a);
            var implies := Evaluate(Binary(Implies, l, r), events, a);
            && (implies == Raised <==> v.Raised? || w.Raised?)
            && (implies == Known(TRUE) <==>
                !v.Raised? && !w.Raised? && (v == Known(FALSE) || w == Known(TRUE)))
            && (implies == Known(FALSE) <==> v == Known(TRUE) && w == Known(FALSE))
            && implies in {Known(TRUE), Known(FALSE), Unknown, Raised}
  {
  }

  /** A known condition selects one branch, the other is not read; an unknown one needs branches that agree. */
  lemma ConditionalOutcome(condition: Expr, thenExpr: Expr, elseExpr: Expr, events: Events, a: Assignment)
    ensures var c, t, f := Evaluate(condition, events, a), Evaluate(thenExpr, events, a), Evaluate(elseExpr, events, a);
            var v := Evaluate(Ite(condition, thenExpr, elseExpr), events, a);
            && (c == Known(TRUE) ==> v == t)
            && (c == Known(FALSE) ==> v == f)
            && (c.Raised? ==> v.Raised?)
            && (c !in {Known(TRUE), Known(FALSE), Raised} ==>
                  && (v.Raised? <==> t.Raised? || f.Raised?)
                  && forall x :: v == Known(x) <==> t == Known(x) && f == Known(x))
  {
  }

  // ----- Distinct

  /** Two operands are known and equal. */
  ghost predicate SomeRepeat(es: seq<Expr>, events: Events, a: Assignment) {
    exists i, j :: 0 <= i < j < |es| && Evaluate(es[i], events, a).Known?
                   && Evaluate(es[i], events, a) == Evaluate(es[j], events, a)
  }

  ghost predicate Repeats(vs: seq<Outcome>) {
    exists i, j :: 0 <= i < j < |vs| && vs[i].Known? && vs[i] == vs[j]
  }

  lemma {:induction false} KnownMembers(vs: seq<Outcome>)
    ensures forall v :: v in KnownValues(vs) <==> Known(v) in vs
  {
    if vs != [] {
      KnownMembers(vs[1..]);
      assert vs == [vs[0]] + vs[1..];
    }
  }

  lemma RepeatsCons(vs: seq<Outcome>)
    requires vs != []
    ensures Repeats(vs) <==> Repeats(vs[1..]) || (vs[0].Known? && vs[0] in vs[1..])
  {
    var rest := vs[1..];
    if Repeats(vs) {
      var i, j :| 0 <= i < j < |vs| && vs[i].Known? && vs[i] == vs[j];
      assert rest[j - 1] == vs[j];
      if i > 0 { assert rest[i - 1] == vs[i]; }
    }
    if i, j :| 0 <= i < j < |rest| && rest[i].Known? && rest[i] == rest[j] {
      assert vs[i + 1] == rest[i] && vs[j + 1] == rest[j];
    }
    if vs[0].Known? && vs[0] in rest {
      var j :| 0 <= j < |rest| && rest[j] == vs[0];
      assert vs[j + 1] == vs[0];
    }
  }

  lemma {:induction false} KnownRepeat(vs: seq<Outcome>)
    ensures NoDup(KnownValues(vs)) <==> !Repeats(vs)
  {
    if vs != [] {
      KnownRepeat(vs[1..]);
      RepeatsCons(vs);
      KnownMembers(vs[1..]);
      if vs[0].Known? { ConsNoDup(vs[0].value, KnownValues(vs[1..])); }
    }
  }

  /** Two equal known operands refute distinctness; it holds once all are known and none repeats. */
  lemma DistinctOutcome(es: seq<Expr>, events: Events, a: Assignment)
    ensures var v := Evaluate(Nary(Distinct, es), events, a);
            && (v == Raised <==> SomeRaises(es, events, a))
            && (v == Known(FALSE) <==> !SomeRaises(es, events, a) && SomeRepeat(es, events, a))
            && (v == Known(TRUE) <==>
                (forall e :: e in es ==> Evaluate(e, events, a).Known?) && !SomeRepeat(es, events, a))
            && v in {Known(TRUE), Known(FALSE), Unknown, Raised}
  {
    var vs := EvaluateAll(es, events, a);
    MembersEvaluate(es, events, a);
    forall i | 0 <= i < |es| ensures vs[i] == Evaluate(es[i], events, a) { EvaluateAllAt(es, events, a, i); }
    assert Outcome.Raised in vs <==> SomeRaises(es, events, a);
    assert Repeats(vs) <==> SomeRepeat(es, events, a);
    KnownRepeat(vs);
    if Outcome.Raised !in vs && Outcome.Unknown !in vs {
      forall e | e in es ensures Evaluate(e, events, a).Known? { assert Evaluate(e, events, a) in vs; }
    }
    if forall e :: e in es ==> Evaluate(e, events, a).Known? {
      assert forall v :: v in vs ==> v.Known?;
    }
  }

  // ----- Fields and symbols

  /** A field is unknown when the event lacks it or its symbol has no value, and raises when there is no event. */
  lemma FieldOutcome(event: Id, field: string, sort: Sort, events: Events, a: Assignment)
    ensures var v := Evaluate(EventField(event, field, sort), events, a);
            && (event !in events ==> v.Raised?)
            && (event in events ==>
                  var declared := events[event];
                  && (field == "occurs" ==> v == Shown(declared.occurs, a))
                  && (field == "cycle" ==> v == Shown(declared.cycle, a))
                  && (field !in {"occurs", "cycle"} && field in declared.fields ==>
                        v == Shown(declared.fields[field], a))
                  && (field !in {"occurs", "cycle"} && field !in declared.fields ==> v.Unknown?))
  {
  }

  function Shown(attribute: Attribute, a: Assignment): Outcome {
    if attribute.Concrete? then Known(attribute.value)
    else if attribute.name in a then Known(a[attribute.name])
    else Unknown
  }

  // ----- Comparison and arithmetic

  /** Division rounds down, and the remainder takes the sign of the divisor. */
  predicate Divides(x: int, y: int, quotient: int, remainder: int) {
    x == quotient * y + remainder && if y > 0 then 0 <= remainder < y else y < remainder <= 0
  }

  lemma FloorDivision(x: int, y: int)
    requires y != 0
    ensures Divides(x, y, FloorDiv(x, y), FloorMod(x, y))
  {
    if y < 0 {
      var q := (-x) / (-y);
      assert -x == q * (-y) + (-x) % (-y);
      assert q * (-y) == -(q * y);
    } else {
      assert x == (x / y) * y + x % y;
    }
  }

  /** Comparisons of known integers. */
  lemma IntegerComparisons(l: Expr, r: Expr, x: int, y: int, events: Events, a: Assignment)
    requires Evaluate(l, events, a) == Known(Int(x)) && Evaluate(r, events, a) == Known(Int(y))
    ensures Evaluate(Binary(Lt, l, r), events, a) == Known(Bool(x < y))
    ensures Evaluate(Binary(Le, l, r), events, a) == Known(Bool(x <= y))
    ensures Evaluate(Binary(Gt, l, r), events, a) == Known(Bool(x > y))
    ensures Evaluate(Binary(Ge, l, r), events, a) == Known(Bool(x >= y))
    ensures Evaluate(Binary(Eq, l, r), events, a) == Known(Bool(x == y))
    ensures Evaluate(Binary(Ne, l, r), events, a) == Known(Bool(x != y))
  {
  }

  /** Arithmetic on known integers. */
  lemma IntegerArithmetic(l: Expr, r: Expr, x: int, y: int, events: Events, a: Assignment)
    requires Evaluate(l, events, a) == Known(Int(x)) && Evaluate(r, events, a) == Known(Int(y))
    ensures Evaluate(Binary(Add, l, r), events, a) == Known(Int(x + y))
    ensures Evaluate(Binary(Sub, l, r), events, a) == Known(Int(x - y))
    ensures Evaluate(Binary(Mul, l, r), events, a) == Known(Int(x * y))
    ensures Evaluate(Unary(Neg, l), events, a) == Known(Int(-x))
  {
  }

  /** Division rounds down, and only a zero divisor raises. */
  lemma IntegerDivision(l: Expr, r: Expr, x: int, y: int, events: Events, a: Assignment)
    requires Evaluate(l, events, a) == Known(Int(x)) && Evaluate(r, events, a) == Known(Int(y))
    ensures var q, m := Evaluate(Binary(Div, l, r), events, a), Evaluate(Binary(Mod, l, r), events, a);
            if y == 0 then q.Raised? && m.Raised?
            else q.Known? && q.value.Int? && m.Known? && m.value.Int? && Divides(x, y, q.value.n, m.value.n)
  {
    if y != 0 { FloorDivision(x, y); }
  }

  /** The operators on known booleans, and equality on known values of any kind. */
  lemma BooleanOperators(l: Expr, r: Expr, events: Events, a: Assignment)
    requires Evaluate(l, events, a).Known? && Evaluate(r, events, a).Known?
    ensures var v, w := Evaluate(l, events, a).value, Evaluate(r, events, a).value;
            && (IsTrue(Binary(Eq, l, r), events, a) <==> v == w)
            && (IsTrue(Binary(Ne, l, r), events, a) <==> v != w)
            && (v in {TRUE, FALSE} && w in {TRUE, FALSE} ==> (IsTrue(Binary(Xor, l, r), events, a) <==> v != w))
            && (v in {TRUE, FALSE} ==> (IsTrue(Unary(Not, l), events, a) <==> v == FALSE))
    ensures Decided(Binary(Eq, l, r), events, a) && Decided(Binary(Ne, l, r), events, a)
    ensures Decided(Binary(Xor, l, r), events, a) && Decided(Unary(Not, l), events, a)
  {
  }

  /** The order of known strings is that of dictionaries. */
  lemma StringComparison(l: Expr, r: Expr, x: string, y: string, events: Events, a: Assignment)
    requires Evaluate(l, events, a) == Known(Text(x)) && Evaluate(r, events, a) == Known(Text(y))
    ensures IsTrue(Binary(Lt, l, r), events, a) <==> x < y || exists k: nat :: FirstDifference(x, y, k)
    ensures Evaluate(Binary(Gt, l, r), events, a) == Evaluate(Binary(Lt, r, l), events, a)
    ensures Evaluate(Binary(BinaryOp.Le, l, r), events, a)
            == Evaluate(Unary(Not, Binary(Lt, r, l)), events, a)
    ensures Evaluate(Binary(Ge, l, r), events, a) == Evaluate(Unary(Not, Binary(Lt, l, r)), events, a)
  {
    LeIsLexicographic(x, y);
  }

  ghost predicate NoneDiffers(vs: seq<Value>) {
    forall i, j :: 0 <= i < j < |vs| ==> vs[i] == vs[j]
  }

  /** The `same` functions hold when no two arguments differ. */
  lemma SameFunctions(f: string, vs: seq<Value>)
    requires f in {"same_address", "same_identity", "same_op", "same_value"}
    ensures Apply(f, vs) == Known(Bool(NoneDiffers(vs)))
  {
    if NoneDiffers(vs) {
      forall v | v in vs ensures v == vs[0] {
      }
    }
    if forall v | v in vs :: v == vs[0] {
      forall i, j | 0 <= i < j < |vs| ensures vs[i] == vs[j] { assert vs[i] in vs && vs[j] in vs; }
    }
  }

  /** An unknown operand leaves every other operator unknown, unless the other operand raises. */
  lemma StrictOperators(op: BinaryOp, l: Expr, r: Expr, events: Events, a: Assignment)
    requires op !in {And, Or, Implies}
    requires Evaluate(l, events, a).Unknown? || Evaluate(r, events, a).Unknown?
    ensures var v := Evaluate(Binary(op, l, r), events, a);
            v == if Evaluate(l, events, a).Raised? || Evaluate(r, events, a).Raised? then Raised else Unknown
  {
  }

  // ----- Masks

  lemma {:induction false} ConstantBits(k: nat)
    ensures !Bit(0, k) && Bit(-1, k)
  {
    if k > 0 { ConstantBits(k - 1); }
  }

  /** The conjunction has the bits that both integers have. */
  lemma {:induction false} BitAndBits(x: int, y: int, k: nat)
    ensures Bit(BitAnd(x, y), k) <==> Bit(x, k) && Bit(y, k)
    decreases k
  {
    ConstantBits(k);
    if x != 0 && y != 0 && x != -1 {
      assert BitAnd(x, y) == 2 * BitAnd(x / 2, y / 2) + (x % 2) * (y % 2);
      assert BitAnd(x, y) / 2 == BitAnd(x / 2, y / 2);
      if k > 0 { BitAndBits(x / 2, y / 2, k - 1); }
    }
  }

  function Size(n: int): nat {
    if n < 0 then -n else n
  }

  /** An integer other than 0 has a bit, and one other than -1 lacks one. */
  lemma {:induction false} SomeBit(n: int) returns (k: nat)
    requires n != 0
    ensures Bit(n, k)
    decreases Size(n)
  {
    if n % 2 == 1 { k := 0; } else { k := SomeBit(n / 2); k := k + 1; }
  }

  /** Integers with the same bits are equal. */
  lemma {:induction false} BitsDetermine(x: int, y: int)
    requires forall k: nat :: Bit(x, k) <==> Bit(y, k)
    ensures x == y
    decreases Size(x) + Size(y)
  {
    assert Bit(x, 0) <==> Bit(y, 0);
    if x == 0 && y != 0 {
      var k := SomeBit(y);
      ConstantBits(k);
    } else if y == 0 && x != 0 {
      var k := SomeBit(x);
      ConstantBits(k);
    } else if x != y {
      forall k: nat ensures Bit(x / 2, k) <==> Bit(y / 2, k) { assert Bit(x, k + 1) <==> Bit(y, k + 1); }
      BitsDetermine(x / 2, y / 2);
    }
  }

  ghost predicate ShareBit(x: int, y: int) {
    exists k: nat :: Bit(x, k) && Bit(y, k)
  }

  ghost predicate HasBitsOf(x: int, y: int) {
    forall k: nat :: Bit(y, k) ==> Bit(x, k)
  }

  lemma Overlap(x: int, y: int)
    ensures BitAnd(x, y) != 0 <==> ShareBit(x, y)
  {
    if BitAnd(x, y) != 0 {
      var k := SomeBit(BitAnd(x, y));
      BitAndBits(x, y, k);
    }
    if k: nat :| Bit(x, k) && Bit(y, k) {
      BitAndBits(x, y, k);
      ConstantBits(k);
    }
  }

  lemma Covers(x: int, y: int)
    ensures BitAnd(x, y) == y <==> HasBitsOf(x, y)
  {
    forall k: nat ensures Bit(BitAnd(x, y), k) <==> Bit(x, k) && Bit(y, k) { BitAndBits(x, y, k); }
    if BitAnd(x, y) == y {
      forall k: nat | Bit(y, k) ensures Bit(x, k) { BitAndBits(x, y, k); }
    }
    if HasBitsOf(x, y) { BitsDetermine(BitAnd(x, y), y); }
  }

  /** Masks overlap when they share a bit, and one covers another when it has all of its bits. */
  lemma MaskFunctions(l: Expr, r: Expr, sort: Sort, x: int, y: int, events: Events, a: Assignment)
    requires Evaluate(l, events, a) == Known(Int(x)) && Evaluate(r, events, a) == Known(Int(y))
    ensures Evaluate(Call("mask_overlap", [l, r], sort), events, a) == Known(Bool(ShareBit(x, y)))
    ensures Evaluate(Call("mask_covers", [l, r], sort), events, a) == Known(Bool(HasBitsOf(x, y)))
  {
    PairOutcomes(l, r, events, a);
    Overlap(x, y);
    Covers(x, y);
  }

  lemma PairOutcomes(l: Expr, r: Expr, events: Events, a: Assignment)
    requires Evaluate(l, events, a).Known? && Evaluate(r, events, a).Known?
    ensures EvaluateAll([l, r], events, a) == [Evaluate(l, events, a), Evaluate(r, events, a)]
    ensures KnownValues(EvaluateAll([l, r], events, a))
            == [Evaluate(l, events, a).value, Evaluate(r, events, a).value]
    ensures Outcome.Raised !in EvaluateAll([l, r], events, a) && Outcome.Unknown !in EvaluateAll([l, r], events, a)
  {
    var v, w := Evaluate(l, events, a), Evaluate(r, events, a);
    OutcomePair(l, r, events, a);
    assert [v, w][1..] == [w] && [w][1..] == [];
    assert KnownValues([w]) == [w.value];
  }

  // ----- Blocks

  /** The address lies in the block with the number. */
  predicate InBlock(address: int, block: int, size: int) {
    block * size <= address < block * size + size
  }

  /** Two addresses are in the same block when one aligned block holds both. */
  lemma SameBlockMeans(x: int, y: int, size: int)
    ensures Apply("same_block", [Int(x), Int(y)]) == Known(Bool(x == y))
    ensures size <= 0 ==> Apply("same_block", [Int(x), Int(y), Int(size)]).Raised?
    ensures size > 0 ==> Apply("same_block", [Int(x), Int(y), Int(size)])
                         == Known(Bool(exists block :: InBlock(x, block, size) && InBlock(y, block, size)))
  {
    if size > 0 {
      FloorDivision(x, size);
      FloorDivision(y, size);
      assert InBlock(x, FloorDiv(x, size), size) && InBlock(y, FloorDiv(y, size), size);
      forall block | InBlock(x, block, size) && InBlock(y, block, size) ensures FloorDiv(x, size) == FloorDiv(y, size) {
        OneBlock(x, block, FloorDiv(x, size), size);
        OneBlock(y, block, FloorDiv(y, size), size);
      }
    }
  }

  lemma OneBlock(address: int, b: int, c: int, size: int)
    requires size > 0 && InBlock(address, b, size) && InBlock(address, c, size)
    ensures b == c
  {
    if b < c { MultiplesApart(b, c, size); } else if c < b { MultiplesApart(c, b, size); }
  }
}
