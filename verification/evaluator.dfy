/** Three-valued evaluation of expressions under a possibly partial assignment. */
module Evaluator {
  import opened Common
  import opened Expressions

  type Assignment = map<string, Value>

  /** A value, the unknown of a partial assignment, or an exception. */
  datatype Outcome = Known(value: Value) | Unknown | Raised

  predicate Truthy(v: Value) {
    match v
    case Bool(b) => b
    case Int(n) => n != 0
    case Text(s) => s != ""
    case Nothing => false
  }

  /** Floor division, the integer division of the evaluator. */
  function FloorDiv(a: int, b: int): int
    requires b != 0
  {
    if b > 0 then a / b else (-a) / (-b)
  }

  function FloorMod(a: int, b: int): int
    requires b != 0
  {
    a - b * FloorDiv(a, b)
  }

  /** Bitwise conjunction of unbounded two's-complement integers. */
  function BitAnd(a: int, b: int): int
    decreases if a < 0 then -a else a
  {
    if a == 0 || b == 0 then 0
    else if a == -1 then b
    else 2 * BitAnd(a / 2, b / 2) + (a % 2) * (b % 2)
  }

  function Attr(attribute: Attribute, a: Assignment): Outcome {
    match attribute
    case Concrete(v) => Known(v)
    case Symbolic(name, _) => if name in a then Known(a[name]) else Unknown
  }

  function Field(events: Events, event: Id, field: string, a: Assignment): Outcome {
    if event !in events then Raised
    else
      var attribute := AttributeOf(events[event], field);
      if attribute.None? then Unknown else Attr(attribute.value, a)
  }

  function EvalUnary(op: UnaryOp, v: Outcome): Outcome {
    if !v.Known? then v
    else match op
      case Not => Known(Bool(!Truthy(v.value)))
      case Neg => if v.value.Int? then Known(Int(-v.value.n)) else Raised
  }

  function EvalAnd(l: Outcome, r: Outcome): Outcome {
    if l == Known(FALSE) || r == Known(FALSE) then Known(FALSE)
    else if l == Known(TRUE) && r == Known(TRUE) then Known(TRUE)
    else Unknown
  }

  function EvalOr(l: Outcome, r: Outcome): Outcome {
    if l == Known(TRUE) || r == Known(TRUE) then Known(TRUE)
    else if l == Known(FALSE) && r == Known(FALSE) then Known(FALSE)
    else Unknown
  }

  function EvalImplies(l: Outcome, r: Outcome): Outcome {
    if l == Known(FALSE) || r == Known(TRUE) then Known(TRUE)
    else if l == Known(TRUE) && r == Known(FALSE) then Known(FALSE)
    else Unknown
  }

  /** The strict order of numbers, of strings and of booleans; other pairs cannot be compared. */
  function Less(x: Value, y: Value): Option<bool> {
    if x.Int? && y.Int? then Some(x.n < y.n)
    else if x.Bool? && y.Bool? then Some(!x.b && y.b)
    else if x.Text? && y.Text? then Some(Common.Le(x.s, y.s) && x.s != y.s)
    else None
  }

  /** Operators that need both operands. */
  function EvalStrict(op: BinaryOp, x: Value, y: Value): Outcome {
    match op
    case Xor => Known(Bool(Truthy(x) != Truthy(y)))
    case Eq => Known(Bool(x == y))
    case Ne => Known(Bool(x != y))
    case Lt => if Less(x, y).None? then Raised else Known(Bool(Less(x, y).value))
    case Gt => if Less(y, x).None? then Raised else Known(Bool(Less(y, x).value))
    case Le => if Less(y, x).None? then Raised else Known(Bool(!Less(y, x).value))
    case Ge => if Less(x, y).None? then Raised else Known(Bool(!Less(x, y).value))
    case Add => if x.Int? && y.Int? then Known(Int(x.n + y.n)) else Raised
    case Sub => if x.Int? && y.Int? then Known(Int(x.n - y.n)) else Raised
    case Mul => if x.Int? && y.Int? then Known(Int(x.n * y.n)) else Raised
    case Div => if x.Int? && y.Int? && y.n != 0 then Known(Int(FloorDiv(x.n, y.n))) else Raised
    case Mod => if x.Int? && y.Int? && y.n != 0 then Known(Int(FloorMod(x.n, y.n))) else Raised
    case _ => Raised
  }

  function EvalBinary(op: BinaryOp, l: Outcome, r: Outcome): Outcome {
    if l.Raised? || r.Raised? then Raised
    else if op.And? then EvalAnd(l, r)
    else if op.Or? then EvalOr(l, r)
    else if op.Implies? then EvalImplies(l, r)
    else if l.Unknown? || r.Unknown? then Unknown
    else EvalStrict(op, l.value, r.value)
  }

  /** The known values among the outcomes, in order. */
  function KnownValues(vs: seq<Outcome>): seq<Value> {
    if vs == [] then []
    else if vs[0].Known? then [vs[0].value] + KnownValues(vs[1..])
    else KnownValues(vs[1..])
  }

  function EvalNary(op: NaryOp, vs: seq<Outcome>): Outcome {
    if Outcome.Raised in vs then Raised
    else match op
      case AllOf =>
        if Known(FALSE) in vs then Known(FALSE)
        else if forall v | v in vs :: v == Known(TRUE) then Known(TRUE)
        else Unknown
      case AnyOf =>
        if Known(TRUE) in vs then Known(TRUE)
        else if forall v | v in vs :: v == Known(FALSE) then Known(FALSE)
        else Unknown
      case Distinct =>
        if !NoDup(KnownValues(vs)) then Known(FALSE)
        else if Outcome.Unknown !in vs then Known(TRUE)
        else Unknown
  }

  function SameBlock(vs: seq<Value>): Outcome {
    if |vs| == 2 then Known(Bool(vs[0] == vs[1]))
    else if |vs| != 3 then Raised
    else if !(vs[0].Int? && vs[1].Int? && vs[2].Int?) then Known(Bool(vs[0] == vs[1]))
    else if vs[2].n <= 0 then Raised
    else Known(Bool(FloorDiv(vs[0].n, vs[2].n) == FloorDiv(vs[1].n, vs[2].n)))
  }

  const SAME_FUNCTIONS := {"same_address", "same_identity", "same_op", "same_value"}

  /** The built-in functions. */
  function Apply(f: string, vs: seq<Value>): Outcome {
    if f in SAME_FUNCTIONS then Known(Bool(forall v | v in vs :: v == vs[0]))
    else if f == "same_block" then SameBlock(vs)
    else if f == "mask_overlap" then
      if |vs| == 2 && vs[0].Int? && vs[1].Int? then Known(Bool(BitAnd(vs[0].n, vs[1].n) != 0)) else Raised
    else if f == "mask_covers" then
      if |vs| == 2 && vs[0].Int? && vs[1].Int? then Known(Bool(BitAnd(vs[0].n, vs[1].n) == vs[1].n)) else Raised
    else Raised
  }

  function EvalCall(f: string, vs: seq<Outcome>): Outcome {
    if Outcome.Raised in vs then Raised
    else if Outcome.Unknown in vs then Unknown
    else Apply(f, KnownValues(vs))
  }

  function Evaluate(e: Expr, events: Events, a: Assignment): Outcome {
    match e
    case Literal(v, _) => Known(v)
    case Symbol(name, _) => if name in a then Known(a[name]) else Unknown
    case EventField(event, field, _) => Field(events, event, field, a)
    case Unary(op, operand) => EvalUnary(op, Evaluate(operand, events, a))
    case Binary(op, left, right) => EvalBinary(op, Evaluate(left, events, a), Evaluate(right, events, a))
    case Nary(op, operands) => EvalNary(op, EvaluateAll(operands, events, a))
    case Ite(condition, thenExpr, elseExpr) =>
      var c := Evaluate(condition, events, a);
      if c.Raised? then Raised
      else if c == Known(TRUE) then Evaluate(thenExpr, events, a)
      else if c == Known(FALSE) then Evaluate(elseExpr, events, a)
      else
        var t := Evaluate(thenExpr, events, a);
        var f := Evaluate(elseExpr, events, a);
        if t.Raised? || f.Raised? then Raised
        else if t.Known? && t == f then t
        else Unknown
    case Call(f, arguments, _) => EvalCall(f, EvaluateAll(arguments, events, a))
  }

  function EvaluateAll(es: seq<Expr>, events: Events, a: Assignment): (vs: seq<Outcome>)
    ensures |vs| == |es|
  {
    if es == [] then [] else [Evaluate(es[0], events, a)] + EvaluateAll(es[1..], events, a)
  }

  lemma {:induction false} EvaluateAllAt(es: seq<Expr>, events: Events, a: Assignment, i: nat)
    requires i < |es|
    ensures EvaluateAll(es, events, a)[i] == Evaluate(es[i], events, a)
  {
    if i > 0 { EvaluateAllAt(es[1..], events, a, i - 1); }
  }

  // ----- Monotonicity: why a definitely false constraint may be pruned

  ghost predicate Extends(a: Assignment, b: Assignment) {
    forall x :: x in a ==> x in b && b[x] == a[x]
  }

  /** A known outcome stays; an unknown one may become anything. */
  predicate Refines(v: Outcome, w: Outcome) {
    v.Known? && !w.Raised? ==> w == v
  }

  ghost predicate RefinesAll(vs: seq<Outcome>, ws: seq<Outcome>) {
    |vs| == |ws| && forall i :: 0 <= i < |vs| ==> Refines(vs[i], ws[i])
  }

  lemma ConsNoDup<T>(x: T, s: seq<T>)
    ensures NoDup([x] + s) <==> NoDup(s) && x !in s
  {
    var t := [x] + s;
    if NoDup(t) {
      forall i, j | 0 <= i < j < |s| ensures s[i] != s[j] { assert s[i] == t[i + 1] && s[j] == t[j + 1]; }
      forall j | 0 <= j < |s| ensures s[j] != x { assert t[0] == x && s[j] == t[j + 1]; }
    }
  }

  /** Two equal known values stay where refinement keeps them. */
  lemma {:induction false} KnownValuesGrow(vs: seq<Outcome>, ws: seq<Outcome>)
    requires RefinesAll(vs, ws) && Outcome.Raised !in ws
    requires NoDup(KnownValues(ws))
    ensures NoDup(KnownValues(vs))
    ensures forall v :: v in KnownValues(vs) ==> v in KnownValues(ws)
  {
    if vs != [] {
      var k, m := KnownValues(vs[1..]), KnownValues(ws[1..]);
      assert ws[0] in ws && forall w :: w in ws[1..] ==> w in ws;
      forall i | 0 <= i < |vs[1..]| ensures Refines(vs[1..][i], ws[1..][i]) { assert Refines(vs[i + 1], ws[i + 1]); }
      if ws[0].Known? { ConsNoDup(ws[0].value, m); }
      KnownValuesGrow(vs[1..], ws[1..]);
      if vs[0].Known? {
        assert ws[0] == vs[0];
        ConsNoDup(vs[0].value, k);
      }
    }
  }

  lemma {:induction false} KnownAllSame(vs: seq<Outcome>, ws: seq<Outcome>)
    requires RefinesAll(vs, ws) && Outcome.Raised !in ws && Outcome.Raised !in vs && Outcome.Unknown !in vs
    ensures vs == ws
  {
    forall i | 0 <= i < |vs| ensures vs[i] == ws[i] {
      assert vs[i] in vs && ws[i] in ws;
    }
  }

  lemma NaryRefines(op: NaryOp, vs: seq<Outcome>, ws: seq<Outcome>)
    requires RefinesAll(vs, ws)
    ensures Refines(EvalNary(op, vs), EvalNary(op, ws))
  {
    if EvalNary(op, vs).Known? && !EvalNary(op, ws).Raised? {
      forall v | v in vs && v.Known? ensures v in ws {
        var i :| 0 <= i < |vs| && vs[i] == v;
        assert ws[i] in ws;
      }
      if Outcome.Unknown !in vs { KnownAllSame(vs, ws); }
      if op.Distinct? && NoDup(KnownValues(ws)) { KnownValuesGrow(vs, ws); }
    }
  }

  lemma CallRefines(f: string, vs: seq<Outcome>, ws: seq<Outcome>)
    requires RefinesAll(vs, ws)
    ensures Refines(EvalCall(f, vs), EvalCall(f, ws))
  {
    if EvalCall(f, vs).Known? && !EvalCall(f, ws).Raised? { KnownAllSame(vs, ws); }
  }

  /** A value known under a partial assignment is unchanged by every extension whose evaluation finishes. */
  lemma {:induction false} EvaluationIsMonotone(e: Expr, events: Events, a: Assignment, b: Assignment)
    requires Extends(a, b)
    ensures Refines(Evaluate(e, events, a), Evaluate(e, events, b))
  {
    match e
    case Literal(_, _) =>
    case Symbol(_, _) =>
    case EventField(_, _, _) =>
    case Unary(_, operand) =>
      EvaluationIsMonotone(operand, events, a, b);
    case Binary(_, left, right) =>
      EvaluationIsMonotone(left, events, a, b);
      EvaluationIsMonotone(right, events, a, b);
    case Nary(op, operands) =>
      AllMonotone(operands, events, a, b);
      NaryRefines(op, EvaluateAll(operands, events, a), EvaluateAll(operands, events, b));
    case Ite(condition, thenExpr, elseExpr) =>
      EvaluationIsMonotone(condition, events, a, b);
      EvaluationIsMonotone(thenExpr, events, a, b);
      EvaluationIsMonotone(elseExpr, events, a, b);
    case Call(f, arguments, _) =>
      AllMonotone(arguments, events, a, b);
      CallRefines(f, EvaluateAll(arguments, events, a), EvaluateAll(arguments, events, b));
  }

  lemma {:induction false} AllMonotone(es: seq<Expr>, events: Events, a: Assignment, b: Assignment)
    requires Extends(a, b)
    ensures RefinesAll(EvaluateAll(es, events, a), EvaluateAll(es, events, b))
  {
    if es != [] {
      EvaluationIsMonotone(es[0], events, a, b);
      AllMonotone(es[1..], events, a, b);
    }
  }

  // ----- Substitution

  /** Gives each role the event it is bound to. */
  function Rebind(events: Events, m: Binding): Events {
    map id | id in events.Keys + m.Keys && Rename(m, id) in events :: events[Rename(m, id)]
  }

  /** Evaluating a substituted expression is evaluating the original with the roles bound. */
  lemma {:induction false} SubstitutionLemma(e: Expr, m: Binding, events: Events, a: Assignment)
    ensures Evaluate(Substitute(e, m), events, a) == Evaluate(e, Rebind(events, m), a)
  {
    match e
    case Literal(_, _) =>
    case Symbol(_, _) =>
    case EventField(_, _, _) =>
    case Unary(_, operand) =>
      SubstitutionLemma(operand, m, events, a);
    case Binary(_, left, right) =>
      SubstitutionLemma(left, m, events, a);
      SubstitutionLemma(right, m, events, a);
    case Nary(_, operands) =>
      SubstitutionAll(operands, m, events, a);
    case Ite(condition, thenExpr, elseExpr) =>
      SubstitutionLemma(condition, m, events, a);
      SubstitutionLemma(thenExpr, m, events, a);
      SubstitutionLemma(elseExpr, m, events, a);
    case Call(_, arguments, _) =>
      SubstitutionAll(arguments, m, events, a);
  }

  lemma {:induction false} SubstitutionAll(es: seq<Expr>, m: Binding, events: Events, a: Assignment)
    ensures EvaluateAll(SubstituteAll(es, m), events, a) == EvaluateAll(es, Rebind(events, m), a)
  {
    if es != [] {
      SubstitutionLemma(es[0], m, events, a);
      SubstitutionAll(es[1..], m, events, a);
    }
  }

  /** Evaluation depends only on the events that the expression mentions. */
  lemma {:induction false} EvaluationReadsMentions(e: Expr, before: Events, after: Events, a: Assignment)
    requires forall id :: id in Mentions(e) ==>
      (id in before <==> id in after) && (id in before ==> before[id] == after[id])
    ensures Evaluate(e, before, a) == Evaluate(e, after, a)
  {
    match e
    case Literal(_, _) =>
    case Symbol(_, _) =>
    case EventField(_, _, _) =>
    case Unary(_, operand) =>
      EvaluationReadsMentions(operand, before, after, a);
    case Binary(_, left, right) =>
      EvaluationReadsMentions(left, before, after, a);
      EvaluationReadsMentions(right, before, after, a);
    case Nary(_, operands) =>
      AllReadMentions(operands, before, after, a);
    case Ite(condition, thenExpr, elseExpr) =>
      EvaluationReadsMentions(condition, before, after, a);
      EvaluationReadsMentions(thenExpr, before, after, a);
      EvaluationReadsMentions(elseExpr, before, after, a);
    case Call(_, arguments, _) =>
      AllReadMentions(arguments, before, after, a);
  }

  lemma {:induction false} AllReadMentions(es: seq<Expr>, before: Events, after: Events, a: Assignment)
    requires forall id :: id in MentionsAll(es) ==>
      (id in before <==> id in after) && (id in before ==> before[id] == after[id])
    ensures EvaluateAll(es, before, a) == EvaluateAll(es, after, a)
  {
    if es != [] {
      EvaluationReadsMentions(es[0], before, after, a);
      AllReadMentions(es[1..], before, after, a);
    }
  }

  // ----- Conjunctions and disjunctions

  predicate IsTrue(e: Expr, events: Events, a: Assignment) {
    Evaluate(e, events, a) == Known(TRUE)
  }

  /** The expression evaluates to a boolean. */
  predicate Decided(e: Expr, events: Events, a: Assignment) {
    Evaluate(e, events, a) in {Known(TRUE), Known(FALSE)}
  }

  ghost predicate AllDecided(es: seq<Expr>, events: Events, a: Assignment) {
    forall e :: e in es ==> Decided(e, events, a)
  }

  lemma MembersEvaluate(es: seq<Expr>, events: Events, a: Assignment)
    ensures forall v :: v in EvaluateAll(es, events, a) <==> exists e :: e in es && Evaluate(e, events, a) == v
  {
    var vs := EvaluateAll(es, events, a);
    forall i | 0 <= i < |es| ensures vs[i] == Evaluate(es[i], events, a) { EvaluateAllAt(es, events, a, i); }
    forall v ensures v in vs <==> exists e :: e in es && Evaluate(e, events, a) == v {
      if e :| e in es && Evaluate(e, events, a) == v {
        var i :| 0 <= i < |es| && es[i] == e;
        assert vs[i] == v;
      }
      if v in vs {
        var i :| 0 <= i < |vs| && vs[i] == v;
        assert es[i] in es;
      }
    }
  }

  lemma ConjunctionIsTrue(es: seq<Expr>, events: Events, a: Assignment)
    ensures IsTrue(Conjunction(es), events, a) <==> forall e :: e in es ==> IsTrue(e, events, a)
    ensures AllDecided(es, events, a) ==> Decided(Conjunction(es), events, a)
  {
    MembersEvaluate(es, events, a);
    if |es| == 1 { assert es[0] in es; }
    var vs := EvaluateAll(es, events, a);
    if forall e :: e in es ==> IsTrue(e, events, a) {
      assert forall v :: v in vs ==> v == Known(TRUE);
    }
    if |es| > 1 && IsTrue(Conjunction(es), events, a) {
      forall e | e in es ensures IsTrue(e, events, a) { assert Evaluate(e, events, a) in vs; }
    }
    if AllDecided(es, events, a) {
      assert forall v :: v in vs ==> v in {Known(TRUE), Known(FALSE)};
    }
  }

  lemma DisjunctionIsTrue(es: seq<Expr>, events: Events, a: Assignment)
    ensures IsTrue(Disjunction(es), events, a) ==> exists e :: e in es && IsTrue(e, events, a)
    ensures AllDecided(es, events, a) ==> Decided(Disjunction(es), events, a)
    ensures AllDecided(es, events, a) && (exists e :: e in es && IsTrue(e, events, a)) ==>
      IsTrue(Disjunction(es), events, a)
  {
    MembersEvaluate(es, events, a);
    if |es| == 1 { assert es[0] in es; }
    if AllDecided(es, events, a) { assert Outcome.Raised !in EvaluateAll(es, events, a); }
  }
}
