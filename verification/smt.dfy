/** SMT terms with a denotation, and the translation of expressions into them. */
module Smt {
  import opened Common
  import opened Expressions
  import opened Evaluator

  datatype SmtValue = B(b: bool) | I(n: int)

  datatype SmtOp = OpNot | OpAnd | OpOr | OpImplies | OpXor | OpEq | OpDistinct | OpLt | OpLe | OpGt | OpGe
                 | OpAdd | OpSub | OpMul | OpDiv | OpMod | OpNeg | OpIte

  /** Declared constants are the variables of the problem and the pre-state snapshots of its cells. */
  datatype Term =
    | Constant(value: SmtValue)
    | Declared(name: string)
    | Snapshot(state: string, cycle: nat)
    | App(op: SmtOp, args: seq<Term>)

  datatype Model = Model(vars: map<string, SmtValue>, cells: map<(string, nat), SmtValue>)

  function AsBool(v: SmtValue): bool { v.B? && v.b }

  function AsInt(v: SmtValue): int { if v.I? then v.n else 0 }

  function Arg(vs: seq<SmtValue>, i: nat): SmtValue {
    if i < |vs| then vs[i] else B(false)
  }

  /** The meaning of an operator on values of its sorts. */
  function Interpret(op: SmtOp, vs: seq<SmtValue>): SmtValue {
    match op
    case OpNot => B(!AsBool(Arg(vs, 0)))
    case OpAnd => B(forall v | v in vs :: AsBool(v))
    case OpOr => B(exists v | v in vs :: AsBool(v))
    case OpImplies => B(AsBool(Arg(vs, 0)) ==> AsBool(Arg(vs, 1)))
    case OpXor => B(AsBool(Arg(vs, 0)) != AsBool(Arg(vs, 1)))
    case OpEq => B(forall i | 0 <= i < |vs| - 1 :: vs[i] == vs[i + 1])
    case OpDistinct => B(NoDup(vs))
    case OpLt => B(AsInt(Arg(vs, 0)) < AsInt(Arg(vs, 1)))
    case OpLe => B(AsInt(Arg(vs, 0)) <= AsInt(Arg(vs, 1)))
    case OpGt => B(AsInt(Arg(vs, 0)) > AsInt(Arg(vs, 1)))
    case OpGe => B(AsInt(Arg(vs, 0)) >= AsInt(Arg(vs, 1)))
    case OpAdd => I(AsInt(Arg(vs, 0)) + AsInt(Arg(vs, 1)))
    case OpSub => I(AsInt(Arg(vs, 0)) - AsInt(Arg(vs, 1)))
    case OpMul => I(AsInt(Arg(vs, 0)) * AsInt(Arg(vs, 1)))
    case OpDiv => I(if AsInt(Arg(vs, 1)) == 0 then 0 else AsInt(Arg(vs, 0)) / AsInt(Arg(vs, 1)))
    case OpMod => I(if AsInt(Arg(vs, 1)) == 0 then 0 else AsInt(Arg(vs, 0)) % AsInt(Arg(vs, 1)))
    case OpNeg => I(-AsInt(Arg(vs, 0)))
    case OpIte => if AsBool(Arg(vs, 0)) then Arg(vs, 1) else Arg(vs, 2)
  }

  function Denote(t: Term, m: Model): SmtValue {
    match t
    case Constant(v) => v
    case Declared(name) => if name in m.vars then m.vars[name] else B(false)
    case Snapshot(state, cycle) => if (state, cycle) in m.cells then m.cells[(state, cycle)] else B(false)
    case App(op, args) => Interpret(op, DenoteAll(args, m))
  }

  function DenoteAll(ts: seq<Term>, m: Model): (vs: seq<SmtValue>)
    ensures |vs| == |ts|
  {
    if ts == [] then [] else [Denote(ts[0], m)] + DenoteAll(ts[1..], m)
  }

  lemma {:induction false} DenoteAllAt(ts: seq<Term>, m: Model, i: nat)
    requires i < |ts|
    ensures DenoteAll(ts, m)[i] == Denote(ts[i], m)
  {
    if i > 0 { DenoteAllAt(ts[1..], m, i - 1); }
  }

  predicate Satisfied(t: Term, m: Model) {
    Denote(t, m) == B(true)
  }

  // ----- The codec

  /** The values of each enumerated sort; the code of a value is its position. */
  type Codec = map<Sort, seq<Value>>

  /** `v` is a value of the sort that has a code. */
  predicate HasSort(codec: Codec, s: Sort, v: Value) {
    match s
    case BoolSort => v.Bool?
    case IntSort => v.Int?
    case BitVectorSort(_) => false
    case NamedSort(_) => s in codec && v in codec[s]
  }

  function Encode(codec: Codec, s: Sort, v: Value): SmtValue
    requires HasSort(codec, s, v)
  {
    match s
    case BoolSort => B(v.b)
    case IntSort => I(v.n)
    case NamedSort(_) => I(IndexOf(codec[s], v))
  }

  lemma EncodeInjective(codec: Codec, s: Sort, v: Value, w: Value)
    requires HasSort(codec, s, v) && HasSort(codec, s, w)
    ensures Encode(codec, s, v) == Encode(codec, s, w) <==> v == w
  {
  }

  /** The literal of a value; an error when it has no code. Bit-vector literals are not modelled. */
  function LiteralTerm(codec: Codec, s: Sort, v: Value): Result<Term> {
    if HasSort(codec, s, v) then Ok(Constant(Encode(codec, s, v))) else Err
  }

  function BinarySmtOp(op: BinaryOp): SmtOp {
    match op
    case And => OpAnd case Or => OpOr case Implies => OpImplies case Xor => OpXor
    case Eq => OpEq case Ne => OpDistinct
    case Lt => OpLt case Le => OpLe case Gt => OpGt case Ge => OpGe
    case Add => OpAdd case Sub => OpSub case Mul => OpMul case Div => OpDiv case Mod => OpMod
  }

  /** The translation of an expression. */
  function Translate(codec: Codec, events: Events, e: Expr): Result<Term> {
    match e
    case Literal(v, s) => LiteralTerm(codec, s, v)
    case Symbol(name, _) => Ok(Declared(name))
    case EventField(event, field, s) =>
      if event !in events then Err
      else
        var attribute := AttributeOf(events[event], field);
        if attribute.None? || attribute.value == Concrete(Nothing) then Err
        else if attribute.value.Symbolic? then Ok(Declared(attribute.value.name))
        else LiteralTerm(codec, s, attribute.value.value)
    case Unary(op, operand) =>
      var t := Translate(codec, events, operand);
      if t.Err? then Err else Ok(App(if op.Not? then OpNot else OpNeg, [t.value]))
    case Binary(op, left, right) =>
      var l := Translate(codec, events, left);
      var r := Translate(codec, events, right);
      if l.Err? || r.Err? then Err else Ok(App(BinarySmtOp(op), [l.value, r.value]))
    case Nary(op, operands) =>
      var ts := TranslateAll(codec, events, operands);
      if ts.Err? then Err
      else if operands == [] then Ok(Constant(B(op.AllOf?)))
      else Ok(App(match op case AllOf => OpAnd case AnyOf => OpOr case Distinct => OpDistinct, ts.value))
    case Ite(condition, thenExpr, elseExpr) =>
      var c := Translate(codec, events, condition);
      var t := Translate(codec, events, thenExpr);
      var f := Translate(codec, events, elseExpr);
      if c.Err? || t.Err? || f.Err? then Err else Ok(App(OpIte, [c.value, t.value, f.value]))
    case Call(f, arguments, _) =>
      var ts := TranslateAll(codec, events, arguments);
      if ts.Err? then Err
      else if f in SAME_FUNCTIONS then
        if |arguments| <= 1 then Ok(Constant(B(true))) else Ok(App(OpEq, ts.value))
      else if f == "same_block" && |arguments| >= 2 then Ok(App(OpEq, ts.value[..2]))
      else Err
  }

  function TranslateAll(codec: Codec, events: Events, es: seq<Expr>): (ts: Result<seq<Term>>)
    ensures ts.Ok? ==> |ts.value| == |es|
  {
    if es == [] then Ok([])
    else
      var t := Translate(codec, events, es[0]);
      var rest := TranslateAll(codec, events, es[1..]);
      if t.Err? || rest.Err? then Err else Ok([t.value] + rest.value)
  }

  // ----- The fragment on which evaluation and translation agree

  type Signature = map<string, Sort>

  predicate HasAttribute(codec: Codec, types: Signature, attribute: Option<Attribute>, s: Sort) {
    && attribute.Some?
    && match attribute.value
       case Concrete(v) => v != Nothing && HasSort(codec, s, v)
       case Symbolic(name, _) => name in types && types[name] == s
  }

  /**
   * `e` is an expression of sort `s` over booleans, integers and enumerations, without division, masks or sized blocks.
   */
  ghost predicate WellSorted(codec: Codec, types: Signature, events: Events, e: Expr, s: Sort)
    decreases e
  {
    match e
    case Literal(v, sort) => sort == s && HasSort(codec, s, v)
    case Symbol(name, sort) => sort == s && name in types && types[name] == s
    case EventField(event, field, sort) =>
      sort == s && event in events && HasAttribute(codec, types, AttributeOf(events[event], field), s)
    case Unary(op, operand) =>
      if op.Not? then s == BoolSort && WellSorted(codec, types, events, operand, BoolSort)
      else s == IntSort && WellSorted(codec, types, events, operand, IntSort)
    case Binary(op, left, right) =>
      if op in {And, Or, Implies, Xor} then
        s == BoolSort && WellSorted(codec, types, events, left, BoolSort)
            && WellSorted(codec, types, events, right, BoolSort)
      else if op in {Eq, Ne} then
        s == BoolSort
        && exists t :: WellSorted(codec, types, events, left, t) && WellSorted(codec, types, events, right, t)
      else if op in {Lt, Le, Gt, Ge} then
        s == BoolSort && WellSorted(codec, types, events, left, IntSort)
            && WellSorted(codec, types, events, right, IntSort)
      else
        op in {Add, Sub, Mul} && s == IntSort
        && WellSorted(codec, types, events, left, IntSort) && WellSorted(codec, types, events, right, IntSort)
    case Nary(op, operands) =>
      s == BoolSort && operands != []
      && (if op.Distinct? then exists t :: AllWellSorted(codec, types, events, operands, t)
          else AllWellSorted(codec, types, events, operands, BoolSort))
    case Ite(condition, thenExpr, elseExpr) =>
      WellSorted(codec, types, events, condition, BoolSort)
      && WellSorted(codec, types, events, thenExpr, s) && WellSorted(codec, types, events, elseExpr, s)
    case Call(f, arguments, _) =>
      s == BoolSort && (f in SAME_FUNCTIONS || (f == "same_block" && |arguments| == 2))
      && exists t :: AllWellSorted(codec, types, events, arguments, t)
  }

  ghost predicate AllWellSorted(codec: Codec, types: Signature, events: Events, es: seq<Expr>, s: Sort)
    decreases es
  {
    es == [] || (WellSorted(codec, types, events, es[0], s) && AllWellSorted(codec, types, events, es[1..], s))
  }

  /** The assignment gives every symbol a value of its sort. */
  ghost predicate Conforms(codec: Codec, types: Signature, a: Assignment) {
    forall x :: x in types ==> x in a && HasSort(codec, types[x], a[x])
  }

  /** The model gives every symbol the code of its value. */
  ghost predicate EncodesAssignment(codec: Codec, types: Signature, a: Assignment, m: Model) {
    Conforms(codec, types, a)
    && forall x :: x in types ==> x in m.vars && m.vars[x] == Encode(codec, types[x], a[x])
  }

  /** The outcome is a value of the sort, and the term denotes its code. */
  ghost predicate Agrees(codec: Codec, s: Sort, v: Outcome, t: Result<Term>, m: Model) {
    v.Known? && HasSort(codec, s, v.value) && t.Ok? && Denote(t.value, m) == Encode(codec, s, v.value)
  }

  ghost predicate AllAgree(codec: Codec, s: Sort, vs: seq<Outcome>, ts: Result<seq<Term>>, m: Model) {
    && ts.Ok? && |vs| == |ts.value|
    && forall i :: 0 <= i < |vs| ==>
         && vs[i].Known? && HasSort(codec, s, vs[i].value)
         && DenoteAll(ts.value, m)[i] == Encode(codec, s, vs[i].value)
  }

  lemma DenoteOne(t: Term, m: Model)
    ensures DenoteAll([t], m) == [Denote(t, m)]
  {
  }

  lemma DenoteTwo(t: Term, u: Term, m: Model)
    ensures DenoteAll([t, u], m) == [Denote(t, m), Denote(u, m)]
  {
    assert [t, u][1..] == [u];
  }

  lemma IteDenotes(t: Term, u: Term, w: Term, m: Model)
    ensures Denote(App(OpIte, [t, u, w]), m) == if AsBool(Denote(t, m)) then Denote(u, m) else Denote(w, m)
  {
    assert [t, u, w][1..] == [u, w];
    DenoteTwo(u, w, m);
  }

  lemma BooleanBinaryAgrees(codec: Codec, op: BinaryOp, v: Outcome, w: Outcome, t: Term, u: Term, m: Model)
    requires op in {And, Or, Implies, Xor}
    requires Agrees(codec, BoolSort, v, Ok(t), m) && Agrees(codec, BoolSort, w, Ok(u), m)
    ensures Agrees(codec, BoolSort, EvalBinary(op, v, w), Ok(App(BinarySmtOp(op), [t, u])), m)
  {
    DenoteTwo(t, u, m);
    var vs := [Denote(t, m), Denote(u, m)];
    assert forall x :: x in vs <==> x == vs[0] || x == vs[1];
    assert vs[0] in vs && vs[1] in vs;
  }

  lemma EqualityAgrees(codec: Codec, op: BinaryOp, s: Sort, v: Outcome, w: Outcome, t: Term, u: Term, m: Model)
    requires op in {Eq, Ne}
    requires Agrees(codec, s, v, Ok(t), m) && Agrees(codec, s, w, Ok(u), m)
    ensures Agrees(codec, BoolSort, EvalBinary(op, v, w), Ok(App(BinarySmtOp(op), [t, u])), m)
  {
    DenoteTwo(t, u, m);
    EncodeInjective(codec, s, v.value, w.value);
    var vs := [Denote(t, m), Denote(u, m)];
    assert NoDup(vs) <==> vs[0] != vs[1];
    assert (forall i | 0 <= i < |vs| - 1 :: vs[i] == vs[i + 1]) <==> vs[0] == vs[1];
  }

  lemma IntegerBinaryAgrees(codec: Codec, op: BinaryOp, v: Outcome, w: Outcome, t: Term, u: Term, m: Model)
    requires op in {Lt, Le, Gt, Ge, Add, Sub, Mul}
    requires Agrees(codec, IntSort, v, Ok(t), m) && Agrees(codec, IntSort, w, Ok(u), m)
    ensures Agrees(codec, if op in {Lt, Le, Gt, Ge} then BoolSort else IntSort,
                   EvalBinary(op, v, w), Ok(App(BinarySmtOp(op), [t, u])), m)
  {
    DenoteTwo(t, u, m);
  }

  lemma KnownOutcomes(vs: seq<Outcome>, ws: seq<Value>)
    requires |vs| == |ws| && forall i :: 0 <= i < |vs| ==> vs[i] == Known(ws[i])
    ensures KnownValues(vs) == ws
  {
    if vs != [] { KnownOutcomes(vs[1..], ws[1..]); }
  }

  lemma ConnectiveAgrees(codec: Codec, op: NaryOp, vs: seq<Outcome>, ts: seq<Term>, m: Model)
    requires op in {AllOf, AnyOf} && AllAgree(codec, BoolSort, vs, Ok(ts), m)
    ensures Agrees(codec, BoolSort, EvalNary(op, vs), Ok(App(if op.AllOf? then OpAnd else OpOr, ts)), m)
  {
    var ds := DenoteAll(ts, m);
    forall i | 0 <= i < |vs| ensures vs[i] == Known(Bool(AsBool(ds[i]))) {
    }
    assert forall v :: v in vs ==> v.Known?;
    if op.AllOf? {
      assert (forall v | v in ds :: AsBool(v)) <==> (forall v | v in vs :: v == Known(TRUE)) by {
        if forall v | v in ds :: AsBool(v) { assert forall i :: 0 <= i < |vs| ==> ds[i] in ds; }
        if forall v | v in vs :: v == Known(TRUE) { assert forall i :: 0 <= i < |vs| ==> vs[i] in vs; }
      }
      if !(forall v | v in vs :: v == Known(TRUE)) {
        var v :| v in vs && v != Known(TRUE);
        assert v == Known(FALSE);
      }
    } else {
      assert (exists v | v in ds :: AsBool(v)) <==> Known(TRUE) in vs by {
        if v :| v in ds && AsBool(v) {
          var i :| 0 <= i < |ds| && ds[i] == v;
          assert vs[i] in vs;
        }
        if Known(TRUE) in vs {
          var i :| 0 <= i < |vs| && vs[i] == Known(TRUE);
          assert ds[i] in ds;
        }
      }
    }
  }

  lemma DistinctAgrees(codec: Codec, s: Sort, vs: seq<Outcome>, ts: seq<Term>, m: Model)
    requires AllAgree(codec, s, vs, Ok(ts), m)
    ensures Agrees(codec, BoolSort, EvalNary(Distinct, vs), Ok(App(OpDistinct, ts)), m)
  {
    var ds := DenoteAll(ts, m);
    var ws := seq(|vs|, i requires 0 <= i < |vs| && vs[i].Known? => vs[i].value);
    KnownOutcomes(vs, ws);
    forall i, j | 0 <= i < j < |vs| ensures ds[i] == ds[j] <==> ws[i] == ws[j] {
      EncodeInjective(codec, s, ws[i], ws[j]);
    }
    assert forall v :: v in vs ==> v.Known?;
    assert NoDup(ds) <==> NoDup(ws);
  }

  lemma {:induction false} ChainIsAllEqual(ds: seq<SmtValue>)
    requires ds != [] && forall i :: 0 <= i < |ds| - 1 ==> ds[i] == ds[i + 1]
    ensures forall i :: 0 <= i < |ds| ==> ds[i] == ds[0]
  {
    if |ds| > 1 {
      var tail := ds[1..];
      forall i | 0 <= i < |tail| - 1 ensures tail[i] == tail[i + 1] { assert ds[i + 1] == ds[i + 2]; }
      ChainIsAllEqual(tail);
      forall i | 0 <= i < |ds| ensures ds[i] == ds[0] { if i > 0 { assert ds[i] == tail[i - 1]; } }
    }
  }

  lemma SameAgrees(codec: Codec, s: Sort, vs: seq<Outcome>, ts: seq<Term>, m: Model)
    requires AllAgree(codec, s, vs, Ok(ts), m)
    ensures Outcome.Raised !in vs && Outcome.Unknown !in vs
    ensures |KnownValues(vs)| == |ts| && forall i :: 0 <= i < |ts| ==> vs[i] == Known(KnownValues(vs)[i])
    ensures (forall v | v in KnownValues(vs) :: v == KnownValues(vs)[0]) <==> Denote(App(OpEq, ts), m) == B(true)
    ensures Denote(App(OpEq, ts), m).B?
  {
    var ds := DenoteAll(ts, m);
    var ws := seq(|vs|, i requires 0 <= i < |vs| && vs[i].Known? => vs[i].value);
    KnownOutcomes(vs, ws);
    forall i, j | 0 <= i < |vs| && 0 <= j < |vs| ensures ds[i] == ds[j] <==> ws[i] == ws[j] {
      EncodeInjective(codec, s, ws[i], ws[j]);
    }
    if ds != [] && forall i :: 0 <= i < |ds| - 1 ==> ds[i] == ds[i + 1] { ChainIsAllEqual(ds); }
    if forall v | v in ws :: v == ws[0] { assert forall i :: 0 <= i < |ws| ==> ws[i] in ws; }
  }

  /** A complete assignment gives a well-sorted expression a value of its sort, and the translation denotes its code. */
  lemma {:induction false} TranslationAgrees(codec: Codec, types: Signature, events: Events, e: Expr, s: Sort,
                                             a: Assignment, m: Model)
    requires WellSorted(codec, types, events, e, s) && EncodesAssignment(codec, types, a, m)
    ensures Agrees(codec, s, Evaluate(e, events, a), Translate(codec, events, e), m)
    decreases e
  {
    match e
    case Literal(_, _) => LeafAgrees(codec, types, events, e, s, a, m);
    case Symbol(_, _) => LeafAgrees(codec, types, events, e, s, a, m);
    case EventField(_, _, _) => LeafAgrees(codec, types, events, e, s, a, m);
    case Unary(op, operand) => UnaryAgrees(codec, types, events, op, operand, s, a, m);
    case Binary(op, left, right) => BinaryAgrees(codec, types, events, op, left, right, s, a, m);
    case Nary(op, operands) => NaryAgrees(codec, types, events, op, operands, a, m);
    case Ite(condition, thenExpr, elseExpr) =>
      IteAgrees(codec, types, events, condition, thenExpr, elseExpr, s, a, m);
    case Call(f, arguments, sort) => CallAgrees(codec, types, events, f, arguments, sort, a, m);
  }

  lemma LeafAgrees(codec: Codec, types: Signature, events: Events, e: Expr, s: Sort, a: Assignment, m: Model)
    requires e.Literal? || e.Symbol? || e.EventField?
    requires WellSorted(codec, types, events, e, s) && EncodesAssignment(codec, types, a, m)
    ensures Agrees(codec, s, Evaluate(e, events, a), Translate(codec, events, e), m)
  {
  }

  lemma {:induction false} UnaryAgrees(codec: Codec, types: Signature, events: Events, op: UnaryOp, operand: Expr,
                                       s: Sort, a: Assignment, m: Model)
    requires WellSorted(codec, types, events, Unary(op, operand), s) && EncodesAssignment(codec, types, a, m)
    ensures Agrees(codec, s, Evaluate(Unary(op, operand), events, a), Translate(codec, events, Unary(op, operand)), m)
    decreases Unary(op, operand), 0
  {
    TranslationAgrees(codec, types, events, operand, s, a, m);
    DenoteOne(Translate(codec, events, operand).value, m);
  }

  lemma {:induction false} IteAgrees(codec: Codec, types: Signature, events: Events, c: Expr, t: Expr, f: Expr, s: Sort,
                                     a: Assignment, m: Model)
    requires WellSorted(codec, types, events, Ite(c, t, f), s) && EncodesAssignment(codec, types, a, m)
    ensures Agrees(codec, s, Evaluate(Ite(c, t, f), events, a), Translate(codec, events, Ite(c, t, f)), m)
    decreases Ite(c, t, f), 0
  {
    TranslationAgrees(codec, types, events, c, BoolSort, a, m);
    TranslationAgrees(codec, types, events, t, s, a, m);
    TranslationAgrees(codec, types, events, f, s, a, m);
    IteDenotes(Translate(codec, events, c).value, Translate(codec, events, t).value, Translate(codec, events, f).value,
               m);
  }

  lemma {:induction false} NaryAgrees(codec: Codec, types: Signature, events: Events, op: NaryOp, operands: seq<Expr>,
                                      a: Assignment, m: Model)
    requires WellSorted(codec, types, events, Nary(op, operands), BoolSort) && EncodesAssignment(codec, types, a, m)
    ensures Agrees(codec, BoolSort, Evaluate(Nary(op, operands), events, a),
                   Translate(codec, events, Nary(op, operands)), m)
    decreases Nary(op, operands), 0
  {
    var t :| AllWellSorted(codec, types, events, operands, t) && (op.Distinct? || t == BoolSort);
    OperandsAgree(codec, types, events, operands, t, a, m);
    var vs, ts := EvaluateAll(operands, events, a), TranslateAll(codec, events, operands).value;
    if op.Distinct? { DistinctAgrees(codec, t, vs, ts, m); } else { ConnectiveAgrees(codec, op, vs, ts, m); }
  }

  lemma {:induction false} CallAgrees(codec: Codec, types: Signature, events: Events, f: string, arguments: seq<Expr>,
                                      sort: Sort, a: Assignment, m: Model)
    requires WellSorted(codec, types, events, Call(f, arguments, sort), BoolSort)
    requires EncodesAssignment(codec, types, a, m)
    ensures Agrees(codec, BoolSort, Evaluate(Call(f, arguments, sort), events, a),
                   Translate(codec, events, Call(f, arguments, sort)), m)
    decreases Call(f, arguments, sort), 0
  {
    var t :| AllWellSorted(codec, types, events, arguments, t);
    OperandsAgree(codec, types, events, arguments, t, a, m);
    var vs, ts := EvaluateAll(arguments, events, a), TranslateAll(codec, events, arguments).value;
    SameAgrees(codec, t, vs, ts, m);
    var ws := KnownValues(vs);
    if f == "same_block" {
      assert ts[..2] == ts && ws[1] in ws;
      assert (forall v | v in ws :: v == ws[0]) <==> ws[0] == ws[1];
    } else if |ws| == 1 {
      assert forall v :: v in ws ==> v == ws[0];
    }
  }

  lemma {:induction false} BinaryAgrees(codec: Codec, types: Signature, events: Events, op: BinaryOp, left: Expr,
                                        right: Expr, s: Sort, a: Assignment, m: Model)
    requires WellSorted(codec, types, events, Binary(op, left, right), s) && EncodesAssignment(codec, types, a, m)
    ensures Agrees(codec, s, Evaluate(Binary(op, left, right), events, a),
                   Translate(codec, events, Binary(op, left, right)), m)
    decreases Binary(op, left, right), 0
  {
    var t: Sort;
    if op in {Eq, Ne} {
      t :| WellSorted(codec, types, events, left, t) && WellSorted(codec, types, events, right, t);
    } else {
      t := if op in {And, Or, Implies, Xor} then BoolSort else IntSort;
    }
    TranslationAgrees(codec, types, events, left, t, a, m);
    TranslationAgrees(codec, types, events, right, t, a, m);
    var v, w := Evaluate(left, events, a), Evaluate(right, events, a);
    var l, r := Translate(codec, events, left).value, Translate(codec, events, right).value;
    if op in {Eq, Ne} {
      EqualityAgrees(codec, op, t, v, w, l, r, m);
    } else if op in {And, Or, Implies, Xor} {
      BooleanBinaryAgrees(codec, op, v, w, l, r, m);
    } else {
      IntegerBinaryAgrees(codec, op, v, w, l, r, m);
    }
  }

  lemma {:induction false} OperandsAgree(codec: Codec, types: Signature, events: Events, es: seq<Expr>, s: Sort,
                                         a: Assignment, m: Model)
    requires AllWellSorted(codec, types, events, es, s) && EncodesAssignment(codec, types, a, m)
    ensures AllAgree(codec, s, EvaluateAll(es, events, a), TranslateAll(codec, events, es), m)
    decreases es
  {
    if es != [] {
      TranslationAgrees(codec, types, events, es[0], s, a, m);
      OperandsAgree(codec, types, events, es[1..], s, a, m);
    }
  }
}
