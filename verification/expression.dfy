/** Typed expressions over events, and the substitution of event identifiers for role names. */
module Expressions {
  import opened Common

  datatype Sort = BoolSort | IntSort | BitVectorSort(width: nat) | NamedSort(name: string)

  /** A concrete value; `Nothing` is the value of an absent cycle. */
  datatype Value = Bool(b: bool) | Int(n: int) | Text(s: string) | Nothing

  datatype UnaryOp = Not | Neg
  datatype BinaryOp = And | Or | Implies | Xor | Eq | Ne | Lt | Le | Gt | Ge | Add | Sub | Mul | Div | Mod
  datatype NaryOp = AllOf | AnyOf | Distinct

  datatype Expr =
    | Literal(value: Value, sort: Sort)
    | Symbol(name: string, sort: Sort)
    | EventField(event: Id, field: string, sort: Sort)
    | Unary(unaryOp: UnaryOp, operand: Expr)
    | Binary(binaryOp: BinaryOp, left: Expr, right: Expr)
    | Nary(naryOp: NaryOp, operands: seq<Expr>)
    | Ite(condition: Expr, thenExpr: Expr, elseExpr: Expr)
    | Call(function_: string, arguments: seq<Expr>, sort: Sort)

  const TRUE := Bool(true)
  const FALSE := Bool(false)

  /** An event attribute is a concrete value or a symbol. */
  datatype Attribute = Concrete(value: Value) | Symbolic(name: string, sort: Sort)

  datatype Event = Event(eventType: string, occurs: Attribute, cycle: Attribute, fields: map<string, Attribute>)

  type Events = map<Id, Event>

  /** The attribute that an event field denotes; a field the event does not have denotes none. */
  function AttributeOf(event: Event, field: string): Option<Attribute> {
    if field == "occurs" then Some(event.occurs)
    else if field == "cycle" then Some(event.cycle)
    else if field in event.fields then Some(event.fields[field])
    else None
  }

  type Binding = map<Id, Id>

  function Rename(m: Binding, id: Id): Id {
    if id in m then m[id] else id
  }

  /** Replaces event and role identifiers. */
  function Substitute(e: Expr, m: Binding): Expr {
    match e
    case Literal(_, _) => e
    case Symbol(_, _) => e
    case EventField(event, field, sort) => EventField(Rename(m, event), field, sort)
    case Unary(op, operand) => Unary(op, Substitute(operand, m))
    case Binary(op, left, right) => Binary(op, Substitute(left, m), Substitute(right, m))
    case Nary(op, operands) => Nary(op, SubstituteAll(operands, m))
    case Ite(condition, thenExpr, elseExpr) =>
      Ite(Substitute(condition, m), Substitute(thenExpr, m), Substitute(elseExpr, m))
    case Call(f, arguments, sort) => Call(f, SubstituteAll(arguments, m), sort)
  }

  function SubstituteAll(es: seq<Expr>, m: Binding): seq<Expr> {
    if es == [] then [] else [Substitute(es[0], m)] + SubstituteAll(es[1..], m)
  }

  /** The events or roles whose fields an expression reads. */
  function Mentions(e: Expr): set<Id> {
    match e
    case Literal(_, _) => {}
    case Symbol(_, _) => {}
    case EventField(event, _, _) => {event}
    case Unary(_, operand) => Mentions(operand)
    case Binary(_, left, right) => Mentions(left) + Mentions(right)
    case Nary(_, operands) => MentionsAll(operands)
    case Ite(condition, thenExpr, elseExpr) => Mentions(condition) + Mentions(thenExpr) + Mentions(elseExpr)
    case Call(_, arguments, _) => MentionsAll(arguments)
  }

  function MentionsAll(es: seq<Expr>): set<Id> {
    if es == [] then {} else Mentions(es[0]) + MentionsAll(es[1..])
  }

  /** `true` for no items, the item itself for one. */
  function Conjunction(items: seq<Expr>): Expr {
    if items == [] then Literal(TRUE, BoolSort)
    else if |items| == 1 then items[0]
    else Nary(AllOf, items)
  }

  function Disjunction(items: seq<Expr>): Expr {
    if items == [] then Literal(FALSE, BoolSort)
    else if |items| == 1 then items[0]
    else Nary(AnyOf, items)
  }
}
