/** The bounded problem that is solved: events, ground constraints and operational state effects. */
module Problems {
  import opened Common
  import opened Expressions

  datatype StateVariable = StateVariable(name: string, sort: Sort, initial: Expr)

  /** When active, the cell must compare to the expected value in the pre-state of its cycle. */
  datatype Requirement = Requirement(state: string, cycle: Expr, activation: Expr, op: BinaryOp, expected: Expr)

  /** When active, the cell takes the value after its cycle. */
  datatype Update = Update(state: string, cycle: Expr, activation: Expr, value: Expr)

  datatype GuardPredicate = GuardPredicate(state: string, cycle: Expr, op: BinaryOp, expected: Expr)

  datatype GuardedForward = GuardedForward(antecedent: Expr, predicates: seq<GuardPredicate>, consequent: Expr)

  datatype SupportCandidate = SupportCandidate(expression: Expr, predicates: seq<GuardPredicate>)

  datatype GuardedSupport = GuardedSupport(antecedent: Expr, supports: seq<SupportCandidate>)

  datatype Problem = Problem(
    events: Events,
    constraints: seq<Expr>,
    horizon: nat,
    variables: seq<StateVariable>,
    requirements: seq<Requirement>,
    updates: seq<Update>,
    forwards: seq<GuardedForward>,
    supports: seq<GuardedSupport>)

  predicate IsComparison(op: BinaryOp) {
    op in {Eq, Ne, Lt, Le, Gt, Ge}
  }

  ghost predicate Declares(p: Problem, state: string) {
    exists v :: v in p.variables && v.name == state
  }

  ghost predicate ValidPredicate(p: Problem, g: GuardPredicate) {
    Declares(p, g.state) && IsComparison(g.op)
  }

  /** Cells are declared once, effects name declared cells, comparisons use comparison operators. */
  ghost predicate ValidProblem(p: Problem) {
    && (forall i, j :: 0 <= i < j < |p.variables| ==> p.variables[i].name != p.variables[j].name)
    && (forall r :: r in p.requirements ==> Declares(p, r.state) && IsComparison(r.op))
    && (forall u :: u in p.updates ==> Declares(p, u.state))
    && (forall f :: f in p.forwards ==> forall g :: g in f.predicates ==> ValidPredicate(p, g))
    && (forall s :: s in p.supports ==> forall c :: c in s.supports ==> forall g :: g in c.predicates ==>
          ValidPredicate(p, g))
  }
}
