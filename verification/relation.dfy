/** Finite binary relations over graph nodes: walks, cycles, closure, and the cycle finder. */
module Relations {
  import opened Common

  type Edge = (Id, Id)

  datatype Relation = Relation(name: string, edges: set<Edge>)

  datatype LabeledEdge = LabeledEdge(source: Id, relation: string, target: Id)

  function Union(relations: seq<Relation>): set<Edge> {
    set r, e | r in relations && e in r.edges :: e
  }

  function Nodes(edges: set<Edge>): set<Id> {
    (set e | e in edges :: e.0) + (set e | e in edges :: e.1)
  }

  function Successors(edges: set<Edge>, node: Id): set<Id> {
    set e | e in edges && e.0 == node :: e.1
  }

  function Predecessors(edges: set<Edge>, node: Id): set<Id> {
    set e | e in edges && e.1 == node :: e.0
  }

  // ----- Walks and cycles

  ghost predicate IsWalk(edges: set<Edge>, w: seq<Id>) {
    |w| > 0 && forall i :: 0 <= i < |w| - 1 ==> (w[i], w[i + 1]) in edges
  }

  /** There is a walk of at least one edge from `a` to `b`. */
  ghost predicate Reaches(edges: set<Edge>, a: Id, b: Id) {
    exists w :: |w| >= 2 && IsWalk(edges, w) && w[0] == a && w[|w| - 1] == b
  }

  ghost predicate Acyclic(edges: set<Edge>) {
    forall n :: !Reaches(edges, n, n)
  }

  /** Reachability is contained in every transitive relation that contains the edges. */
  lemma {:induction false} WalkIsOrdered(edges: set<Edge>, lt: (Id, Id) -> bool, w: seq<Id>)
    requires forall a, b :: (a, b) in edges ==> lt(a, b)
    requires forall a, b, c :: lt(a, b) && lt(b, c) ==> lt(a, c)
    requires |w| >= 2 && IsWalk(edges, w)
    ensures lt(w[0], w[|w| - 1])
  {
    assert (w[0], w[1]) in edges;
    if |w| > 2 {
      WalkIsOrdered(edges, lt, w[1..]);
      assert lt(w[0], w[1]) && lt(w[1], w[|w| - 1]);
    }
  }

  /** Edges inside a strict order form no cycle. */
  lemma StrictOrderIsAcyclic(edges: set<Edge>, lt: (Id, Id) -> bool)
    requires forall a, b :: (a, b) in edges ==> lt(a, b)
    requires forall a, b, c :: lt(a, b) && lt(b, c) ==> lt(a, c)
    requires forall a :: !lt(a, a)
    ensures Acyclic(edges)
  {
    forall n ensures !Reaches(edges, n, n) {
      if Reaches(edges, n, n) {
        var w :| |w| >= 2 && IsWalk(edges, w) && w[0] == n && w[|w| - 1] == n;
        WalkIsOrdered(edges, lt, w);
      }
    }
  }

  /** `rank` grows along every edge. */
  ghost predicate Extends(rank: map<Id, int>, edges: set<Edge>) {
    forall e :: e in edges ==> e.0 in rank && e.1 in rank && rank[e.0] < rank[e.1]
  }

  lemma RankedIsAcyclic(edges: set<Edge>, rank: map<Id, int>)
    requires Extends(rank, edges)
    ensures Acyclic(edges)
  {
    StrictOrderIsAcyclic(edges, (a, b) => a in rank && b in rank && rank[a] < rank[b]);
  }

  lemma ReachesStep(edges: set<Edge>, a: Id, b: Id, c: Id)
    requires (a, b) in edges
    requires b == c || Reaches(edges, b, c)
    ensures Reaches(edges, a, c)
  {
    if b == c {
      var w := [a, b];
      assert |w| >= 2 && IsWalk(edges, w) && w[0] == a && w[|w| - 1] == c;
    } else {
      var v :| |v| >= 2 && IsWalk(edges, v) && v[0] == b && v[|v| - 1] == c;
      var w := [a] + v;
      assert |w| >= 2 && IsWalk(edges, w) && w[0] == a && w[|w| - 1] == c;
    }
  }

  lemma ReachesExtend(edges: set<Edge>, a: Id, b: Id, c: Id)
    requires (b, c) in edges
    requires a == b || Reaches(edges, a, b)
    ensures Reaches(edges, a, c)
  {
    if a == b {
      var w := [a, c];
      assert |w| >= 2 && IsWalk(edges, w) && w[0] == a && w[|w| - 1] == c;
    } else {
      var v :| |v| >= 2 && IsWalk(edges, v) && v[0] == a && v[|v| - 1] == b;
      var w := v + [c];
      assert |w| >= 2 && IsWalk(edges, w) && w[0] == a && w[|w| - 1] == c;
    }
  }

  /** Reaching over a union can be cut at the first edge. */
  lemma ReachesFirst(edges: set<Edge>, a: Id, c: Id)
    requires Reaches(edges, a, c)
    ensures exists b :: (a, b) in edges && (b == c || Reaches(edges, b, c))
  {
    var w :| |w| >= 2 && IsWalk(edges, w) && w[0] == a && w[|w| - 1] == c;
    assert (w[0], w[1]) in edges;
    if |w| > 2 {
      var v := w[1..];
      assert |v| >= 2 && IsWalk(edges, v) && v[0] == w[1] && v[|v| - 1] == c;
    }
  }

  /** In an acyclic relation every nonempty finite set has a member without predecessor in the set. */
  lemma MinimalElement(edges: set<Edge>, rest: set<Id>) returns (m: Id)
    requires Acyclic(edges) && rest != {}
    ensures m in rest && Predecessors(edges, m) !! rest
  {
    m :| m in rest;
    ghost var unseen := rest - {m};
    while !(Predecessors(edges, m) !! rest)
      invariant m in rest && unseen < rest && m !in unseen
      invariant forall n :: n in rest - unseen ==> n == m || Reaches(edges, m, n)
      decreases unseen
    {
      var p :| p in Predecessors(edges, m) && p in rest;
      assert (p, m) in edges;
      if p !in unseen { ReachesExtend(edges, m, p, m); }
      forall n | n in rest - unseen ensures Reaches(edges, p, n) {
        ReachesStep(edges, p, m, n);
      }
      unseen := unseen - {p};
      m := p;
    }
  }

  // ----- Composition and closure

  /** `left ; right`, computed with an index of `right` by its source. */
  method Compose(left: set<Edge>, right: set<Edge>) returns (edges: set<Edge>)
    ensures forall a, c :: (a, c) in edges <==> exists b :: (a, b) in left && (b, c) in right
  {
    var bySource := Adjacency(right);
    edges := {};
    var todo := left;
    while todo != {}
      invariant todo <= left
      invariant forall a, c :: (a, c) in edges <==> exists b :: (a, b) in left - todo && (b, c) in right
      decreases todo
    {
      var e :| e in todo;
      todo := todo - {e};
      ghost var was := edges;
      if e.1 in bySource {
        edges := edges + set c | c in bySource[e.1] :: (e.0, c);
      }
      forall a, c
        ensures (a, c) in edges <==> exists b :: (a, b) in left - todo && (b, c) in right
      {
        assert (a, c) in edges <==> (a, c) in was || (a == e.0 && (e.1, c) in right);
        if (a, c) in edges && (a, c) !in was {
          assert (a, e.1) in left - todo && (e.1, c) in right;
        }
      }
    }
  }

  method Adjacency(edges: set<Edge>) returns (adjacency: map<Id, set<Id>>)
    ensures adjacency.Keys == set e | e in edges :: e.0
    ensures forall n :: n in adjacency ==> adjacency[n] == Successors(edges, n)
  {
    adjacency := map[];
    var todo := edges;
    while todo != {}
      invariant todo <= edges
      invariant adjacency.Keys == set e | e in edges - todo :: e.0
      invariant forall n :: n in adjacency ==> adjacency[n] == Successors(edges - todo, n)
      decreases todo
    {
      var e :| e in todo;
      ghost var done := edges - todo;
      todo := todo - {e};
      assert edges - todo == done + {e};
      assert forall n :: n != e.0 ==> Successors(done + {e}, n) == Successors(done, n);
      assert Successors(done + {e}, e.0) == Successors(done, e.0) + {e.1};
      if e.0 !in adjacency { assert Successors(done, e.0) == {}; }
      adjacency := adjacency[e.0 := (if e.0 in adjacency then adjacency[e.0] else {}) + {e.1}];
    }
    assert edges - todo == edges;
  }

  /** A set that holds every successor of `source` and of its own members holds all that `source` reaches. */
  lemma {:induction false} ClosedUnderWalks(edges: set<Edge>, source: Id, seen: set<Id>, w: seq<Id>)
    requires Successors(edges, source) <= seen
    requires forall n :: n in seen ==> Successors(edges, n) <= seen
    requires |w| >= 2 && IsWalk(edges, w) && w[0] == source
    ensures w[|w| - 1] in seen
    decreases |w|
  {
    assert (w[0], w[1]) in edges;
    assert w[1] in seen;
    if |w| > 2 {
      ClosedUnderWalks(edges, w[1], seen, w[1..]);
    }
  }

  /** Everything reachable from `source`, by depth-first search. */
  method ReachableFrom(edges: set<Edge>, adjacency: map<Id, set<Id>>, source: Id) returns (seen: set<Id>)
    requires adjacency.Keys == set e | e in edges :: e.0
    requires forall n :: n in adjacency ==> adjacency[n] == Successors(edges, n)
    ensures forall n :: n in seen <==> Reaches(edges, source, n)
  {
    var stack: seq<Id> := [];
    if source in adjacency { stack := Sorted(adjacency[source]); }
    seen := {};
    forall n | n in stack ensures Reaches(edges, source, n) && n in Nodes(edges) {
      assert n in Elements(stack);
      assert (source, n) in edges;
      ReachesStep(edges, source, n, n);
    }
    assert forall n :: n in Successors(edges, source) ==> n in seen || n in stack by {
      forall n | n in Successors(edges, source) ensures n in stack { assert n in Elements(stack); }
    }
    while stack != []
      invariant forall n :: n in stack || n in seen ==> Reaches(edges, source, n) && n in Nodes(edges)
      invariant forall n :: n in Successors(edges, source) ==> n in seen || n in stack
      invariant forall m, n :: m in seen && n in Successors(edges, m) ==> n in seen || n in stack
      decreases Nodes(edges) - seen, |stack|
    {
      var target := stack[|stack| - 1];
      ghost var was := stack;
      stack := stack[..|stack| - 1];
      assert forall n :: n in was <==> n in stack || n == target;
      if target !in seen {
        seen := seen + {target};
        if target in adjacency {
          var more := Sorted(adjacency[target]);
          forall n | n in more ensures Reaches(edges, source, n) && n in Nodes(edges) {
            assert n in Elements(more);
            assert (target, n) in edges;
            ReachesExtend(edges, source, target, n);
          }
          assert forall n :: n in Successors(edges, target) ==> n in Elements(more);
          stack := stack + more;
        }
      }
    }
    forall n | Reaches(edges, source, n) ensures n in seen {
      var w :| |w| >= 2 && IsWalk(edges, w) && w[0] == source && w[|w| - 1] == n;
      ClosedUnderWalks(edges, source, seen, w);
    }
  }

  /** `edges+`, over the nodes of the relation and any extra ones. */
  method TransitiveClosure(edges: set<Edge>, nodes: set<Id>) returns (closure: set<Edge>)
    ensures forall a, b :: (a, b) in closure <==> Reaches(edges, a, b)
  {
    var adjacency := Adjacency(edges);
    var sources := Sorted(nodes + Nodes(edges));
    closure := {};
    for i := 0 to |sources|
      invariant forall a, b :: (a, b) in closure <==> a in sources[..i] && Reaches(edges, a, b)
    {
      var seen := ReachableFrom(edges, adjacency, sources[i]);
      closure := closure + set b | b in seen :: (sources[i], b);
    }
    forall a, b | Reaches(edges, a, b) ensures a in sources[..|sources|] {
      ReachesFirst(edges, a, b);
      assert a in Nodes(edges);
      assert a in Elements(sources);
    }
  }

  // ----- The cycle finder

  /** `name` belongs to the first relation that holds the edge. */
  ghost predicate FirstNamed(relations: seq<Relation>, e: Edge, name: string) {
    exists k :: 0 <= k < |relations| && e in relations[k].edges && relations[k].name == name
                && forall j :: 0 <= j < k ==> e !in relations[j].edges
  }

  /** A closed walk over distinct nodes whose edges carry the first relation that holds them. */
  ghost predicate IsLabeledCycle(relations: seq<Relation>, c: seq<LabeledEdge>) {
    && |c| > 0
    && c[|c| - 1].target == c[0].source
    && (forall i :: 0 <= i < |c| - 1 ==> c[i].target == c[i + 1].source)
    && (forall i, j :: 0 <= i < j < |c| ==> c[i].source != c[j].source)
    && (forall i :: 0 <= i < |c| ==>
          (c[i].source, c[i].target) in Union(relations)
          && FirstNamed(relations, (c[i].source, c[i].target), c[i].relation))
  }

  lemma LabeledCycleIsCyclic(relations: seq<Relation>, c: seq<LabeledEdge>)
    requires IsLabeledCycle(relations, c)
    ensures !Acyclic(Union(relations))
  {
    var w := seq(|c| + 1, i requires 0 <= i <= |c| => if i < |c| then c[i].source else c[0].source);
    forall i | 0 <= i < |w| - 1 ensures (w[i], w[i + 1]) in Union(relations) {
      assert w[i + 1] == c[i].target;
    }
    assert |w| >= 2 && IsWalk(Union(relations), w) && w[0] == c[0].source && w[|w| - 1] == c[0].source;
    assert Reaches(Union(relations), c[0].source, c[0].source);
  }

  method FirstLabels(relations: seq<Relation>) returns (labels: map<Edge, string>)
    ensures labels.Keys == Union(relations)
    ensures forall e :: e in labels ==> FirstNamed(relations, e, labels[e])
  {
    labels := map[];
    for i := 0 to |relations|
      invariant forall e :: e in labels <==> exists k :: 0 <= k < i && e in relations[k].edges
      invariant forall e :: e in labels ==> FirstNamed(relations, e, labels[e])
    {
      ghost var was := labels;
      labels := (map e | e in relations[i].edges :: relations[i].name) + labels;
    }
    assert forall e :: e in labels <==> e in Union(relations);
  }

  // ----- Invariants of the depth-first search, on values

  /** Colours 0 (new), 1 (on the stack) and 2 (finished) describe the two lists. */
  ghost predicate ColorsMatch(nodes: set<Id>, color: map<Id, int>, stack: seq<Id>, finished: seq<Id>) {
    && color.Keys == nodes
    && (forall n :: n in nodes ==> 0 <= color[n] <= 2)
    && (forall n :: n in stack <==> n in nodes && color[n] == 1)
    && (forall n :: n in finished <==> n in nodes && color[n] == 2)
  }

  ghost predicate PositionsMatch(stack: seq<Id>, position: map<Id, int>) {
    forall i :: 0 <= i < |stack| ==> stack[i] in position && position[stack[i]] == i
  }

  ghost predicate IsPath(edges: set<Edge>, stack: seq<Id>) {
    forall i :: 0 <= i < |stack| - 1 ==> (stack[i], stack[i + 1]) in edges
  }

  /** Every successor of a finished node was finished before it. */
  ghost predicate FinishOrder(edges: set<Edge>, finished: seq<Id>) {
    forall i :: 0 <= i < |finished| ==> Successors(edges, finished[i]) <= Elements(finished[..i])
  }

  lemma EnterMatches(nodes: set<Id>, color: map<Id, int>, stack: seq<Id>, finished: seq<Id>, node: Id)
    requires ColorsMatch(nodes, color, stack, finished) && node in nodes && color[node] == 0
    ensures ColorsMatch(nodes, color[node := 1], stack + [node], finished)
  {
    forall n ensures n in stack + [node] <==> n in nodes && color[node := 1][n] == 1 {
      assert n in stack + [node] <==> n in stack || n == node;
    }
  }

  lemma LeaveMatches(nodes: set<Id>, color: map<Id, int>, stack: seq<Id>, finished: seq<Id>, node: Id)
    requires ColorsMatch(nodes, color, stack + [node], finished) && node !in stack
    ensures ColorsMatch(nodes, color[node := 2], stack, finished + [node])
  {
    assert node in stack + [node];
    forall n ensures n in stack <==> n in nodes && color[node := 2][n] == 1 {
      assert n in stack + [node] <==> n in stack || n == node;
    }
    forall n ensures n in finished + [node] <==> n in nodes && color[node := 2][n] == 2 {
      assert n in finished + [node] <==> n in finished || n == node;
    }
  }

  lemma FinishKeepsOrder(edges: set<Edge>, finished: seq<Id>, node: Id)
    requires FinishOrder(edges, finished) && Successors(edges, node) <= Elements(finished)
    ensures FinishOrder(edges, finished + [node])
  {
    var longer := finished + [node];
    forall i | 0 <= i < |longer| ensures Successors(edges, longer[i]) <= Elements(longer[..i]) {
      assert longer[..i] == if i < |finished| then finished[..i] else finished;
    }
  }

  /** The mutable state of one depth-first search. */
  class CycleSearch {
    const relations: seq<Relation>
    const nodes: set<Id>
    const adjacency: map<Id, set<Id>>
    const labels: map<Edge, string>
    var color: map<Id, int>
    var stack: seq<Id>
    var position: map<Id, int>
    ghost const edges: set<Edge>
    ghost var finished: seq<Id>

    ghost predicate Indexed() {
      && edges == Union(relations)
      && nodes == Nodes(edges)
      && labels.Keys == edges
      && (forall e :: e in labels ==> FirstNamed(relations, e, labels[e]))
      && adjacency.Keys == (set e | e in edges :: e.0)
      && (forall n :: n in adjacency ==> adjacency[n] == Successors(edges, n))
    }

    ghost predicate Valid()
      reads this
    {
      && Indexed()
      && ColorsMatch(nodes, color, stack, finished)
      && PositionsMatch(stack, position)
      && IsPath(edges, stack)
      && FinishOrder(edges, finished)
    }

    ghost function Unvisited(): set<Id>
      reads this
    {
      set n | n in color && color[n] == 0
    }

    constructor (relations: seq<Relation>)
      ensures Valid() && this.relations == relations && stack == []
    {
      var labels := FirstLabels(relations);
      var adjacency := Adjacency(labels.Keys);
      this.relations := relations;
      this.labels := labels;
      this.edges := Union(relations);
      this.adjacency := adjacency;
      this.nodes := Nodes(labels.Keys);
      this.color := map n | n in Nodes(labels.Keys) :: 0;
      this.stack := [];
      this.position := map[];
      this.finished := [];
    }

    /** Colours a new node 1 and pushes it. */
    method Enter(node: Id)
      requires Valid() && node in nodes && color[node] == 0
      requires stack != [] ==> (stack[|stack| - 1], node) in edges
      modifies this
      ensures Valid() && stack == old(stack) + [node] && finished == old(finished)
      ensures color == old(color)[node := 1]
      ensures node in old(Unvisited()) && Unvisited() == old(Unvisited()) - {node}
    {
      EnterMatches(nodes, color, stack, finished, node);
      assert node !in stack;
      EnterExtends(edges, stack, position, node);
      color := color[node := 1];
      position := position[node := |stack|];
      stack := stack + [node];
    }

    /** Pops the top of the stack, all of whose successors are finished, and colours it 2. */
    method Leave(node: Id, ghost below: seq<Id>)
      requires Valid() && stack == below + [node]
      requires Successors(edges, node) <= Elements(finished)
      modifies this
      ensures Valid() && stack == below
      ensures color == old(color)[node := 2] && finished == old(finished) + [node]
      ensures Unvisited() == old(Unvisited()) && Elements(old(finished)) <= Elements(finished)
    {
      FinishKeepsOrder(edges, finished, node);
      LeaveShrinks(edges, below, position, node);
      LeaveMatches(nodes, color, below, finished, node);
      stack := stack[..|stack| - 1];
      assert stack == below;
      position := position - {node};
      color := color[node := 2];
      finished := finished + [node];
    }

    method SortedSuccessors(node: Id) returns (targets: seq<Id>)
      requires Indexed()
      ensures Enumerates(targets, Successors(edges, node)) && Ascending(targets)
    {
      targets := [];
      if node in adjacency { targets := Sorted(adjacency[node]); }
      assert Elements(targets) == Successors(edges, node);
    }

    method Dfs(node: Id) returns (found: Option<seq<LabeledEdge>>)
      requires Valid() && node in nodes && color[node] == 0
      requires stack != [] ==> (stack[|stack| - 1], node) in edges
      modifies this
      ensures found.Some? ==> IsLabeledCycle(relations, found.value)
      ensures found.None? ==> Valid() && stack == old(stack) && node in finished
      ensures found.None? ==> Unvisited() <= old(Unvisited()) && Elements(old(finished)) <= Elements(finished)
      decreases Unvisited(), 0
    {
      ghost var below := stack;
      Enter(node);
      found := FollowAll(node);
      if found.None? { Leave(node, below); }
    }

    /** Follows the successors of the top of the stack in order. */
    method FollowAll(node: Id) returns (found: Option<seq<LabeledEdge>>)
      requires Valid() && stack != [] && stack[|stack| - 1] == node
      modifies this
      ensures found.Some? ==> IsLabeledCycle(relations, found.value)
      ensures found.None? ==> Valid() && stack == old(stack) && Successors(edges, node) <= Elements(finished)
      ensures found.None? ==> Unvisited() <= old(Unvisited()) && Elements(old(finished)) <= Elements(finished)
      decreases Unvisited(), 2
    {
      var targets := SortedSuccessors(node);
      for i := 0 to |targets|
        invariant Valid() && stack == old(stack)
        invariant Unvisited() <= old(Unvisited()) && Elements(old(finished)) <= Elements(finished)
        invariant Elements(targets[..i]) <= Elements(finished)
      {
        PrefixElements(targets, i);
        found := Follow(node, targets[i]);
        if found.Some? { return; }
      }
      WholePrefix(targets);
      found := None;
    }

    /** One turn of the loop over the successors of `node`. */
    method Follow(node: Id, target: Id) returns (found: Option<seq<LabeledEdge>>)
      requires Valid() && stack != [] && stack[|stack| - 1] == node
      requires (node, target) in edges
      modifies this
      ensures found.Some? ==> IsLabeledCycle(relations, found.value)
      ensures found.None? ==> Valid() && stack == old(stack) && target in finished
      ensures found.None? ==> Unvisited() <= old(Unvisited()) && Elements(old(finished)) <= Elements(finished)
      decreases Unvisited(), 1
    {
      found := None;
      if color[target] == 0 {
        found := Dfs(target);
      } else if color[target] == 1 {
        found := Some(CycleOnStack(target));
      }
    }

    /** Searches from a node that was not reached before. */
    method From(node: Id) returns (found: Option<seq<LabeledEdge>>)
      requires Valid() && stack == [] && node in nodes
      modifies this
      ensures found.Some? ==> IsLabeledCycle(relations, found.value)
      ensures found.None? ==> Valid() && stack == [] && Elements(old(finished)) + {node} <= Elements(finished)
    {
      found := None;
      if color[node] == 0 { found := Dfs(node); }
    }

    /** With every node finished there is no cycle. */
    lemma Finished()
      requires Valid() && nodes <= Elements(finished)
      ensures Acyclic(Union(relations))
    {
      FinishOrderIsAcyclic(edges, finished);
    }

    /** `stack[start:] + [target]` as labelled edges. */
    function CycleOnStack(target: Id): (c: seq<LabeledEdge>)
      requires Valid() && target in nodes && color[target] == 1
      requires (stack[|stack| - 1], target) in edges
      reads this
      ensures IsLabeledCycle(relations, c)
    {
      StackIsCycle(relations, edges, labels, stack, position, target);
      LabelledWalk(labels, stack[position[target]..] + [target])
    }
  }

  /** The edges of a walk with their labels. */
  function LabelledWalk(labels: map<Edge, string>, walk: seq<Id>): (c: seq<LabeledEdge>)
    requires walk != [] && forall i :: 0 <= i < |walk| - 1 ==> (walk[i], walk[i + 1]) in labels
    ensures |c| == |walk| - 1
    ensures forall i :: 0 <= i < |c| ==> c[i] == LabeledEdge(walk[i], labels[(walk[i], walk[i + 1])], walk[i + 1])
  {
    seq(|walk| - 1, i requires 0 <= i < |walk| - 1 => LabeledEdge(walk[i], labels[(walk[i], walk[i + 1])], walk[i + 1]))
  }

  /** A closed walk without repeated nodes is a labelled cycle. */
  lemma ClosedWalkIsCycle(relations: seq<Relation>, labels: map<Edge, string>, walk: seq<Id>)
    requires labels.Keys == Union(relations) && forall e :: e in labels ==> FirstNamed(relations, e, labels[e])
    requires |walk| >= 2 && walk[|walk| - 1] == walk[0]
    requires forall i :: 0 <= i < |walk| - 1 ==> (walk[i], walk[i + 1]) in labels
    requires forall i, j :: 0 <= i < j < |walk| - 1 ==> walk[i] != walk[j]
    ensures IsLabeledCycle(relations, LabelledWalk(labels, walk))
  {
  }

  /** The part of the stack from an earlier node, closed by an edge back to it, is a labelled cycle. */
  lemma StackIsCycle(relations: seq<Relation>, edges: set<Edge>, labels: map<Edge, string>, stack: seq<Id>,
                     position: map<Id, int>, target: Id)
    requires edges == Union(relations) && labels.Keys == edges
    requires forall e :: e in labels ==> FirstNamed(relations, e, labels[e])
    requires PositionsMatch(stack, position) && IsPath(edges, stack) && target in stack
    requires (stack[|stack| - 1], target) in edges
    ensures target in position && 0 <= position[target] < |stack|
    ensures var walk := stack[position[target]..] + [target];
            && (forall i :: 0 <= i < |walk| - 1 ==> (walk[i], walk[i + 1]) in labels)
            && IsLabeledCycle(relations, LabelledWalk(labels, walk))
  {
    var start :| 0 <= start < |stack| && stack[start] == target;
    var walk := stack[start..] + [target];
    forall i | 0 <= i < |walk| - 1 ensures walk[i] == stack[start + i] && (walk[i], walk[i + 1]) in labels {
      if i + 1 < |walk| - 1 { assert walk[i + 1] == stack[start + i + 1]; }
    }
    forall i, j | 0 <= i < j < |walk| - 1 ensures walk[i] != walk[j] {
      assert position[stack[start + i]] == start + i && position[stack[start + j]] == start + j;
    }
    ClosedWalkIsCycle(relations, labels, walk);
  }

  lemma EnterExtends(edges: set<Edge>, stack: seq<Id>, position: map<Id, int>, node: Id)
    requires PositionsMatch(stack, position) && IsPath(edges, stack) && node !in stack
    requires stack != [] ==> (stack[|stack| - 1], node) in edges
    ensures PositionsMatch(stack + [node], position[node := |stack|]) && IsPath(edges, stack + [node])
  {
  }

  lemma LeaveShrinks(edges: set<Edge>, below: seq<Id>, position: map<Id, int>, node: Id)
    requires PositionsMatch(below + [node], position) && IsPath(edges, below + [node])
    ensures node !in below && PositionsMatch(below, position - {node}) && IsPath(edges, below)
  {
    var stack := below + [node];
    assert stack[|below|] == node;
    forall i | 0 <= i < |below| ensures below[i] == stack[i] && below[i] != node { assert position[stack[i]] == i; }
  }

  /** One cycle of the union of the relations, or none. */
  method FindLabeledCycle(relations: seq<Relation>) returns (found: Option<seq<LabeledEdge>>)
    ensures found.Some? ==> IsLabeledCycle(relations, found.value)
    ensures found.None? <==> Acyclic(Union(relations))
  {
    var search := new CycleSearch(relations);
    var order := Sorted(search.nodes);
    for i := 0 to |order|
      invariant search.Valid() && search.stack == [] && search.relations == relations
      invariant Elements(order[..i]) <= Elements(search.finished)
    {
      PrefixElements(order, i);
      found := search.From(order[i]);
      if found.Some? {
        LabeledCycleIsCyclic(relations, found.value);
        return;
      }
    }
    WholePrefix(order);
    search.Finished();
    found := None;
  }

  /** When every successor of a node was finished before it, there is no cycle. */
  lemma FinishOrderIsAcyclic(edges: set<Edge>, finished: seq<Id>)
    requires Nodes(edges) <= Elements(finished)
    requires forall i :: 0 <= i < |finished| ==> Successors(edges, finished[i]) <= Elements(finished[..i])
    ensures Acyclic(edges)
  {
    var rank := map n | n in finished :: 0 - IndexOf(finished, n) as int;
    forall e | e in edges ensures e.0 in rank && e.1 in rank && rank[e.0] < rank[e.1] {
      assert e.0 in Nodes(edges) && e.1 in Nodes(edges);
      var i := IndexOf(finished, e.0);
      assert e.1 in Successors(edges, finished[i]);
      var j := IndexOf(finished, e.1);
      assert finished[..j][..] == finished[..j];
      assert e.1 in finished[..i];
    }
    RankedIsAcyclic(edges, rank);
  }
}
