/** Kahn's algorithm with a sorted ready list: the witness global memory order. */
module Topological {
  import opened Common
  import opened Relations

  /** Every predecessor of a listed node is listed before it. */
  ghost predicate PredecessorsFirst(edges: set<Edge>, order: seq<Id>) {
    forall i :: 0 <= i < |order| ==> Predecessors(edges, order[i]) <= Elements(order[..i])
  }

  ghost function Pending(edges: set<Edge>, listed: set<Id>, n: Id): set<Id> {
    Predecessors(edges, n) - listed
  }

  /** The unlisted nodes whose predecessors are all listed. */
  ghost function ReadyNodes(edges: set<Edge>, nodes: set<Id>, listed: set<Id>): set<Id> {
    set n | n in nodes && n !in listed && Pending(edges, listed, n) == {}
  }

  ghost predicate LeastOf(m: Id, s: set<Id>) {
    m in s && forall n :: n in s ==> Le(m, n)
  }

  /** At each step the listed node is the least of those that were ready. */
  ghost predicate LeastReady(edges: set<Edge>, nodes: set<Id>, order: seq<Id>) {
    forall i :: 0 <= i < |order| ==> LeastOf(order[i], ReadyNodes(edges, nodes, Elements(order[..i])))
  }

  /** The order as a ranking of the nodes. */
  function Ranks(order: seq<Id>): map<Id, int> {
    map n | n in order :: IndexOf(order, n)
  }

  lemma RanksExtend(edges: set<Edge>, order: seq<Id>)
    requires NoDup(order) && PredecessorsFirst(edges, order) && Nodes(edges) <= Elements(order)
    ensures Extends(Ranks(order), edges)
  {
    var rank := Ranks(order);
    forall e | e in edges ensures e.0 in rank && e.1 in rank && rank[e.0] < rank[e.1] {
      assert e.0 in Nodes(edges) && e.1 in Nodes(edges);
      var i := rank[e.1];
      assert e.0 in Predecessors(edges, order[i]);
      assert e.0 in order[..i];
      IndexBelow(order, i, e.0);
    }
  }

  lemma IndexBelow(order: seq<Id>, i: nat, x: Id)
    requires i <= |order| && x in order[..i]
    ensures IndexOf(order, x) < i
  {
    var k :| 0 <= k < i && order[k] == x;
    forall j | 0 <= j < IndexOf(order, x) ensures order[j] != x {
      assert order[j] == order[..IndexOf(order, x)][j];
    }
  }

  /** The witness is the lexicographically least linear extension. */
  lemma WitnessIsLeast(edges: set<Edge>, nodes: set<Id>, order: seq<Id>, other: seq<Id>)
    requires Enumerates(order, nodes) && LeastReady(edges, nodes, order)
    requires Enumerates(other, nodes) && PredecessorsFirst(edges, other)
    requires order != other
    ensures exists i :: 0 <= i < |order| && i < |other| && order[..i] == other[..i]
                        && order[i] != other[i] && Le(order[i], other[i])
  {
    EnumerationLength(order, nodes);
    EnumerationLength(other, nodes);
    var i := FirstDifference(order, other);
    assert other[i] in Elements(other) && Elements(other[..i]) == Elements(order[..i]);
    forall k | 0 <= k < i ensures other[k] != other[i] {
    }
    assert other[i] !in Elements(other[..i]);
    assert other[i] in ReadyNodes(edges, nodes, Elements(order[..i]));
  }

  lemma FirstDifference(a: seq<Id>, b: seq<Id>) returns (i: nat)
    requires |a| == |b| && a != b
    ensures i < |a| && a[..i] == b[..i] && a[i] != b[i]
  {
    i := 0;
    while i < |a| && a[i] == b[i]
      invariant 0 <= i <= |a| && a[..i] == b[..i]
    {
      i := i + 1;
    }
    if i == |a| {
      WholePrefix(a);
      WholePrefix(b);
    }
  }

  /** Successor sets and indegrees of the union, counting an edge of several relations once. */
  method Indegrees(nodes: set<Id>, relations: seq<Relation>)
    returns (successors: map<Id, set<Id>>, indegree: map<Id, int>)
    requires Nodes(Union(relations)) <= nodes
    ensures Tallied(nodes, Union(relations), successors, indegree)
  {
    successors := map n | n in nodes :: {};
    indegree := map n | n in nodes :: 0;
    NothingTallied(nodes, successors, indegree);
    assert Union(relations[..0]) == {};
    for i := 0 to |relations|
      invariant Tallied(nodes, Union(relations[..i]), successors, indegree)
    {
      UnionStep(relations, i);
      assert relations[i].edges <= Union(relations);
      successors, indegree := TallyRelation(nodes, Union(relations[..i]), relations[i].edges, successors, indegree);
    }
    assert relations[..|relations|] == relations;
  }

  lemma NothingTallied(nodes: set<Id>, successors: map<Id, set<Id>>, indegree: map<Id, int>)
    requires successors == (map n | n in nodes :: {}) && indegree == map n | n in nodes :: 0
    ensures Tallied(nodes, {}, successors, indegree)
  {
    forall n | n in nodes ensures Successors({}, n) == {} && Predecessors({}, n) == {} {
    }
  }

  /** One turn of the loop over the relations. */
  method TallyRelation(nodes: set<Id>, ghost before: set<Edge>, edges: set<Edge>, successors0: map<Id, set<Id>>,
                       indegree0: map<Id, int>)
    returns (successors: map<Id, set<Id>>, indegree: map<Id, int>)
    requires Tallied(nodes, before, successors0, indegree0) && Nodes(edges) <= nodes
    ensures Tallied(nodes, before + edges, successors, indegree)
  {
    successors, indegree := successors0, indegree0;
    var todo := edges;
    ghost var done := before;
    while todo != {}
      invariant todo <= edges && done + todo == before + edges
      invariant Tallied(nodes, done, successors, indegree)
      decreases todo
    {
      var e :| e in todo;
      todo := todo - {e};
      assert e.0 in Nodes(edges) && e.1 in Nodes(edges);
      TallyStep(nodes, done, successors, indegree, e);
      if e.1 !in successors[e.0] {
        successors := successors[e.0 := successors[e.0] + {e.1}];
        indegree := indegree[e.1 := indegree[e.1] + 1];
      }
      done := done + {e};
    }
    assert done == before + edges;
  }

  ghost predicate Tallied(nodes: set<Id>, edges: set<Edge>, successors: map<Id, set<Id>>, indegree: map<Id, int>) {
    && successors.Keys == nodes && indegree.Keys == nodes
    && (forall n :: n in nodes ==> successors[n] == Successors(edges, n))
    && (forall n :: n in nodes ==> indegree[n] == |Predecessors(edges, n)|)
  }

  lemma UnionStep(relations: seq<Relation>, i: nat)
    requires i < |relations|
    ensures Union(relations[..i + 1]) == Union(relations[..i]) + relations[i].edges
  {
    var longer := relations[..i + 1];
    assert longer == relations[..i] + [relations[i]];
    forall e ensures e in Union(longer) <==> e in Union(relations[..i]) || e in relations[i].edges {
      if e in relations[i].edges { assert relations[i] in longer; }
      if e in Union(relations[..i]) {
        var r :| r in relations[..i] && e in r.edges;
        assert r in longer;
      }
    }
  }

  lemma NewEdge(edges: set<Edge>, e: Edge, n: Id)
    requires e !in edges
    ensures Successors(edges + {e}, n) == if n == e.0 then Successors(edges, n) + {e.1} else Successors(edges, n)
    ensures Predecessors(edges + {e}, n) == if n == e.1 then Predecessors(edges, n) + {e.0} else Predecessors(edges, n)
    ensures n == e.1 ==> e.0 !in Predecessors(edges, n)
  {
  }

  lemma TallySuccessors(nodes: set<Id>, edges: set<Edge>, successors: map<Id, set<Id>>, e: Edge)
    requires successors.Keys == nodes && e.0 in nodes && e !in edges
    requires forall n :: n in nodes ==> successors[n] == Successors(edges, n)
    ensures var after := successors[e.0 := successors[e.0] + {e.1}];
            after.Keys == nodes && forall n :: n in nodes ==> after[n] == Successors(edges + {e}, n)
  {
    forall n { NewEdge(edges, e, n); }
  }

  lemma TallyIndegrees(nodes: set<Id>, edges: set<Edge>, indegree: map<Id, int>, e: Edge)
    requires indegree.Keys == nodes && e.1 in nodes && e !in edges
    requires forall n :: n in nodes ==> indegree[n] == |Predecessors(edges, n)|
    ensures var after := indegree[e.1 := indegree[e.1] + 1];
            after.Keys == nodes && forall n :: n in nodes ==> after[n] == |Predecessors(edges + {e}, n)|
  {
    forall n { NewEdge(edges, e, n); }
  }

  lemma TallyNew(nodes: set<Id>, edges: set<Edge>, successors: map<Id, set<Id>>, indegree: map<Id, int>, e: Edge)
    requires Tallied(nodes, edges, successors, indegree) && e.0 in nodes && e.1 in nodes && e !in edges
    ensures Tallied(nodes, edges + {e}, successors[e.0 := successors[e.0] + {e.1}],
                    indegree[e.1 := indegree[e.1] + 1])
  {
    TallySuccessors(nodes, edges, successors, e);
    TallyIndegrees(nodes, edges, indegree, e);
  }

  lemma TallyStep(nodes: set<Id>, edges: set<Edge>, successors: map<Id, set<Id>>, indegree: map<Id, int>, e: Edge)
    requires Tallied(nodes, edges, successors, indegree) && e.0 in nodes && e.1 in nodes
    ensures e.1 in successors[e.0] ==> Tallied(nodes, edges + {e}, successors, indegree)
    ensures e.1 !in successors[e.0] ==>
      Tallied(nodes, edges + {e}, successors[e.0 := successors[e.0] + {e.1}], indegree[e.1 := indegree[e.1] + 1])
  {
    if e.1 in successors[e.0] {
      assert e in edges;
      assert edges + {e} == edges;
    } else {
      assert e !in edges;
      TallyNew(nodes, edges, successors, indegree, e);
    }
  }

  /** The state of the loop: indegrees count unlisted predecessors, the sorted ready list holds the ready nodes. */
  ghost predicate Counting(edges: set<Edge>, nodes: set<Id>, listed: set<Id>, ready: seq<Id>, indegree: map<Id, int>) {
    && indegree.Keys == nodes
    && (forall n :: n in nodes ==> indegree[n] == |Pending(edges, listed, n)|)
    && Enumerates(ready, ReadyNodes(edges, nodes, listed)) && Ascending(ready)
  }

  ghost function PartlyPending(edges: set<Edge>, listed: set<Id>, node: Id, done: set<Id>, n: Id): set<Id> {
    Pending(edges, if n in done then listed + {node} else listed, n)
  }

  /** `Counting` while `node` is being listed: only the successors in `done` have been decremented. */
  ghost predicate Releasing(edges: set<Edge>, nodes: set<Id>, listed: set<Id>, node: Id, done: set<Id>, ready: seq<Id>,
                            indegree: map<Id, int>)
  {
    && indegree.Keys == nodes
    && (forall n :: n in nodes ==>
          indegree[n] == |PartlyPending(edges, listed, node, done, n)|)
    && Enumerates(ready, ReleasedNodes(edges, nodes, listed, node, done)) && Ascending(ready)
  }

  ghost function ReleasedNodes(edges: set<Edge>, nodes: set<Id>, listed: set<Id>, node: Id, done: set<Id>): set<Id> {
    set n | n in nodes && n !in listed && n != node
            && PartlyPending(edges, listed, node, done, n) == {}
  }

  lemma TailEnumerates(s: seq<Id>, elements: set<Id>)
    requires s != [] && Enumerates(s, elements) && Ascending(s)
    ensures Enumerates(s[1..], elements - {s[0]}) && Ascending(s[1..])
    ensures LeastOf(s[0], elements)
  {
    assert s == [s[0]] + s[1..];
    assert s[0] in elements;
    forall n | n in elements ensures Le(s[0], n) && (n != s[0] ==> n in s[1..]) {
      var k :| 0 <= k < |s| && s[k] == n;
      if k == 0 { LeTotal(n, n); } else { assert s[1..][k - 1] == n; }
    }
    forall n | n in s[1..] ensures n in elements - {s[0]} {
      var k :| 0 <= k < |s[1..]| && s[1..][k] == n;
      assert s[k + 1] == n;
    }
  }

  lemma StartRelease(edges: set<Edge>, nodes: set<Id>, listed: set<Id>, ready: seq<Id>, indegree: map<Id, int>)
    requires Counting(edges, nodes, listed, ready, indegree) && ready != []
    ensures Releasing(edges, nodes, listed, ready[0], {}, ready[1..], indegree)
  {
    TailEnumerates(ready, ReadyNodes(edges, nodes, listed));
    assert ReleasedNodes(edges, nodes, listed, ready[0], {}) == ReadyNodes(edges, nodes, listed) - {ready[0]};
  }

  lemma EndRelease(edges: set<Edge>, nodes: set<Id>, listed: set<Id>, node: Id, ready: seq<Id>, indegree: map<Id, int>)
    requires Releasing(edges, nodes, listed, node, Successors(edges, node), ready, indegree)
    ensures Counting(edges, nodes, listed + {node}, ready, indegree)
  {
    forall n
      ensures PartlyPending(edges, listed, node, Successors(edges, node), n) == Pending(edges, listed + {node}, n)
    {
      if n !in Successors(edges, node) { assert (node, n) !in edges; }
    }
    ReleasedIsReady(edges, nodes, listed, node);
  }

  lemma ReleasedIsReady(edges: set<Edge>, nodes: set<Id>, listed: set<Id>, node: Id)
    requires forall n ::
      PartlyPending(edges, listed, node, Successors(edges, node), n) == Pending(edges, listed + {node}, n)
    ensures ReleasedNodes(edges, nodes, listed, node, Successors(edges, node))
            == ReadyNodes(edges, nodes, listed + {node})
  {
  }

  /** What decrementing `target` changes: its own pending set loses `node`, no other pending set changes. */
  lemma DecrementPending(edges: set<Edge>, nodes: set<Id>, listed: set<Id>, node: Id, done: set<Id>, target: Id)
    requires target in nodes && target !in done && target !in listed && target != node
    requires node !in listed && (node, target) in edges
    ensures |PartlyPending(edges, listed, node, done + {target}, target)|
            == |PartlyPending(edges, listed, node, done, target)| - 1
    ensures forall n :: n != target ==>
      PartlyPending(edges, listed, node, done + {target}, n) == PartlyPending(edges, listed, node, done, n)
    ensures target !in ReleasedNodes(edges, nodes, listed, node, done)
  {
    assert node in Pending(edges, listed, target);
    assert Pending(edges, listed + {node}, target) == Pending(edges, listed, target) - {node};
    forall n | n != target
      ensures PartlyPending(edges, listed, node, done + {target}, n) == PartlyPending(edges, listed, node, done, n)
    {
    }
  }

  lemma DecrementReleases(edges: set<Edge>, nodes: set<Id>, listed: set<Id>, node: Id, done: set<Id>, target: Id)
    requires target in nodes && target !in listed && target != node
    requires target !in ReleasedNodes(edges, nodes, listed, node, done)
    requires forall n :: n != target ==>
      PartlyPending(edges, listed, node, done + {target}, n) == PartlyPending(edges, listed, node, done, n)
    ensures ReleasedNodes(edges, nodes, listed, node, done + {target})
         == ReleasedNodes(edges, nodes, listed, node, done)
            + if PartlyPending(edges, listed, node, done + {target}, target) == {} then {target} else {}
  {
    var before := ReleasedNodes(edges, nodes, listed, node, done);
    var after := ReleasedNodes(edges, nodes, listed, node, done + {target});
    forall n | n != target ensures n in after <==> n in before {
    }
  }

  lemma DecrementCounts(edges: set<Edge>, nodes: set<Id>, listed: set<Id>, node: Id, done: set<Id>, target: Id,
                        ready: seq<Id>, indegree: map<Id, int>)
    requires Releasing(edges, nodes, listed, node, done, ready, indegree)
    requires target in nodes && target !in done && target !in listed && target != node
    requires node !in listed && (node, target) in edges
    ensures var after := indegree[target := indegree[target] - 1];
            && after.Keys == nodes
            && (forall n :: n in nodes ==> after[n] == |PartlyPending(edges, listed, node, done + {target}, n)|)
            && (after[target] == 0 <==> PartlyPending(edges, listed, node, done + {target}, target) == {})
  {
    DecrementPending(edges, nodes, listed, node, done, target);
  }

  /** Decrementing one successor of `node`. */
  method Decrement(edges: set<Edge>, nodes: set<Id>, ghost listed: set<Id>, node: Id, ghost done: set<Id>, target: Id,
                   ready0: seq<Id>, indegree0: map<Id, int>)
    returns (ready: seq<Id>, indegree: map<Id, int>)
    requires Releasing(edges, nodes, listed, node, done, ready0, indegree0)
    requires target in nodes && target !in done && target !in listed && target != node
    requires node !in listed && (node, target) in edges
    ensures Releasing(edges, nodes, listed, node, done + {target}, ready, indegree)
  {
    DecrementCounts(edges, nodes, listed, node, done, target, ready0, indegree0);
    DecrementPending(edges, nodes, listed, node, done, target);
    DecrementReleases(edges, nodes, listed, node, done, target);
    ready, indegree := ready0, indegree0[target := indegree0[target] - 1];
    if indegree[target] == 0 {
      assert target !in Elements(ready);
      ready := InsertSorted(ready, target);
    }
    assert Enumerates(ready, ReleasedNodes(edges, nodes, listed, node, done + {target}));
  }

  /** The successors of a node that is being listed are unlisted. */
  lemma TargetIsPending(edges: set<Edge>, nodes: set<Id>, listed: set<Id>, node: Id, targets: seq<Id>, i: nat)
    requires Nodes(edges) <= nodes && (forall n :: n in listed ==> Predecessors(edges, n) <= listed) && node !in listed
    requires Enumerates(targets, Successors(edges, node)) && i < |targets| && node !in Successors(edges, node)
    ensures targets[i] in nodes && targets[i] !in Elements(targets[..i]) && targets[i] !in listed && targets[i] != node
    ensures (node, targets[i]) in edges
  {
    assert targets[i] in Elements(targets);
    assert (node, targets[i]) in edges;
    assert targets[i] in Nodes(edges) && node in Predecessors(edges, targets[i]);
  }

  /** One turn of the loop of `Release`. */
  method ReleaseNext(edges: set<Edge>, nodes: set<Id>, ghost listed: set<Id>, node: Id, targets: seq<Id>, i: nat,
                     ready0: seq<Id>, indegree0: map<Id, int>)
    returns (ready: seq<Id>, indegree: map<Id, int>)
    requires Nodes(edges) <= nodes && (forall n :: n in listed ==> Predecessors(edges, n) <= listed) && node !in listed
    requires Enumerates(targets, Successors(edges, node)) && i < |targets| && node !in Successors(edges, node)
    requires Releasing(edges, nodes, listed, node, Elements(targets[..i]), ready0, indegree0)
    ensures Releasing(edges, nodes, listed, node, Elements(targets[..i + 1]), ready, indegree)
  {
    PrefixElements(targets, i);
    TargetIsPending(edges, nodes, listed, node, targets, i);
    ready, indegree := Decrement(edges, nodes, listed, node, Elements(targets[..i]), targets[i], ready0, indegree0);
  }

  method ReleaseAll(edges: set<Edge>, nodes: set<Id>, ghost listed: set<Id>, node: Id, targets: seq<Id>,
                    ready0: seq<Id>, indegree0: map<Id, int>)
    returns (ready: seq<Id>, indegree: map<Id, int>)
    requires Nodes(edges) <= nodes && (forall n :: n in listed ==> Predecessors(edges, n) <= listed) && node !in listed
    requires Enumerates(targets, Successors(edges, node)) && node !in Successors(edges, node)
    requires Releasing(edges, nodes, listed, node, {}, ready0, indegree0)
    ensures Releasing(edges, nodes, listed, node, Successors(edges, node), ready, indegree)
  {
    ready, indegree := ready0, indegree0;
    assert Elements(targets[..0]) == {};
    for i := 0 to |targets|
      invariant Releasing(edges, nodes, listed, node, Elements(targets[..i]), ready, indegree)
    {
      ready, indegree := ReleaseNext(edges, nodes, listed, node, targets, i, ready, indegree);
    }
    WholePrefix(targets);
  }

  /** A ready node is unlisted and does not follow itself. */
  lemma ReadyHead(edges: set<Edge>, nodes: set<Id>, listed: set<Id>, ready: seq<Id>)
    requires ready != [] && Elements(ready) == ReadyNodes(edges, nodes, listed)
    ensures ready[0] in nodes && ready[0] !in listed && ready[0] !in Successors(edges, ready[0])
  {
    var node := ready[0];
    assert node in Elements(ready);
    forall m | m in Successors(edges, node) ensures node in Pending(edges, listed, m) {
    }
  }

  /** Lists the head of the ready list: its successors lose a predecessor and may become ready. */
  method Release(edges: set<Edge>, nodes: set<Id>, ghost listed: set<Id>, successors: map<Id, set<Id>>, ready0: seq<Id>,
                 indegree0: map<Id, int>)
    returns (ready: seq<Id>, indegree: map<Id, int>)
    requires Counting(edges, nodes, listed, ready0, indegree0) && ready0 != []
    requires Nodes(edges) <= nodes && forall i :: i in listed ==> Predecessors(edges, i) <= listed
    requires ready0[0] in successors && successors[ready0[0]] == Successors(edges, ready0[0])
    ensures Counting(edges, nodes, listed + {ready0[0]}, ready, indegree)
  {
    StartRelease(edges, nodes, listed, ready0, indegree0);
    ReadyHead(edges, nodes, listed, ready0);
    var targets := Sorted(successors[ready0[0]]);
    ready, indegree := ReleaseAll(edges, nodes, listed, ready0[0], targets, ready0[1..], indegree0);
    EndRelease(edges, nodes, listed, ready0[0], ready, indegree);
  }

  /** A linear extension of the union of the relations over `nodes`, or none when there is a cycle. */
  method TopologicalTotalOrder(nodes: set<Id>, relations: seq<Relation>) returns (result: Option<seq<Id>>)
    requires Nodes(Union(relations)) <= nodes
    ensures result.None? <==> !Acyclic(Union(relations))
    ensures result.Some? ==> Enumerates(result.value, nodes) && Extends(Ranks(result.value), Union(relations))
    ensures result.Some? ==> LeastReady(Union(relations), nodes, result.value)
  {
    var edges := Union(relations);
    var successors, indegree := Indegrees(nodes, relations);
    StartCounting(edges, nodes, indegree);
    var ready := Sorted(set n | n in nodes && indegree[n] == 0);
    var order: seq<Id> := [];
    while ready != []
      invariant Counting(edges, nodes, Elements(order), ready, indegree)
      invariant Listing(edges, nodes, order)
      decreases nodes - Elements(order)
    {
      ListLeast(edges, nodes, order, ready, indegree);
      ghost var listed := Elements(order);
      ListingIsClosed(edges, nodes, order);
      order := order + [ready[0]];
      ready, indegree := Release(edges, nodes, listed, successors, ready, indegree);
    }
    if |order| == |nodes| {
      CompleteListing(edges, nodes, order);
      result := Some(order);
    } else {
      IncompleteListing(edges, nodes, order, indegree);
      result := None;
    }
  }

  lemma CompleteListing(edges: set<Edge>, nodes: set<Id>, order: seq<Id>)
    requires Listing(edges, nodes, order) && Nodes(edges) <= nodes && |order| == |nodes|
    ensures Enumerates(order, nodes) && Extends(Ranks(order), edges) && Acyclic(edges)
  {
    EnumerationLength(order, Elements(order));
    CardinalityOfSubset(Elements(order), nodes);
    RanksExtend(edges, order);
    RankedIsAcyclic(edges, Ranks(order));
  }

  lemma IncompleteListing(edges: set<Edge>, nodes: set<Id>, order: seq<Id>, indegree: map<Id, int>)
    requires Listing(edges, nodes, order) && Nodes(edges) <= nodes && |order| != |nodes|
    requires Counting(edges, nodes, Elements(order), [], indegree)
    ensures !Acyclic(edges)
  {
    EnumerationLength(order, Elements(order));
    assert ReadyNodes(edges, nodes, Elements(order)) == Elements<Id>([]);
    StuckIsCyclic(edges, nodes, Elements(order));
  }

  ghost predicate Listing(edges: set<Edge>, nodes: set<Id>, order: seq<Id>) {
    NoDup(order) && Elements(order) <= nodes && PredecessorsFirst(edges, order) && LeastReady(edges, nodes, order)
  }

  lemma StartCounting(edges: set<Edge>, nodes: set<Id>, indegree: map<Id, int>)
    requires indegree.Keys == nodes && forall n :: n in nodes ==> indegree[n] == |Predecessors(edges, n)|
    ensures forall n :: n in nodes ==> indegree[n] == |Pending(edges, {}, n)|
    ensures (set n | n in nodes && indegree[n] == 0) == ReadyNodes(edges, nodes, {})
  {
    assert forall n :: Pending(edges, {}, n) == Predecessors(edges, n);
  }

  lemma ListingIsClosed(edges: set<Edge>, nodes: set<Id>, order: seq<Id>)
    requires Listing(edges, nodes, order)
    ensures forall n :: n in Elements(order) ==> Predecessors(edges, n) <= Elements(order)
  {
    forall n | n in Elements(order) ensures Predecessors(edges, n) <= Elements(order) {
      var i :| 0 <= i < |order| && order[i] == n;
      assert Predecessors(edges, order[i]) <= Elements(order[..i]);
    }
  }

  /** Listing the head of the ready list keeps the order linear, duplicate-free and least. */
  lemma ListLeast(edges: set<Edge>, nodes: set<Id>, order: seq<Id>, ready: seq<Id>, indegree: map<Id, int>)
    requires Listing(edges, nodes, order)
    requires Counting(edges, nodes, Elements(order), ready, indegree) && ready != []
    ensures Listing(edges, nodes, order + [ready[0]]) && ready[0] in nodes && ready[0] !in Elements(order)
    ensures Elements(order + [ready[0]]) == Elements(order) + {ready[0]}
  {
    TailEnumerates(ready, ReadyNodes(edges, nodes, Elements(order)));
    AppendListing(edges, nodes, order, ready[0]);
  }

  lemma AppendListing(edges: set<Edge>, nodes: set<Id>, order: seq<Id>, node: Id)
    requires Listing(edges, nodes, order) && LeastOf(node, ReadyNodes(edges, nodes, Elements(order)))
    ensures Listing(edges, nodes, order + [node]) && Elements(order + [node]) == Elements(order) + {node}
  {
    var longer := order + [node];
    assert forall i :: 0 <= i < |longer| ==> longer[..i] == order[..i];
    WholePrefix(order);
    assert Pending(edges, Elements(order), node) == {};
    assert Predecessors(edges, node) <= Pending(edges, Elements(order), node) + Elements(order);
    assert NoDup(longer);
    forall i | 0 <= i < |longer| ensures Predecessors(edges, longer[i]) <= Elements(longer[..i]) {
      if i < |order| { assert longer[i] == order[i]; }
    }
  }

  /** Nodes that never become ready lie on or behind a cycle. */
  lemma StuckIsCyclic(edges: set<Edge>, nodes: set<Id>, listed: set<Id>)
    requires ReadyNodes(edges, nodes, listed) == {} && listed <= nodes && listed != nodes
    requires Nodes(edges) <= nodes
    ensures !Acyclic(edges)
  {
    assert nodes == listed + (nodes - listed);
    forall n | n in nodes - listed ensures Pending(edges, listed, n) != {} {
      assert n !in ReadyNodes(edges, nodes, listed);
    }
    forall n ensures Predecessors(edges, n) <= nodes {
      forall p | p in Predecessors(edges, n) ensures p in nodes {
        assert (p, n) in edges && p in Nodes(edges);
      }
    }
    if Acyclic(edges) {
      var m := MinimalElement(edges, nodes - listed);
      assert false;
    }
  }
}
