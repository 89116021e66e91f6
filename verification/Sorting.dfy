/** topoSort of lib/dag/schema.ts. */
module Sorting {
  import opened Draining
  import opened Graphs
  import opened Sequences
  import opened Validation

  datatype SortResult = Sorted(nodes: seq<Node>) | Invalid(errors: seq<GraphError>)

  /** The node table: a later node replaces an earlier one with the same key. */
  function ByKey(nodes: seq<Node>): (m: map<Key, Node>)
    ensures m.Keys == KeySet(nodes)
    ensures forall k :: k in m ==> m[k] in nodes && m[k].key == k
  {
    if nodes == [] then map[]
    else
      assert forall n :: n in nodes <==> n in nodes[..|nodes| - 1] || n == nodes[|nodes| - 1];
      ByKey(nodes[..|nodes| - 1])[nodes[|nodes| - 1].key := nodes[|nodes| - 1]]
  }

  /** No later node shares the key of the node that the table holds. */
  lemma {:induction false} ByKeyIsLast(nodes: seq<Node>, i: nat)
    requires i < |nodes| && forall j :: i < j < |nodes| ==> nodes[j].key != nodes[i].key
    ensures nodes[i].key in ByKey(nodes) && ByKey(nodes)[nodes[i].key] == nodes[i]
  {
    if i < |nodes| - 1 {
      ByKeyIsLast(nodes[..|nodes| - 1], i);
    }
  }

  /** The sorted keys are the graph's keys, each standing for the last node that has it. */
  ghost predicate FromTable(nodes: seq<Node>, sorted: seq<Node>) {
    && multiset(Keys(sorted)) == multiset(Keys(nodes))
    && forall n :: n in sorted ==> n.key in ByKey(nodes) && n == ByKey(nodes)[n.key]
  }

  /** A key comes after enough of its predecessors to account for its indegree. */
  ghost predicate Supported(edges: set<Edge>, ks: seq<Key>, j: nat)
    requires j < |ks|
  {
    InDegree(edges, ks[j]) <= Hits(ks[..j], edges, ks[j])
  }

  /** What sorting gives for every accepted graph, distinct keys or not: each key comes as often as it has
      nodes, always as the last node with that key; all copies of the trigger's key lead; every key comes
      after enough predecessors. */
  ghost predicate DrainedNodes(g: Graph, sorted: seq<Node>)
    requires |Triggers(g.nodes)| == 1
  {
    var ks, t := Keys(sorted), Triggers(g.nodes)[0].key;
    && FromTable(g.nodes, sorted)
    && (forall i :: 0 <= i < |ks| ==> (ks[i] == t <==> i < multiset(Keys(g.nodes))[t]))
    && forall j :: 0 <= j < |ks| ==> Supported(EdgeSet(g), ks, j)
  }

  /** Every node once, every edge forward, the trigger first and the only trigger. */
  ghost predicate TopologicalOrder(g: Graph, sorted: seq<Node>) {
    && multiset(sorted) == multiset(g.nodes)
    && NoDup(Keys(sorted))
    && EdgesForward(EdgeSet(g), sorted)
    && sorted != [] && Triggers(g.nodes) == [sorted[0]]
    && forall i :: 0 <= i < |sorted| ==> (sorted[i].config.Trigger? <==> i == 0)
  }

  ghost predicate EdgesForward(edges: set<Edge>, sorted: seq<Node>) {
    forall i, j :: 0 <= i < |sorted| && 0 <= j < |sorted| && Edge(sorted[i].key, sorted[j].key) in edges ==> i < j
  }

  lemma {:induction false} SourcesAreTrigger(ks: seq<Key>, wanted: Key -> bool, t: Key)
    requires forall k :: k in ks ==> (wanted(k) <==> k == t)
    ensures var r := SelectKeys(ks, wanted);
            |r| == multiset(ks)[t] && forall i :: 0 <= i < |r| ==> r[i] == t
  {
    if ks != [] {
      var init := ks[..|ks| - 1];
      assert ks == init + [ks[|ks| - 1]];
      SourcesAreTrigger(init, wanted, t);
    }
  }

  lemma NonEmptyFromTrigger(g: Graph)
    requires |Triggers(g.nodes)| == 1
    ensures Triggers(g.nodes)[0] in g.nodes && Triggers(g.nodes)[0].key in KeySet(g.nodes)
  {
    assert Triggers(g.nodes)[0] in Triggers(g.nodes);
  }

  /** Each key's entry in the node table. */
  function NodesOf(byKey: map<Key, Node>, ks: seq<Key>): (nodes: seq<Node>)
    requires forall k :: k in ks ==> k in byKey
    ensures |nodes| == |ks| && forall i :: 0 <= i < |ks| ==> nodes[i] == byKey[ks[i]]
  {
    if ks == [] then [] else NodesOf(byKey, ks[..|ks| - 1]) + [byKey[ks[|ks| - 1]]]
  }

  lemma NodesOfKeys(nodes: seq<Node>, ks: seq<Key>)
    requires forall k :: k in ks ==> k in KeySet(nodes)
    ensures var found := NodesOf(ByKey(nodes), ks);
            Keys(found) == ks && forall n :: n in found ==> n.key in ByKey(nodes) && n == ByKey(nodes)[n.key]
  {
    var found := NodesOf(ByKey(nodes), ks);
    forall i | 0 <= i < |ks|
      ensures found[i].key == ks[i]
    {
      assert ks[i] in ks;
    }
  }

  /** The result of sorting: the visited keys, each looked up in the node table. */
  ghost function SortOrder(g: Graph): (sorted: seq<Node>)
    ensures Keys(sorted) == Visited(g)
  {
    DrainedKeys(g.nodes, EdgeSet(g), Visited(g));
    NodesOfKeys(g.nodes, Visited(g));
    NodesOf(ByKey(g.nodes), Visited(g))
  }

  /** What sorting gives for an accepted graph. */
  lemma SortOrderDrained(g: Graph)
    requires Accepts(g) && NonEmptyKeys(g)
    ensures DrainedNodes(g, SortOrder(g))
  {
    DrainedCount(g.nodes, EdgeSet(g), Visited(g));
    TriggerIsOnlySource(g);
    DrainedKeys(g.nodes, EdgeSet(g), Visited(g));
    NodesOfKeys(g.nodes, Visited(g));
    DrainedPlaces(g.nodes, EdgeSet(g), Visited(g), Triggers(g.nodes)[0].key);
  }

  lemma DrainedPlaces(nodes: seq<Node>, edges: set<Edge>, drained: seq<Key>, t: Key)
    requires DrainOrder(nodes, edges, drained)
    requires forall k :: k in KeySet(nodes) ==> (InDegree(edges, k) == 0 <==> k == t)
    ensures forall i :: 0 <= i < |drained| ==> (drained[i] == t <==> i < multiset(Keys(nodes))[t])
    ensures forall j :: 0 <= j < |drained| ==> Supported(edges, drained, j)
  {
    KeysAreKeySet(nodes);
    SourcesAreTrigger(Keys(nodes), k => InDegree(edges, k) == 0, t);
    var s := |Sources(nodes, edges)|;
    forall i | 0 <= i < |drained|
      ensures drained[i] == t <==> i < s
      ensures Supported(edges, drained, i)
    {
      KeyDrained(nodes, edges, drained, i);
      if i < s {
        assert drained[i] == drained[..s][i];
      } else {
        assert Ready(nodes, edges, drained, i);
      }
    }
  }

  // ----- distinct keys -----

  lemma KeyIndexUnique(nodes: seq<Node>, i: nat, j: nat)
    requires NoDup(Keys(nodes)) && i < |nodes| && j < |nodes| && nodes[i].key == nodes[j].key
    ensures i == j
  {
    var ks := Keys(nodes);
    assert ks[i] == ks[j];
  }

  lemma SortedIsPermutation(nodes: seq<Node>, sorted: seq<Node>)
    requires NoDup(Keys(nodes)) && FromTable(nodes, sorted)
    ensures NoDup(Keys(sorted)) && multiset(sorted) == multiset(nodes)
  {
    forall k: Key
      ensures multiset(Keys(sorted))[k] <= 1
    {
      NoDupCount(Keys(nodes), k);
    }
    CountsNoDup(Keys(sorted));
    NodesNoDup(nodes);
    NodesNoDup(sorted);
    forall n | n in nodes
      ensures n in sorted
    {
      NodeIsSorted(nodes, sorted, n);
    }
    NoDupMultiset(sorted, nodes);
    NoDupMultiset(nodes, sorted);
  }

  lemma NodeIsSorted(nodes: seq<Node>, sorted: seq<Node>, n: Node)
    requires NoDup(Keys(nodes)) && FromTable(nodes, sorted) && n in nodes
    ensures n in sorted
  {
    var i :| 0 <= i < |nodes| && nodes[i] == n;
    assert Keys(nodes)[i] in multiset(Keys(nodes));
    assert n.key in Keys(sorted);
    var j :| 0 <= j < |sorted| && Keys(sorted)[j] == n.key;
    assert sorted[j] in sorted;
    forall x | i < x < |nodes|
      ensures nodes[x].key != n.key
    {
      assert Keys(nodes)[x] != Keys(nodes)[i];
    }
    ByKeyIsLast(nodes, i);
  }

  lemma NodesNoDup(nodes: seq<Node>)
    requires NoDup(Keys(nodes))
    ensures NoDup(nodes)
  {
    forall i, j | 0 <= i < j < |nodes|
      ensures nodes[i] != nodes[j]
    {
      assert Keys(nodes)[i] != Keys(nodes)[j];
    }
  }

  lemma SortedGoesForward(edges: set<Edge>, sorted: seq<Node>, i: nat, j: nat)
    requires NoDup(Keys(sorted)) && i < |sorted| && j < |sorted|
    requires Supported(edges, Keys(sorted), j) && Edge(sorted[i].key, sorted[j].key) in edges
    ensures i < j
  {
    var ks := Keys(sorted);
    var before, preds := ks[..j], Preds(edges, ks[j]);
    PredsMember(edges, ks[i], ks[j]);
    HitsOfNoDup(before, edges, ks[j]);
    SubsetCardinality(preds * Elements(before), preds);
    assert ks[i] in Elements(before);
    var x :| 0 <= x < j && before[x] == ks[i];
    KeyIndexUnique(sorted, x, i);
  }

  lemma {:induction false} TriggersMember(nodes: seq<Node>, n: Node)
    requires n in nodes && n.config.Trigger?
    ensures n in Triggers(nodes)
  {
    var init, last := nodes[..|nodes| - 1], nodes[|nodes| - 1];
    if n in init {
      TriggersMember(init, n);
    }
  }

  lemma SortedStartsWithTrigger(nodes: seq<Node>, sorted: seq<Node>)
    requires |Triggers(nodes)| == 1 && multiset(sorted) == multiset(nodes) && NoDup(Keys(sorted))
    requires forall i :: 0 <= i < |sorted| ==> (Keys(sorted)[i] == Triggers(nodes)[0].key <==> i < 1)
    ensures sorted != [] && Triggers(nodes) == [sorted[0]]
    ensures forall i :: 0 <= i < |sorted| ==> (sorted[i].config.Trigger? <==> i == 0)
  {
    var t := Triggers(nodes)[0];
    assert t in Triggers(nodes);
    assert t in multiset(sorted);
    var x :| 0 <= x < |sorted| && sorted[x] == t;
    assert Keys(sorted)[x] == t.key;
    forall i | 0 <= i < |sorted| && sorted[i].config.Trigger?
      ensures i == 0
    {
      assert sorted[i] in multiset(sorted);
      TriggersMember(nodes, sorted[i]);
      assert Keys(sorted)[i] == t.key;
    }
  }

  /** With distinct keys the result of sorting is a topological order of all the nodes. */
  lemma SortedIsTopological(g: Graph, sorted: seq<Node>)
    requires Accepts(g) && NonEmptyKeys(g) && DistinctKeys(g) && DrainedNodes(g, sorted)
    ensures TopologicalOrder(g, sorted)
  {
    SortedIsPermutation(g.nodes, sorted);
    OnlyTriggerKeyRepeats(g);
    SortedStartsWithTrigger(g.nodes, sorted);
    forall i, j | 0 <= i < |sorted| && 0 <= j < |sorted| && Edge(sorted[i].key, sorted[j].key) in EdgeSet(g)
      ensures i < j
    {
      SortedGoesForward(EdgeSet(g), sorted, i, j);
    }
  }

  /** Without distinct keys sorting drops nodes: the last node with the trigger's key stands in for all of
      them, so the trigger itself is lost unless it is listed last among them. */
  lemma RepeatedTriggerKeyDropsNodes(g: Graph, sorted: seq<Node>)
    requires Accepts(g) && NonEmptyKeys(g) && !DistinctKeys(g) && DrainedNodes(g, sorted)
    ensures |sorted| >= 2 && sorted[0] == sorted[1] == ByKey(g.nodes)[Triggers(g.nodes)[0].key]
    ensures Triggers(g.nodes)[0] in sorted <==> sorted[0] == Triggers(g.nodes)[0]
  {
    var t := Triggers(g.nodes)[0];
    OnlyTriggerKeyRepeats(g);
    NonEmptyFromTrigger(g);
    KeysAreKeySet(g.nodes);
    assert t.key in multiset(Keys(g.nodes));
    CopiesBound(Keys(sorted), t.key);
    assert sorted[0] in sorted && sorted[1] in sorted;
    if t in sorted {
      var i :| 0 <= i < |sorted| && sorted[i] == t;
      assert Keys(sorted)[i] == t.key;
    }
  }

  lemma SortedLength(g: Graph)
    requires Accepts(g)
    ensures |SortOrder(g)| == |g.nodes|
  {
    DrainedCount(g.nodes, EdgeSet(g), Visited(g));
  }

  /** Sorting an accepted graph gives a topological order exactly when the keys are distinct. */
  lemma TopologicalIffDistinct(g: Graph)
    requires Accepts(g) && NonEmptyKeys(g)
    ensures TopologicalOrder(g, SortOrder(g)) <==> DistinctKeys(g)
  {
    SortOrderDrained(g);
    if DistinctKeys(g) {
      SortedIsTopological(g, SortOrder(g));
    } else {
      RepeatedTriggerKeyDropsNodes(g, SortOrder(g));
      assert Keys(SortOrder(g))[0] == Keys(SortOrder(g))[1];
    }
  }

  lemma {:induction false} CopiesBound(ks: seq<Key>, k: Key)
    ensures multiset(ks)[k] <= |ks|
  {
    if ks != [] {
      assert ks == ks[..|ks| - 1] + [ks[|ks| - 1]];
      CopiesBound(ks[..|ks| - 1], k);
    }
  }

  // ----- ancestors come first -----

  lemma {:induction false} PathGoesForward(g: Graph, sorted: seq<Node>, p: seq<Key>) returns (i: nat, j: nat)
    requires TopologicalOrder(g, sorted)
    requires IsPath(EdgeSet(g), p) && |p| >= 2
    ensures i < j < |sorted| && sorted[i].key == p[0] && sorted[j].key == p[|p| - 1]
  {
    var step := Edge(p[|p| - 2], p[|p| - 1]);
    assert step in EdgeSet(g);
    EdgeSetJoins(g);
    assert Joining(KeySet(g.nodes), step);
    j := Position(g, sorted, step.to);
    var x := Position(g, sorted, step.from);
    if |p| == 2 {
      i := x;
    } else {
      var y;
      i, y := PathGoesForward(g, sorted, p[..|p| - 1]);
      KeyIndexUnique(sorted, x, y);
    }
  }

  lemma Position(g: Graph, sorted: seq<Node>, k: Key) returns (i: nat)
    requires multiset(sorted) == multiset(g.nodes) && k in KeySet(g.nodes)
    ensures i < |sorted| && sorted[i].key == k
  {
    var n :| n in g.nodes && n.key == k;
    assert n in multiset(sorted);
    i :| 0 <= i < |sorted| && sorted[i] == n;
  }

  lemma AncestorComesFirst(g: Graph, sorted: seq<Node>, i: nat, j: nat)
    requires TopologicalOrder(g, sorted)
    requires i < |sorted| && j < |sorted| && Ancestor(EdgeSet(g), sorted[i].key, sorted[j].key)
    ensures i < j
  {
    var p :| Joins(EdgeSet(g), sorted[i].key, sorted[j].key, p) && |p| >= 2;
    var x, y := PathGoesForward(g, sorted, p);
    KeyIndexUnique(sorted, x, i);
    KeyIndexUnique(sorted, y, j);
  }

  // ----- the algorithm -----

  /** The sorter's own loop over the edges; the graph has been validated, so no edge needs a check. */
  method BuildTables(g: Graph) returns (adjacency: map<Key, seq<Key>>, indegree: map<Key, int>)
    requires EdgesJoinNodes(g) && PairsDistinct(g.edges)
    ensures Tables(KeySet(g.nodes), Elements(g.edges), adjacency, indegree) && Ordered(g.edges, adjacency)
  {
    adjacency, indegree := EmptyTables(g.nodes);
    assert g.edges[..0] == [] && Elements(g.edges[..0]) == {};
    for i := 0 to |g.edges|
      invariant Tables(KeySet(g.nodes), Elements(g.edges[..i]), adjacency, indegree)
      invariant Ordered(g.edges[..i], adjacency)
    {
      var edge := g.edges[i];
      assert g.edges[..i + 1] == g.edges[..i] + [edge];
      ElementsOfAppend(g.edges[..i], edge);
      assert edge !in g.edges[..i] by {
        AcceptedEdges(g);
      }
      TablesAdd(KeySet(g.nodes), Elements(g.edges[..i]), adjacency, indegree, edge);
      OrderedAdd(g.edges[..i], adjacency, edge);
      adjacency := adjacency[edge.from := adjacency[edge.from] + [edge.to]];
      indegree := indegree[edge.to := indegree[edge.to] + 1];
    }
    assert g.edges[..|g.edges|] == g.edges;
  }

  method LookUp(order: seq<Key>, byKey: map<Key, Node>) returns (sorted: seq<Node>)
    requires forall k :: k in order ==> k in byKey
    ensures sorted == NodesOf(byKey, order)
  {
    sorted := [];
    for i := 0 to |order|
      invariant sorted == NodesOf(byKey, order[..i])
    {
      assert order[..i + 1][..i] == order[..i];
      sorted := sorted + [byKey[order[i]]];
    }
    assert order[..|order|] == order;
  }

  /** The sorter's second Kahn loop, on a validated graph. */
  method SortValid(g: Graph) returns (sorted: seq<Node>)
    requires EdgesJoinNodes(g) && PairsDistinct(g.edges)
    ensures sorted == SortOrder(g)
  {
    AcceptedEdges(g);
    var adjacency, indegree := BuildTables(g);
    var visited := Drain(g.nodes, g.edges, adjacency, indegree);
    VisitedUnique(g, visited);
    DrainedKeys(g.nodes, EdgeSet(g), visited);
    sorted := LookUp(visited, ByKey(g.nodes));
  }

  /** Fails with the messages of validation, or gives the sorted nodes. */
  method TopoSort(g: Graph) returns (result: SortResult)
    ensures result == if Accepts(g) then Sorted(SortOrder(g)) else Invalid(Messages(g))
  {
    var errors := ValidateGraph(g);
    if errors != [] {
      return Invalid(errors);
    }
    var sorted := SortValid(g);
    return Sorted(sorted);
  }
}
