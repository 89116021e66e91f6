/** validateGraph of lib/dag/schema.ts, and what its verdict means. */
module Validation {
  import opened Draining
  import opened Graphs
  import opened Sequences

  // ----- edge tables -----

  lemma {:induction false} KeptMember(ks: set<Key>, edges: seq<Edge>)
    ensures forall e :: e in Kept(ks, edges) ==> e in edges && Joining(ks, e)
    ensures NoDup(Kept(ks, edges))
  {
    if edges != [] {
      var init, e := edges[..|edges| - 1], edges[|edges| - 1];
      KeptMember(ks, init);
      assert e in edges && forall d :: d in init ==> d in edges;
      if EdgeProblem(ks, Kept(ks, init), e) == [] {
        NoProblemIff(ks, Kept(ks, init), e);
        assert e !in Kept(ks, init);
        NoDupAppend(Kept(ks, init), e);
      }
    }
  }

  lemma InDegreeAdd(edges: set<Edge>, e: Edge, v: Key)
    requires e !in edges
    ensures InDegree(edges + {e}, v) == InDegree(edges, v) + (if v == e.to then 1 else 0)
  {
    var before, after := Preds(edges, v), Preds(edges + {e}, v);
    PredsMember(edges, e.from, v);
    forall u: Key
      ensures u in after <==> u in before || (v == e.to && u == e.from)
    {
      PredsMember(edges, u, v);
      PredsMember(edges + {e}, u, v);
    }
    if v == e.to {
      assert e == Edge(e.from, v);
      assert after == before + {e.from};
    } else {
      assert after == before;
    }
  }

  /** Recording one more edge keeps the tables in step with the edges. */
  lemma TablesAdd(ks: set<Key>, edges: set<Edge>, adjacency: map<Key, seq<Key>>, indegree: map<Key, int>, e: Edge)
    requires Tables(ks, edges, adjacency, indegree) && Joining(ks, e) && e !in edges
    ensures Tables(ks, edges + {e}, adjacency[e.from := adjacency[e.from] + [e.to]],
                   indegree[e.to := indegree[e.to] + 1])
  {
    AdjacencyAdd(ks, edges, adjacency, e);
    forall v | v in ks
      ensures indegree[e.to := indegree[e.to] + 1][v] == InDegree(edges + {e}, v)
    {
      InDegreeAdd(edges, e, v);
    }
  }

  lemma AdjacencyAdd(ks: set<Key>, edges: set<Edge>, adjacency: map<Key, seq<Key>>, e: Edge)
    requires adjacency.Keys == ks && Joining(ks, e) && e !in edges
    requires forall u :: u in ks ==> NoDup(adjacency[u])
    requires forall u, v :: u in ks ==> (v in adjacency[u] <==> Edge(u, v) in edges)
    ensures var adjacency' := adjacency[e.from := adjacency[e.from] + [e.to]];
            && (forall u :: u in ks ==> NoDup(adjacency'[u]))
            && (forall u, v :: u in ks ==> (v in adjacency'[u] <==> Edge(u, v) in edges + {e}))
  {
    var adjacency' := adjacency[e.from := adjacency[e.from] + [e.to]];
    forall u, v | u in ks
      ensures v in adjacency'[u] <==> Edge(u, v) in edges + {e}
    {
      if u == e.from {
        assert v in adjacency'[u] <==> v in adjacency[u] || v == e.to;
      }
    }
    forall u | u in ks
      ensures NoDup(adjacency'[u])
    {
      if u == e.from {
        assert Edge(u, e.to) == e;
        NoDupAppend(adjacency[u], e.to);
      }
    }
  }

  lemma OrderedAdd(kept: seq<Edge>, adjacency: map<Key, seq<Key>>, e: Edge)
    requires Ordered(kept, adjacency) && e.from in adjacency
    ensures Ordered(kept + [e], adjacency[e.from := adjacency[e.from] + [e.to]])
  {
    assert (kept + [e])[..|kept|] == kept;
  }

  lemma TablesEmpty(ks: set<Key>, adjacency: map<Key, seq<Key>>, indegree: map<Key, int>)
    requires adjacency.Keys == ks && indegree.Keys == ks
    requires forall k :: k in ks ==> adjacency[k] == [] && indegree[k] == 0
    ensures Tables(ks, {}, adjacency, indegree)
  {
    forall v: Key
      ensures InDegree({}, v) == 0
    {
      assert Preds({}, v) == {};
    }
  }

  method EmptyTables(nodes: seq<Node>) returns (adjacency: map<Key, seq<Key>>, indegree: map<Key, int>)
    ensures Tables(KeySet(nodes), {}, adjacency, indegree) && Ordered([], adjacency)
  {
    adjacency, indegree := map[], map[];
    for i := 0 to |nodes|
      invariant adjacency.Keys == KeySet(nodes[..i]) && indegree.Keys == KeySet(nodes[..i])
      invariant forall k :: k in adjacency ==> adjacency[k] == []
      invariant forall k :: k in indegree ==> indegree[k] == 0
    {
      assert nodes[..i + 1] == nodes[..i] + [nodes[i]];
      assert forall n :: n in nodes[..i + 1] <==> n in nodes[..i] || n == nodes[i];
      adjacency := adjacency[nodes[i].key := []];
      indegree := indegree[nodes[i].key := 0];
    }
    assert nodes[..|nodes|] == nodes;
    TablesEmpty(KeySet(nodes), adjacency, indegree);
  }

  function PairSet(edges: seq<Edge>): set<string> {
    set e | e in edges :: Pair(e)
  }

  lemma PairSetAppend(kept: seq<Edge>, e: Edge)
    ensures Pair(e) in PairSet(kept) <==> exists k :: k in kept && Pair(k) == Pair(e)
    ensures PairSet(kept + [e]) == PairSet(kept) + {Pair(e)}
  {
    assert forall d :: d in kept + [e] <==> d in kept || d == e;
  }

  lemma PrefixStep(ks: set<Key>, edges: seq<Edge>, i: nat)
    requires i < |edges|
    ensures Kept(ks, edges[..i + 1])
         == Kept(ks, edges[..i]) + (if EdgeProblem(ks, Kept(ks, edges[..i]), edges[i]) == [] then [edges[i]] else [])
    ensures EdgeErrors(ks, edges[..i + 1])
         == EdgeErrors(ks, edges[..i]) + EdgeProblem(ks, Kept(ks, edges[..i]), edges[i])
  {
    assert edges[..i + 1][..i] == edges[..i];
  }

  /** The tables and the set of remembered pairs describe the edges kept so far. */
  ghost predicate Recorded(ks: set<Key>, kept: seq<Edge>, seenEdges: set<string>,
                           adjacency: map<Key, seq<Key>>, indegree: map<Key, int>) {
    Tables(ks, Elements(kept), adjacency, indegree) && Ordered(kept, adjacency) && seenEdges == PairSet(kept)
  }

  /** The body of the loop over the edges: reports a bad edge, or else records it. */
  method CheckEdge(ks: set<Key>, ghost kept: seq<Edge>, edge: Edge, seenEdges: set<string>,
                   adjacency: map<Key, seq<Key>>, indegree: map<Key, int>)
    returns (problem: seq<GraphError>, seenEdges': set<string>, adjacency': map<Key, seq<Key>>,
             indegree': map<Key, int>)
    requires Recorded(ks, kept, seenEdges, adjacency, indegree)
    ensures problem == EdgeProblem(ks, kept, edge)
    ensures Recorded(ks, kept + (if problem == [] then [edge] else []), seenEdges', adjacency', indegree')
  {
    problem, seenEdges', adjacency', indegree' := [], seenEdges, adjacency, indegree;
    PairSetAppend(kept, edge);
    assert kept + [] == kept;
    if edge.from !in ks || edge.to !in ks {
      problem := [UnknownNode(edge)];
    } else if edge.from == edge.to {
      problem := [SelfLoop(edge)];
    } else if Pair(edge) in seenEdges {
      problem := [DuplicateEdge(edge)];
    } else {
      assert edge !in Elements(kept);
      ElementsOfAppend(kept, edge);
      TablesAdd(ks, Elements(kept), adjacency, indegree, edge);
      OrderedAdd(kept, adjacency, edge);
      seenEdges' := seenEdges + {Pair(edge)};
      adjacency' := adjacency[edge.from := adjacency[edge.from] + [edge.to]];
      indegree' := indegree[edge.to := indegree[edge.to] + 1];
    }
  }

  /** The loop over the edges. */
  method CheckEdges(g: Graph) returns (errors: seq<GraphError>, adjacency: map<Key, seq<Key>>, indegree: map<Key, int>)
    ensures errors == EdgeErrors(KeySet(g.nodes), g.edges)
    ensures Tables(KeySet(g.nodes), EdgeSet(g), adjacency, indegree)
    ensures Ordered(Kept(KeySet(g.nodes), g.edges), adjacency)
  {
    var keys := KeySet(g.nodes);
    adjacency, indegree := EmptyTables(g.nodes);
    errors := [];
    var seenEdges: set<string> := {};
    for i := 0 to |g.edges|
      invariant errors == EdgeErrors(keys, g.edges[..i])
      invariant Recorded(keys, Kept(keys, g.edges[..i]), seenEdges, adjacency, indegree)
    {
      PrefixStep(keys, g.edges, i);
      var problem;
      problem, seenEdges, adjacency, indegree :=
        CheckEdge(keys, Kept(keys, g.edges[..i]), g.edges[i], seenEdges, adjacency, indegree);
      errors := errors + problem;
    }
    assert g.edges[..|g.edges|] == g.edges;
  }

  // ----- reachability -----

  /** The state of the search: everything seen or stacked is reachable, and every successor of a seen key is
      seen or stacked. */
  ghost predicate Searching(ks: set<Key>, edges: set<Edge>, start: Key, reachable: set<Key>, stack: seq<Key>) {
    && reachable <= ks
    && (forall k :: k in stack ==> k in ks && Reachable(edges, start, k))
    && (forall k :: k in reachable ==> Reachable(edges, start, k))
    && (start in reachable || start in stack)
    && forall e :: e in edges && e.from in reachable ==> e.to in reachable || e.to in stack
  }

  lemma SearchStart(ks: set<Key>, edges: set<Edge>, start: Key)
    requires start in ks
    ensures Searching(ks, edges, start, {}, [start])
  {
    assert Joins(edges, start, start, [start]);
  }

  lemma SearchSkip(ks: set<Key>, edges: set<Edge>, start: Key, reachable: set<Key>, rest: seq<Key>, current: Key)
    requires Searching(ks, edges, start, reachable, rest + [current]) && current in reachable
    ensures Searching(ks, edges, start, reachable, rest)
  {
    assert forall k :: k in rest + [current] <==> k in rest || k == current;
  }

  lemma SearchPush(ks: set<Key>, edges: set<Edge>, start: Key, reachable: set<Key>, rest: seq<Key>, current: Key,
                   nexts: seq<Key>)
    requires Searching(ks, edges, start, reachable, rest + [current])
    requires forall k :: k in nexts <==> Edge(current, k) in edges
    requires forall k :: k in nexts ==> k in ks
    ensures current in ks && Searching(ks, edges, start, reachable + {current}, rest + nexts)
  {
    assert forall k :: k in rest + [current] <==> k in rest || k == current;
    assert forall k :: k in rest + nexts <==> k in rest || k in nexts;
    assert current in rest + [current];
    forall k | k in nexts
      ensures Reachable(edges, start, k)
    {
      ReachableStep(edges, start, current, k);
    }
    forall e | e in edges && e.from in reachable + {current}
      ensures e.to in reachable + {current} || e.to in rest + nexts
    {
      assert e == Edge(e.from, e.to);
    }
  }

  lemma SearchEnd(ks: set<Key>, edges: set<Edge>, start: Key, reachable: set<Key>)
    requires Searching(ks, edges, start, reachable, [])
    ensures forall k :: k in reachable <==> Reachable(edges, start, k)
  {
    forall k | Reachable(edges, start, k)
      ensures k in reachable
    {
      var p :| Joins(edges, start, k, p);
      ReachableInClosed(edges, reachable, p);
    }
  }

  /** The stack search: pops a key, skips it if already seen, otherwise pushes all its successors. */
  method Search(ks: set<Key>, ghost edges: set<Edge>, adjacency: map<Key, seq<Key>>, ghost indegree: map<Key, int>,
                start: Key)
    returns (reachable: set<Key>)
    requires Tables(ks, edges, adjacency, indegree) && start in ks
    ensures forall k :: k in reachable <==> Reachable(edges, start, k)
  {
    reachable := {};
    var stack := [start];
    SearchStart(ks, edges, start);
    while stack != []
      invariant Searching(ks, edges, start, reachable, stack)
      decreases ks - reachable, |stack|
    {
      var current := stack[|stack| - 1];
      var rest := stack[..|stack| - 1];
      assert stack == rest + [current];
      if current in reachable {
        SearchSkip(ks, edges, start, reachable, rest, current);
        stack := rest;
        continue;
      }
      assert current in stack;
      SuccessorsKnown(ks, edges, adjacency, indegree, current);
      SearchPush(ks, edges, start, reachable, rest, current, adjacency[current]);
      reachable := reachable + {current};
      stack := rest + adjacency[current];
    }
    SearchEnd(ks, edges, start, reachable);
  }

  lemma SuccessorsKnown(ks: set<Key>, edges: set<Edge>, adjacency: map<Key, seq<Key>>, indegree: map<Key, int>, u: Key)
    requires Tables(ks, edges, adjacency, indegree) && u in ks
    ensures forall k :: k in adjacency[u] <==> Edge(u, k) in edges
    ensures forall k :: k in adjacency[u] ==> k in ks
  {
    forall k | k in adjacency[u]
      ensures k in ks
    {
      assert Edge(u, k) in edges;
    }
  }

  // ----- the verdict -----

  function ShapeErrors(g: Graph): seq<GraphError> {
    (if g.nodes == [] then [NoNodes] else [])
    + (if |Triggers(g.nodes)| != 1 then [TriggerCount(|Triggers(g.nodes)|)] else [])
  }

  ghost function UnreachableErrors(edges: set<Edge>, start: Key, nodes: seq<Node>): (r: seq<GraphError>)
    ensures r == [] <==> forall n :: n in nodes ==> Reachable(edges, start, n.key)
  {
    if nodes == [] then []
    else
      var init, n := nodes[..|nodes| - 1], nodes[|nodes| - 1];
      UnreachableErrors(edges, start, init) + (if Reachable(edges, start, n.key) then [] else [Unreachable(n.key)])
  }

  /** The trigger is the first trigger node; without one, or with an empty key, the search is not made. */
  ghost function ReachabilityErrors(g: Graph): (r: seq<GraphError>)
    ensures r == [] <==> AllReachable(g)
  {
    var ts := Triggers(g.nodes);
    if ts == [] || ts[0].key == "" then [] else UnreachableErrors(EdgeSet(g), ts[0].key, g.nodes)
  }

  /** The cycle message names, in node order, the nodes whose keys were not visited. */
  function CycleErrors(nodes: seq<Node>, visited: seq<Key>): seq<GraphError> {
    if |visited| == |nodes| then [] else [Cycle(SelectKeys(Keys(nodes), k => k !in visited))]
  }

  ghost function MessagesFrom(g: Graph, visited: seq<Key>): seq<GraphError> {
    ShapeErrors(g) + EdgeErrors(KeySet(g.nodes), g.edges) + CycleErrors(g.nodes, visited) + ReachabilityErrors(g)
  }

  /** All messages of validation, in order. */
  ghost function Messages(g: Graph): seq<GraphError> {
    MessagesFrom(g, Visited(g))
  }

  // ----- the visiting order, as a function of the graph -----

  /** Edges that stood the checks have tables. */
  lemma {:induction false} KeptTables(ks: set<Key>, kept: seq<Edge>)
    returns (adjacency: map<Key, seq<Key>>, indegree: map<Key, int>)
    requires AllJoin(ks, kept) && NoDup(kept)
    ensures Tables(ks, Elements(kept), adjacency, indegree) && Ordered(kept, adjacency)
  {
    if kept == [] {
      adjacency, indegree := map k | k in ks :: [], map k | k in ks :: 0;
      TablesEmpty(ks, adjacency, indegree);
      assert Elements(kept) == {};
    } else {
      var init, e := kept[..|kept| - 1], kept[|kept| - 1];
      assert kept == init + [e];
      AllJoinStep(ks, init, e);
      adjacency, indegree := KeptTables(ks, init);
      assert e !in Elements(init);
      ElementsOfAppend(init, e);
      TablesAdd(ks, Elements(init), adjacency, indegree, e);
      OrderedAdd(init, adjacency, e);
      adjacency := adjacency[e.from := adjacency[e.from] + [e.to]];
      indegree := indegree[e.to := indegree[e.to] + 1];
    }
  }

  /** One turn of the drain loop, as an expression. */
  lemma TurnLooping(nodes: seq<Node>, kept: seq<Edge>, adjacency: map<Key, seq<Key>>, initial: map<Key, int>,
                    visited: seq<Key>, queue: seq<Key>, before: map<Key, int>)
    returns (after: map<Key, int>, freed: seq<Key>)
    requires Tables(KeySet(nodes), Elements(kept), adjacency, initial) && Ordered(kept, adjacency)
    requires Looping(nodes, kept, visited, queue, before) && queue != []
    ensures |visited| < |nodes| && Looping(nodes, kept, visited + [queue[0]], queue[1..] + freed, after)
  {
    LoopKey(nodes, kept, visited, queue, before);
    var nexts := adjacency[queue[0]];
    var wanted := (k: Key) => k in before && before[k] == 1;
    after := map k | k in before :: if k in nexts then before[k] - 1 else before[k];
    freed := SelectKeys(nexts, wanted);
    SelectNoDup(nexts, wanted);
    SuccessorsKnown(KeySet(nodes), Elements(kept), adjacency, initial, queue[0]);
    forall k: Key
      ensures k in freed <==> k in nexts && before[k] == 1
    {
      SelectMember(nexts, wanted, k);
    }
    LoopStep(nodes, kept, adjacency, initial, visited, queue, before, after, freed);
  }

  /** Whatever the graph, its kept edges have a visiting order. */
  lemma DrainExists(nodes: seq<Node>, kept: seq<Edge>) returns (visited: seq<Key>)
    requires AllJoin(KeySet(nodes), kept) && NoDup(kept)
    ensures DrainOrder(nodes, Elements(kept), visited) && DrainComplete(nodes, Elements(kept), visited)
    ensures FifoLaw(nodes, kept, visited)
  {
    var adjacency, initial := KeptTables(KeySet(nodes), kept);
    var indegree := initial;
    var queue := SelectKeys(Keys(nodes), k => k in initial && initial[k] == 0);
    visited := [];
    LoopStart(nodes, kept, indegree, queue);
    while queue != []
      invariant Looping(nodes, kept, visited, queue, indegree)
      decreases |nodes| - |visited|
    {
      var after, freed := TurnLooping(nodes, kept, adjacency, initial, visited, queue, indegree);
      indegree := after;
      visited, queue := visited + [queue[0]], queue[1..] + freed;
    }
    DrainEnd(nodes, Elements(kept), visited, indegree);
    FifoEnd(nodes, kept, visited);
  }

  lemma VisitedExists(g: Graph)
    ensures exists visited :: IsVisited(g, visited)
  {
    var ks := KeySet(g.nodes);
    KeptMember(ks, g.edges);
    var visited := DrainExists(g.nodes, Kept(ks, g.edges));
    assert IsVisited(g, visited);
  }

  ghost predicate IsVisited(g: Graph, visited: seq<Key>) {
    && DrainOrder(g.nodes, EdgeSet(g), visited) && DrainComplete(g.nodes, EdgeSet(g), visited)
    && FifoLaw(g.nodes, Kept(KeySet(g.nodes), g.edges), visited)
  }

  /** The keys in the order in which Kahn's loop visits them. */
  ghost function Visited(g: Graph): (visited: seq<Key>)
    ensures IsVisited(g, visited)
  {
    VisitedExists(g);
    var visited :| IsVisited(g, visited);
    visited
  }

  lemma VisitedUnique(g: Graph, visited: seq<Key>)
    requires FifoLaw(g.nodes, Kept(KeySet(g.nodes), g.edges), visited)
    ensures visited == Visited(g)
  {
    FifoUnique(g.nodes, Kept(KeySet(g.nodes), g.edges), visited, Visited(g));
  }

  ghost predicate InStuckSet(g: Graph, k: Key) {
    exists s :: Stuck(g.nodes, EdgeSet(g), s) && k in s
  }

  /** The cycle message is absent exactly when everything drains. With distinct keys below the sources it
      names the members of stuck sets. */
  lemma CycleMessage(g: Graph)
    ensures CycleErrors(g.nodes, Visited(g)) == [] <==> Drains(g.nodes, EdgeSet(g))
    ensures NoDup(NonSources(g.nodes, EdgeSet(g))) ==>
              forall k :: k in KeySet(g.nodes) && k !in Visited(g) <==> InStuckSet(g, k)
  {
    var nodes, edges, visited := g.nodes, EdgeSet(g), Visited(g);
    DrainedCount(nodes, edges, visited);
    if NoDup(NonSources(nodes, edges)) {
      forall k: Key
        ensures k in KeySet(nodes) && k !in visited <==> InStuckSet(g, k)
      {
        if k in KeySet(nodes) && k !in visited {
          LeftoverInStuckSet(g, k);
        }
        if s :| Stuck(nodes, edges, s) && k in s {
          StuckNeverDrains(nodes, edges, visited, s);
        }
      }
    }
  }

  lemma LeftoverInStuckSet(g: Graph, k: Key)
    requires NoDup(NonSources(g.nodes, EdgeSet(g))) && k in KeySet(g.nodes) && k !in Visited(g)
    ensures InStuckSet(g, k)
  {
    var nodes, edges, visited := g.nodes, EdgeSet(g), Visited(g);
    KeysAreKeySet(nodes);
    SelectMember(Keys(nodes), x => InDegree(edges, x) == 0, k);
    assert k !in visited[..|Sources(nodes, edges)|];
    assert Leftover(nodes, edges, visited, k);
    var s := set v | v in KeySet(nodes) && Leftover(nodes, edges, visited, v);
    assert k in s;
    LeftoverIsStuck(nodes, edges, visited, s);
  }

  /** Validation has nothing to say exactly about the graphs that `Accepts` describes. */
  lemma SilentIffAccepted(g: Graph)
    ensures Messages(g) == [] <==> Accepts(g)
  {
    EdgeErrorsEmpty(KeySet(g.nodes), g.edges);
    CycleMessage(g);
  }

  method ReportUnreachable(nodes: seq<Node>, reachable: set<Key>, ghost edges: set<Edge>, ghost start: Key)
    returns (errors: seq<GraphError>)
    requires forall k :: k in reachable <==> Reachable(edges, start, k)
    ensures errors == UnreachableErrors(edges, start, nodes)
  {
    errors := [];
    for i := 0 to |nodes|
      invariant errors == UnreachableErrors(edges, start, nodes[..i])
    {
      assert nodes[..i + 1][..i] == nodes[..i];
      if nodes[i].key !in reachable {
        errors := errors + [Unreachable(nodes[i].key)];
      }
    }
    assert nodes[..|nodes|] == nodes;
  }

  method ReportCycle(g: Graph, adjacency: map<Key, seq<Key>>, indegree: map<Key, int>)
    returns (report: seq<GraphError>)
    requires Tables(KeySet(g.nodes), EdgeSet(g), adjacency, indegree)
    requires Ordered(Kept(KeySet(g.nodes), g.edges), adjacency)
    ensures report == CycleErrors(g.nodes, Visited(g))
  {
    var visited := Drain(g.nodes, Kept(KeySet(g.nodes), g.edges), adjacency, indegree);
    VisitedUnique(g, visited);
    report := [];
    if |visited| != |g.nodes| {
      report := [Cycle(SelectKeys(Keys(g.nodes), k => k !in visited))];
    }
  }

  /** All messages in order; there are none exactly for the graphs that `Accepts` describes. */
  method ValidateGraph(g: Graph) returns (errors: seq<GraphError>)
    ensures errors == Messages(g)
    ensures errors == [] <==> Accepts(g)
  {
    errors := [];
    if |g.nodes| == 0 {
      errors := errors + [NoNodes];
    }
    var triggers := Triggers(g.nodes);
    if |triggers| != 1 {
      errors := errors + [TriggerCount(|triggers|)];
    }
    assert errors == ShapeErrors(g);
    var edgeErrors, adjacency, indegree := CheckEdges(g);
    var cycle := ReportCycle(g, adjacency, indegree);
    errors := errors + edgeErrors + cycle;
    if triggers != [] && triggers[0].key != "" {
      assert triggers[0] in g.nodes;
      var reachable := Search(KeySet(g.nodes), EdgeSet(g), adjacency, indegree, triggers[0].key);
      var unreachable := ReportUnreachable(g.nodes, reachable, EdgeSet(g), triggers[0].key);
      errors := errors + unreachable;
    }
    SilentIffAccepted(g);
  }

  // ----- what acceptance means when keys are distinct -----

  lemma EdgeSetJoins(g: Graph)
    ensures forall e :: e in EdgeSet(g) ==> Joining(KeySet(g.nodes), e)
  {
    KeptMember(KeySet(g.nodes), g.edges);
  }

  ghost predicate Fed(edges: set<Edge>, s: set<Key>, v: Key) {
    exists u :: u in s && Edge(u, v) in edges
  }

  ghost predicate FedFromWithin(edges: set<Edge>, s: set<Key>) {
    forall v {:trigger Fed(edges, s, v)} :: v in s ==> Fed(edges, s, v)
  }

  /** With distinct keys a key lacks hits from outside a set exactly when it is fed from within. */
  lemma HitsLackIffFed(g: Graph, s: set<Key>, v: Key)
    requires DistinctKeys(g)
    ensures Hits(Outside(Keys(g.nodes), s), EdgeSet(g), v) < InDegree(EdgeSet(g), v) <==> Fed(EdgeSet(g), s, v)
  {
    var edges, outside := EdgeSet(g), Outside(Keys(g.nodes), s);
    EdgeSetJoins(g);
    SelectNoDup(Keys(g.nodes), k => k !in s);
    HitsOfNoDup(outside, edges, v);
    var from := Preds(edges, v) * Elements(outside);
    forall u | u in Preds(edges, v)
      ensures u in from <==> u !in s
    {
      PredsMember(edges, u, v);
      assert Joining(KeySet(g.nodes), Edge(u, v));
      KeysAreKeySet(g.nodes);
      SelectMember(Keys(g.nodes), k => k !in s, u);
    }
    SubsetCardinality(from, Preds(edges, v));
    if Fed(edges, s, v) {
      var u :| u in s && Edge(u, v) in edges;
      PredsMember(edges, u, v);
      assert u in Preds(edges, v) && u !in from;
    } else {
      forall u | u in Preds(edges, v)
        ensures u in from
      {
        PredsMember(edges, u, v);
      }
      assert from == Preds(edges, v);
    }
  }

  /** With distinct keys a set is stuck exactly when every member has a predecessor inside it. */
  lemma StuckMeansFed(g: Graph, s: set<Key>)
    requires DistinctKeys(g) && s != {} && s <= KeySet(g.nodes)
    ensures Stuck(g.nodes, EdgeSet(g), s) <==> FedFromWithin(EdgeSet(g), s)
  {
    var edges := EdgeSet(g);
    if FedFromWithin(edges, s) {
      forall v | v in s
        ensures Hits(Outside(Keys(g.nodes), s), edges, v) < InDegree(edges, v)
      {
        assert Fed(edges, s, v);
        HitsLackIffFed(g, s, v);
      }
    }
    if Stuck(g.nodes, edges, s) {
      forall v | v in s
        ensures Fed(edges, s, v)
      {
        HitsLackIffFed(g, s, v);
      }
    }
  }

  /** A path of any length can be found that stays inside a set fed from within. */
  lemma {:induction false} WalkBack(edges: set<Edge>, s: set<Key>, n: nat) returns (p: seq<Key>)
    requires s != {} && FedFromWithin(edges, s)
    ensures IsPath(edges, p) && |p| == n + 1 && Elements(p) <= s
  {
    if n == 0 {
      var v :| v in s;
      p := [v];
    } else {
      var tail := WalkBack(edges, s, n - 1);
      assert tail[0] in Elements(tail);
      assert Fed(edges, s, tail[0]);
      var u :| u in s && Edge(u, tail[0]) in edges;
      p := [u] + tail;
      assert forall k :: k in p <==> k == u || k in tail;
    }
  }

  lemma FedHasCycle(edges: set<Edge>, s: set<Key>)
    requires s != {} && FedFromWithin(edges, s)
    ensures HasCycle(edges)
  {
    var p := WalkBack(edges, s, |s|);
    CardinalityOfElements(p);
    SubsetCardinality(Elements(p), s);
    var i, j :| 0 <= i < j < |p| && p[i] == p[j];
    var loop := p[i..j + 1];
    assert Joins(edges, p[i], p[i], loop);
    assert Ancestor(edges, p[i], p[i]);
  }

  lemma CycleIsFed(edges: set<Edge>, k: Key, p: seq<Key>)
    requires Joins(edges, k, k, p) && |p| >= 2
    ensures FedFromWithin(edges, Elements(p))
  {
    forall v | v in Elements(p)
      ensures Fed(edges, Elements(p), v)
    {
      var i :| 0 <= i < |p| && p[i] == v;
      var before := if i > 0 then i - 1 else |p| - 2;
      assert p[before] in Elements(p) && Edge(p[before], p[before + 1]) in edges;
    }
  }

  /** With distinct keys everything drains exactly when there is no directed cycle. */
  lemma DrainsIffAcyclic(g: Graph)
    requires DistinctKeys(g)
    ensures Drains(g.nodes, EdgeSet(g)) <==> !HasCycle(EdgeSet(g))
  {
    var edges := EdgeSet(g);
    SelectNoDup(Keys(g.nodes), k => InDegree(edges, k) > 0);
    if s :| Stuck(g.nodes, edges, s) {
      StuckMeansFed(g, s);
      FedHasCycle(edges, s);
    }
    if HasCycle(edges) {
      var k :| Ancestor(edges, k, k);
      var p :| Joins(edges, k, k, p) && |p| >= 2;
      CycleIsFed(edges, k, p);
      FedWithinNodes(g, Elements(p));
      assert p[0] in Elements(p);
      StuckMeansFed(g, Elements(p));
    }
  }

  lemma FedWithinNodes(g: Graph, s: set<Key>)
    requires FedFromWithin(EdgeSet(g), s)
    ensures s <= KeySet(g.nodes)
  {
    EdgeSetJoins(g);
    forall v | v in s
      ensures v in KeySet(g.nodes)
    {
      assert Fed(EdgeSet(g), s, v);
      var u :| u in s && Edge(u, v) in EdgeSet(g);
      assert Joining(KeySet(g.nodes), Edge(u, v));
    }
  }

  ghost predicate WellFormed(g: Graph) {
    && |Triggers(g.nodes)| == 1
    && EdgesJoinNodes(g)
    && PairsDistinct(g.edges)
    && !HasCycle(EdgeSet(g))
    && forall n :: n in g.nodes ==> Reachable(EdgeSet(g), Triggers(g.nodes)[0].key, n.key)
  }

  /** With distinct non-empty keys, a graph is accepted if and only if it has one trigger, its edges join
      known different nodes without repetition, there is no directed cycle, and the trigger reaches everything. */
  lemma AcceptsIffWellFormed(g: Graph)
    requires DistinctKeys(g) && NonEmptyKeys(g)
    ensures Accepts(g) <==> WellFormed(g)
  {
    DrainsIffAcyclic(g);
    if |Triggers(g.nodes)| == 1 {
      assert Triggers(g.nodes)[0] in g.nodes;
    }
  }

  /** An accepted graph's edges are exactly the listed ones, and for keys whose joined pairs tell edges apart
      the distinctness of the pairs is the distinctness of the edges. */
  lemma AcceptedEdges(g: Graph)
    requires EdgesJoinNodes(g)
    ensures PairsDistinct(g.edges) ==> EdgeSet(g) == Elements(g.edges) && NoDup(g.edges)
    ensures PairsDistinct(g.edges) ==> Kept(KeySet(g.nodes), g.edges) == g.edges
    ensures PairsTell(KeySet(g.nodes)) ==> (PairsDistinct(g.edges) <==> NoDup(g.edges))
  {
    EdgeErrorsEmpty(KeySet(g.nodes), g.edges);
    if PairsDistinct(g.edges) {
      assert NoDup(g.edges) by {
        forall i, j | 0 <= i < j < |g.edges|
          ensures g.edges[i] != g.edges[j]
        {
          assert Pair(g.edges[i]) != Pair(g.edges[j]);
        }
      }
    }
    if PairsTell(KeySet(g.nodes)) && NoDup(g.edges) {
      PairsOfDistinct(KeySet(g.nodes), g.edges);
    }
  }

  // ----- what acceptance means without that assumption -----

  lemma ReachedHasPredecessor(edges: set<Edge>, u: Key, v: Key)
    requires Reachable(edges, u, v) && u != v
    ensures InDegree(edges, v) > 0
  {
    var p :| Joins(edges, u, v, p);
    PredsMember(edges, p[|p| - 2], v);
    assert Edge(p[|p| - 2], p[|p| - 1]) in edges;
    assert p[|p| - 2] in Preds(edges, v);
  }

  /** If every key has a predecessor, the set of all keys is stuck. */
  lemma AllStuck(nodes: seq<Node>, edges: set<Edge>)
    requires nodes != [] && forall k :: k in KeySet(nodes) ==> InDegree(edges, k) > 0
    ensures Stuck(nodes, edges, KeySet(nodes))
  {
    var ks := KeySet(nodes);
    assert nodes[0].key in ks;
    KeysAreKeySet(nodes);
    SelectNothing(Keys(nodes), k => k !in ks);
  }

  /** In every accepted graph the trigger's key is the one key without predecessors. */
  lemma TriggerIsOnlySource(g: Graph)
    requires Accepts(g) && NonEmptyKeys(g)
    ensures forall k :: k in KeySet(g.nodes) ==> (InDegree(EdgeSet(g), k) == 0 <==> k == Triggers(g.nodes)[0].key)
  {
    var edges, t := EdgeSet(g), Triggers(g.nodes)[0];
    assert t in g.nodes;
    forall k | k in KeySet(g.nodes) && k != t.key
      ensures InDegree(edges, k) > 0
    {
      ReachedHasPredecessor(edges, t.key, k);
    }
    if InDegree(edges, t.key) > 0 {
      AllStuck(g.nodes, edges);
      assert false;
    }
  }

  /** Uniqueness of keys is never checked, yet in an accepted graph only the trigger's key can repeat. */
  lemma OnlyTriggerKeyRepeats(g: Graph)
    requires Accepts(g) && NonEmptyKeys(g)
    ensures forall k :: k != Triggers(g.nodes)[0].key ==> multiset(Keys(g.nodes))[k] <= 1
    ensures DistinctKeys(g) <==> multiset(Keys(g.nodes))[Triggers(g.nodes)[0].key] == 1
  {
    var edges, ks, t := EdgeSet(g), Keys(g.nodes), Triggers(g.nodes)[0].key;
    TriggerIsOnlySource(g);
    KeysAreKeySet(g.nodes);
    forall k | k != t
      ensures multiset(ks)[k] <= 1
    {
      SelectMember(ks, x => InDegree(edges, x) > 0, k);
      NoDupCount(NonSources(g.nodes, edges), k);
      assert k in ks <==> k in multiset(ks);
    }
    assert t in ks by {
      assert Triggers(g.nodes)[0] in g.nodes;
    }
    if DistinctKeys(g) {
      NoDupCount(ks, t);
    }
    if multiset(ks)[t] == 1 {
      CountsNoDup(ks);
    }
  }
}
