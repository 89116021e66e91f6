/** What each message of validateGraph in lib/dag/schema.ts says about the graph. */
module Diagnostics {
  import opened Graphs
  import opened Sequences
  import opened Validation

  // ----- edges -----

  /** The string that stands for an edge, spelled out. */
  ghost predicate SamePair(d: Edge, e: Edge) {
    d.from + "\0" + d.to == e.from + "\0" + e.to
  }

  /** An earlier proper edge has the same joined pair as the one at place j. */
  ghost predicate Repeats(ks: set<Key>, edges: seq<Edge>, j: nat)
    requires j < |edges|
  {
    exists i :: 0 <= i < j && Joining(ks, edges[i]) && SamePair(edges[i], edges[j])
  }

  /** The message that the edge at place j gets. */
  ghost predicate EdgeMessage(ks: set<Key>, edges: seq<Edge>, j: nat, m: GraphError)
    requires j < |edges|
  {
    var e := edges[j];
    if e.from !in ks || e.to !in ks then m == UnknownNode(e)
    else if e.from == e.to then m == SelfLoop(e)
    else Repeats(ks, edges, j) && m == DuplicateEdge(e)
  }

  lemma PairSame(d: Edge, e: Edge)
    ensures SamePair(d, e) <==> Pair(d) == Pair(e)
  {
    assert d.from + "\0" + d.to == Pair(d) && e.from + "\0" + e.to == Pair(e);
  }

  /** A kept edge has a pair exactly if a proper edge has it. */
  lemma {:induction false} KeptPairs(ks: set<Key>, edges: seq<Edge>, e: Edge)
    ensures (exists k :: k in Kept(ks, edges) && Pair(k) == Pair(e))
       <==> exists i :: 0 <= i < |edges| && Joining(ks, edges[i]) && SamePair(edges[i], e)
  {
    if edges != [] {
      var init, last := edges[..|edges| - 1], edges[|edges| - 1];
      assert edges == init + [last];
      KeptPairs(ks, init, e);
      EdgeErrorsStep(ks, init, last);
      NoProblemIff(ks, Kept(ks, init), last);
      PairSame(last, e);
      KeptMember(ks, init);
      if exists k :: k in Kept(ks, edges) && Pair(k) == Pair(e) {
        KeptPairUp(ks, init, last, e);
      }
      if i :| 0 <= i < |edges| && Joining(ks, edges[i]) && SamePair(edges[i], e) {
        KeptPairDown(ks, init, last, e, i);
      }
    }
  }

  lemma KeptPairUp(ks: set<Key>, init: seq<Edge>, last: Edge, e: Edge)
    requires exists k :: k in Kept(ks, init + [last]) && Pair(k) == Pair(e)
    requires (exists k :: k in Kept(ks, init) && Pair(k) == Pair(e))
        <==> exists i :: 0 <= i < |init| && Joining(ks, init[i]) && SamePair(init[i], e)
    ensures exists i :: 0 <= i < |init + [last]| && Joining(ks, (init + [last])[i]) && SamePair((init + [last])[i], e)
  {
    var edges := init + [last];
    EdgeErrorsStep(ks, init, last);
    var k :| k in Kept(ks, edges) && Pair(k) == Pair(e);
    if k in Kept(ks, init) {
      var i :| 0 <= i < |init| && Joining(ks, init[i]) && SamePair(init[i], e);
      assert edges[i] == init[i];
    } else {
      assert k == last;
      NoProblemIff(ks, Kept(ks, init), last);
      PairSame(last, e);
      assert edges[|init|] == last;
    }
  }

  lemma KeptPairDown(ks: set<Key>, init: seq<Edge>, last: Edge, e: Edge, i: nat)
    requires i <= |init| && Joining(ks, (init + [last])[i]) && SamePair((init + [last])[i], e)
    requires (exists k :: k in Kept(ks, init) && Pair(k) == Pair(e))
        <==> exists i :: 0 <= i < |init| && Joining(ks, init[i]) && SamePair(init[i], e)
    ensures exists k :: k in Kept(ks, init + [last]) && Pair(k) == Pair(e)
  {
    EdgeErrorsStep(ks, init, last);
    NoProblemIff(ks, Kept(ks, init), last);
    PairSame(last, e);
    if i < |init| {
      assert Joining(ks, init[i]) && SamePair(init[i], e);
      var k :| k in Kept(ks, init) && Pair(k) == Pair(e);
      assert k in Kept(ks, init + [last]);
    } else if EdgeProblem(ks, Kept(ks, init), last) == [] {
      assert last in Kept(ks, init + [last]);
    } else {
      var k :| k in Kept(ks, init) && Pair(k) == Pair(last);
      assert k in Kept(ks, init + [last]);
    }
  }

  lemma ProblemMeans(ks: set<Key>, edges: seq<Edge>, j: nat, m: GraphError)
    requires j < |edges|
    ensures m in EdgeProblem(ks, Kept(ks, edges[..j]), edges[j]) <==> EdgeMessage(ks, edges, j, m)
  {
    KeptPairs(ks, edges[..j], edges[j]);
    assert (exists i :: 0 <= i < j && Joining(ks, edges[..j][i]) && SamePair(edges[..j][i], edges[j]))
      <==> Repeats(ks, edges, j) by {
      if i :| 0 <= i < j && Joining(ks, edges[i]) && SamePair(edges[i], edges[j]) {
        assert edges[..j][i] == edges[i];
      }
    }
  }

  ghost predicate SomeBefore(ks: set<Key>, edges: seq<Edge>, n: nat, m: GraphError)
    requires n <= |edges|
  {
    exists j :: 0 <= j < n && EdgeMessage(ks, edges, j, m)
  }

  lemma SomeStep(ks: set<Key>, edges: seq<Edge>, n: nat, m: GraphError)
    requires n < |edges|
    ensures SomeBefore(ks, edges, n + 1, m) <==> SomeBefore(ks, edges, n, m) || EdgeMessage(ks, edges, n, m)
  {
  }

  lemma {:induction false} EdgeErrorsMean(ks: set<Key>, edges: seq<Edge>, n: nat, m: GraphError)
    requires n <= |edges|
    ensures m in EdgeErrors(ks, edges[..n]) <==> SomeBefore(ks, edges, n, m)
  {
    if n > 0 {
      EdgeErrorsMean(ks, edges, n - 1, m);
      PrefixStep(ks, edges, n - 1);
      ProblemMeans(ks, edges, n - 1, m);
      SomeStep(ks, edges, n - 1, m);
    }
  }

  // ----- nodes -----

  ghost function TriggerPlaces(nodes: seq<Node>): set<nat> {
    set i: nat | i < |nodes| && nodes[i].config.Trigger?
  }

  lemma PlacesStep(init: seq<Node>, n: Node)
    ensures TriggerPlaces(init + [n]) == TriggerPlaces(init) + (if n.config.Trigger? then {|init|} else {})
  {
    var nodes := init + [n];
    assert forall i: nat :: i < |init| ==> nodes[i] == init[i];
  }

  lemma {:induction false} TriggersCounted(nodes: seq<Node>)
    ensures |Triggers(nodes)| == |TriggerPlaces(nodes)|
  {
    if nodes == [] {
      assert TriggerPlaces(nodes) == {};
    } else {
      var init, n := nodes[..|nodes| - 1], nodes[|nodes| - 1];
      assert nodes == init + [n];
      TriggersCounted(init);
      PlacesStep(init, n);
    }
  }

  lemma {:induction false} UnreachableMeans(edges: set<Edge>, start: Key, nodes: seq<Node>, m: GraphError)
    ensures m in UnreachableErrors(edges, start, nodes)
       <==> exists n :: n in nodes && !Reachable(edges, start, n.key) && m == Unreachable(n.key)
  {
    if nodes != [] {
      var init, last := nodes[..|nodes| - 1], nodes[|nodes| - 1];
      UnreachableMeans(edges, start, init, m);
      assert forall n :: n in nodes <==> n in init || n == last;
    }
  }

  /** Why a message is given. */
  ghost predicate Justified(g: Graph, m: GraphError) {
    match m
    case NoNodes => g.nodes == []
    case TriggerCount(found) => found == |TriggerPlaces(g.nodes)| != 1
    case UnknownNode(_) => SomeBefore(KeySet(g.nodes), g.edges, |g.edges|, m)
    case SelfLoop(_) => SomeBefore(KeySet(g.nodes), g.edges, |g.edges|, m)
    case DuplicateEdge(_) => SomeBefore(KeySet(g.nodes), g.edges, |g.edges|, m)
    case Cycle(leftover) =>
      |Visited(g)| != |g.nodes| && leftover == SelectKeys(Keys(g.nodes), k => k !in Visited(g))
    case Unreachable(k) =>
      && Triggers(g.nodes) != [] && Triggers(g.nodes)[0].key != "" && k in KeySet(g.nodes)
      && !Reachable(EdgeSet(g), Triggers(g.nodes)[0].key, k)
  }

  /** The order in which the kinds of messages come. */
  function Rank(m: GraphError): nat {
    match m
    case NoNodes => 0
    case TriggerCount(_) => 1
    case UnknownNode(_) => 2
    case SelfLoop(_) => 2
    case DuplicateEdge(_) => 2
    case Cycle(_) => 3
    case Unreachable(_) => 4
  }

  ghost predicate InRank(ms: seq<GraphError>, low: nat, high: nat) {
    && (forall m :: m in ms ==> low <= Rank(m) <= high)
    && forall i, j :: 0 <= i < j < |ms| ==> Rank(ms[i]) <= Rank(ms[j])
  }

  lemma RanksJoin(a: seq<GraphError>, b: seq<GraphError>, low: nat, middle: nat, high: nat)
    requires InRank(a, low, middle) && InRank(b, middle, high) && low <= middle <= high
    ensures InRank(a + b, low, high)
  {
    var both := a + b;
    forall i, j | 0 <= i < j < |both|
      ensures Rank(both[i]) <= Rank(both[j])
    {
      if i < |a| <= j {
        assert a[i] in a && b[j - |a|] in b;
      }
    }
  }

  lemma SameRank(ms: seq<GraphError>, r: nat)
    requires forall m :: m in ms ==> Rank(m) == r
    ensures InRank(ms, r, r)
  {
    forall i, j | 0 <= i < j < |ms|
      ensures Rank(ms[i]) <= Rank(ms[j])
    {
      assert ms[i] in ms && ms[j] in ms;
    }
  }

  lemma EdgeErrorsJustified(g: Graph, m: GraphError)
    ensures m in EdgeErrors(KeySet(g.nodes), g.edges) <==> SomeBefore(KeySet(g.nodes), g.edges, |g.edges|, m)
    ensures m in EdgeErrors(KeySet(g.nodes), g.edges) ==> Rank(m) == 2
  {
    assert g.edges[..|g.edges|] == g.edges;
    EdgeErrorsMean(KeySet(g.nodes), g.edges, |g.edges|, m);
  }

  lemma ReachabilityJustified(g: Graph, m: GraphError)
    ensures m in ReachabilityErrors(g) <==> m.Unreachable? && Justified(g, m)
  {
    if Triggers(g.nodes) != [] && Triggers(g.nodes)[0].key != "" {
      UnreachableMeans(EdgeSet(g), Triggers(g.nodes)[0].key, g.nodes, m);
    }
  }

  lemma ShapeJustified(g: Graph, m: GraphError)
    ensures m in ShapeErrors(g) <==> (m.NoNodes? || m.TriggerCount?) && Justified(g, m)
  {
    TriggersCounted(g.nodes);
  }

  lemma CycleJustified(g: Graph, m: GraphError)
    ensures m in CycleErrors(g.nodes, Visited(g)) <==> m.Cycle? && Justified(g, m)
  {
  }

  lemma MessageFrom(g: Graph, m: GraphError)
    ensures m in Messages(g) <==> m in ShapeErrors(g) || m in EdgeErrors(KeySet(g.nodes), g.edges)
                                  || m in CycleErrors(g.nodes, Visited(g)) || m in ReachabilityErrors(g)
  {
  }

  lemma PartsRanked(shape: seq<GraphError>, edgeErrors: seq<GraphError>, cycle: seq<GraphError>,
                    unreachable: seq<GraphError>)
    requires InRank(shape, 0, 1) && InRank(edgeErrors, 2, 2) && InRank(cycle, 3, 3) && InRank(unreachable, 4, 4)
    ensures InRank(shape + edgeErrors + cycle + unreachable, 0, 4)
  {
    RanksJoin(shape, edgeErrors, 0, 2, 2);
    RanksJoin(shape + edgeErrors, cycle, 0, 3, 3);
    RanksJoin(shape + edgeErrors + cycle, unreachable, 0, 4, 4);
  }

  lemma EdgeErrorsRanked(g: Graph)
    ensures InRank(EdgeErrors(KeySet(g.nodes), g.edges), 2, 2)
  {
    var ms := EdgeErrors(KeySet(g.nodes), g.edges);
    forall m | m in ms
      ensures Rank(m) == 2
    {
      EdgeErrorsJustified(g, m);
    }
    SameRank(ms, 2);
  }

  lemma ReachabilityRanked(g: Graph)
    ensures InRank(ReachabilityErrors(g), 4, 4)
  {
    var ms := ReachabilityErrors(g);
    forall m | m in ms
      ensures Rank(m) == 4
    {
      ReachabilityJustified(g, m);
    }
    SameRank(ms, 4);
  }

  lemma ShapeRanked(g: Graph)
    ensures InRank(ShapeErrors(g), 0, 1)
  {
  }

  lemma CycleRanked(nodes: seq<Node>, visited: seq<Key>)
    ensures InRank(CycleErrors(nodes, visited), 3, 3)
  {
  }

  lemma MessagesRanked(g: Graph, visited: seq<Key>)
    ensures InRank(MessagesFrom(g, visited), 0, 4)
  {
    ShapeRanked(g);
    EdgeErrorsRanked(g);
    CycleRanked(g.nodes, visited);
    ReachabilityRanked(g);
    PartsRanked(ShapeErrors(g), EdgeErrors(KeySet(g.nodes), g.edges), CycleErrors(g.nodes, visited),
                ReachabilityErrors(g));
  }

  /** Validation gives exactly the messages that are justified, the kinds one after the other. */
  lemma MessagesMean(g: Graph)
    ensures forall m :: m in Messages(g) <==> Justified(g, m)
    ensures InRank(Messages(g), 0, 4)
  {
    forall m: GraphError
      ensures m in Messages(g) <==> Justified(g, m)
    {
      MessageFrom(g, m);
      ShapeJustified(g, m);
      EdgeErrorsJustified(g, m);
      CycleJustified(g, m);
      ReachabilityJustified(g, m);
    }
    MessagesRanked(g, Visited(g));
  }
}
