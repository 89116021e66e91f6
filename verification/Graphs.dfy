/** Workflow graphs (lib/dag/schema.ts): the data model, and what it means for a graph to be acceptable. */
module Graphs {
  import opened Paths
  import opened Sequences

  type Key = string

  datatype Operator =
    | Exists | NotExists | Eq | Neq | Gt | Gte | Lt | Lte | Contains | StartsWith | EndsWith | Regex

  datatype Mode = All | Any

  datatype Condition = Condition(path: string, operator: Operator, value: Json)

  datatype Mapping = Mapping(from: string, to: string)

  datatype TriggerConfig =
    | Webhook(endpointSlug: string)
    | Schedule(cron: string, timezone: string)
    | AppEvent(eventName: string)

  datatype Config =
    | Trigger(trigger: TriggerConfig)
    | Filter(mode: Mode, conditions: seq<Condition>)
    | Transform(mappings: seq<Mapping>)
    | Action

  datatype Node = Node(key: Key, config: Config)

  datatype Edge = Edge(from: Key, to: Key)

  datatype Graph = Graph(nodes: seq<Node>, edges: seq<Edge>)

  datatype GraphError =
    | NoNodes
    | TriggerCount(found: nat)
    | UnknownNode(edge: Edge)
    | SelfLoop(edge: Edge)
    | DuplicateEdge(edge: Edge)
    | Cycle(leftover: seq<Key>)
    | Unreachable(key: Key)

  // ----- keys -----

  function Keys(nodes: seq<Node>): (ks: seq<Key>)
    ensures |ks| == |nodes| && forall i :: 0 <= i < |ks| ==> ks[i] == nodes[i].key
  {
    seq(|nodes|, i requires 0 <= i < |nodes| => nodes[i].key)
  }

  function KeySet(nodes: seq<Node>): set<Key> {
    set n | n in nodes :: n.key
  }

  function Triggers(nodes: seq<Node>): (ts: seq<Node>)
    ensures forall t :: t in ts ==> t in nodes && t.config.Trigger?
  {
    if nodes == [] then []
    else Triggers(nodes[..|nodes| - 1]) + (if nodes[|nodes| - 1].config.Trigger? then [nodes[|nodes| - 1]] else [])
  }

  ghost predicate DistinctKeys(g: Graph) {
    NoDup(Keys(g.nodes))
  }

  /** The field schema of a node key asks for at least one character. */
  predicate NonEmptyKeys(g: Graph) {
    forall n :: n in g.nodes ==> n.key != ""
  }

  lemma KeysAreKeySet(nodes: seq<Node>)
    ensures Elements(Keys(nodes)) == KeySet(nodes)
    ensures forall k :: k in Keys(nodes) <==> k in KeySet(nodes)
  {
    forall k | k in KeySet(nodes)
      ensures k in Keys(nodes)
    {
      var i :| 0 <= i < |nodes| && nodes[i].key == k;
      assert Keys(nodes)[i] == k;
    }
    forall k | k in Keys(nodes)
      ensures k in KeySet(nodes)
    {
      var i :| 0 <= i < |nodes| && Keys(nodes)[i] == k;
      assert nodes[i] in nodes;
    }
  }

  // ----- edges -----

  /** The string under which an edge is remembered; the two keys are joined by a NUL character. */
  function Pair(e: Edge): string {
    e.from + ['\0'] + e.to
  }

  function EdgeProblem(ks: set<Key>, kept: seq<Edge>, e: Edge): (problem: seq<GraphError>)
    ensures |problem| <= 1
  {
    if e.from !in ks || e.to !in ks then [UnknownNode(e)]
    else if e.from == e.to then [SelfLoop(e)]
    else if exists k :: k in kept && Pair(k) == Pair(e) then [DuplicateEdge(e)]
    else []
  }

  /** The edges that survive the checks, in order. */
  function Kept(ks: set<Key>, edges: seq<Edge>): seq<Edge> {
    if edges == [] then []
    else
      var kept, e := Kept(ks, edges[..|edges| - 1]), edges[|edges| - 1];
      if EdgeProblem(ks, kept, e) == [] then kept + [e] else kept
  }

  /** One message for each edge that does not survive, in order. */
  function EdgeErrors(ks: set<Key>, edges: seq<Edge>): seq<GraphError> {
    if edges == [] then []
    else
      var init, e := edges[..|edges| - 1], edges[|edges| - 1];
      EdgeErrors(ks, init) + EdgeProblem(ks, Kept(ks, init), e)
  }

  ghost function EdgeSet(g: Graph): set<Edge> {
    Elements(Kept(KeySet(g.nodes), g.edges))
  }

  /** Every edge joins two different known nodes. */
  ghost predicate EdgesJoinNodes(g: Graph) {
    AllJoin(KeySet(g.nodes), g.edges)
  }

  ghost predicate PairsDistinct(edges: seq<Edge>) {
    forall i, j :: 0 <= i < j < |edges| ==> Pair(edges[i]) != Pair(edges[j])
  }

  ghost predicate Joining(ks: set<Key>, e: Edge) {
    e.from in ks && e.to in ks && e.from != e.to
  }

  lemma PairsDistinctStep(init: seq<Edge>, e: Edge)
    ensures PairsDistinct(init + [e]) <==> PairsDistinct(init) && forall k :: k in init ==> Pair(k) != Pair(e)
  {
    var edges := init + [e];
    if PairsDistinct(edges) {
      forall i, j | 0 <= i < j < |init|
        ensures Pair(init[i]) != Pair(init[j])
      {
        assert init[i] == edges[i] && init[j] == edges[j];
      }
      forall k | k in init
        ensures Pair(k) != Pair(e)
      {
        var i :| 0 <= i < |init| && init[i] == k;
        assert edges[i] == k && edges[|init|] == e;
      }
    }
  }

  ghost predicate AllJoin(ks: set<Key>, edges: seq<Edge>) {
    forall e :: e in edges ==> Joining(ks, e)
  }

  lemma AllJoinStep(ks: set<Key>, init: seq<Edge>, e: Edge)
    ensures AllJoin(ks, init + [e]) <==> AllJoin(ks, init) && Joining(ks, e)
  {
    assert forall x :: x in init + [e] <==> x in init || x == e;
  }

  /** What the checks say about one more edge. */
  lemma EdgeErrorsStep(ks: set<Key>, init: seq<Edge>, e: Edge)
    ensures EdgeErrors(ks, init + [e]) == EdgeErrors(ks, init) + EdgeProblem(ks, Kept(ks, init), e)
    ensures Kept(ks, init + [e]) == Kept(ks, init) + (if EdgeProblem(ks, Kept(ks, init), e) == [] then [e] else [])
  {
    assert (init + [e])[..|init|] == init;
  }

  lemma NoProblemIff(ks: set<Key>, kept: seq<Edge>, e: Edge)
    ensures EdgeProblem(ks, kept, e) == [] <==> Joining(ks, e) && forall k :: k in kept ==> Pair(k) != Pair(e)
  {
  }

  /** The edge checks are silent exactly when all edges join two different known nodes under distinct pairs. */
  lemma {:induction false} EdgeErrorsEmpty(ks: set<Key>, edges: seq<Edge>)
    ensures EdgeErrors(ks, edges) == [] <==> AllJoin(ks, edges) && PairsDistinct(edges)
    ensures EdgeErrors(ks, edges) == [] ==> Kept(ks, edges) == edges
  {
    if edges != [] {
      var init, e := edges[..|edges| - 1], edges[|edges| - 1];
      assert edges == init + [e];
      EdgeErrorsEmpty(ks, init);
      EdgeErrorsStep(ks, init, e);
      PairsDistinctStep(init, e);
      AllJoinStep(ks, init, e);
      NoProblemIff(ks, Kept(ks, init), e);
    }
  }

  /** Without NUL characters in keys the joined pair determines the edge. */
  lemma {:induction false} PairInjective(d: Edge, e: Edge)
    requires '\0' !in d.from && '\0' !in e.from
    ensures Pair(d) == Pair(e) <==> d == e
  {
    if Pair(d) == Pair(e) {
      assert Pair(d)[|d.from|] == Pair(e)[|d.from|] && Pair(d)[|e.from|] == Pair(e)[|e.from|];
      assert |d.from| == |e.from|;
      assert d.from == Pair(d)[..|d.from|] == Pair(e)[..|e.from|] == e.from;
      assert d.to == Pair(d)[|d.from| + 1..] == Pair(e)[|e.from| + 1..] == e.to;
    }
  }

  /** The joined pair tells any two edges between these keys apart. */
  ghost predicate PairsTell(ks: set<Key>) {
    forall d, e :: Joining(ks, d) && Joining(ks, e) && Pair(d) == Pair(e) ==> d == e
  }

  /** The edge checks are silent on every list of distinct edges between known different nodes exactly when
      the keys are such that the joined pair tells edges apart. */
  lemma DistinctEdgesPass(ks: set<Key>)
    ensures PairsTell(ks)
       <==> forall edges :: AllJoin(ks, edges) && NoDup(edges) ==> EdgeErrors(ks, edges) == []
  {
    if PairsTell(ks) {
      forall edges | AllJoin(ks, edges) && NoDup(edges)
        ensures EdgeErrors(ks, edges) == []
      {
        PairsOfDistinct(ks, edges);
        EdgeErrorsEmpty(ks, edges);
      }
    } else {
      var d, e :| Joining(ks, d) && Joining(ks, e) && Pair(d) == Pair(e) && d != e;
      var edges := [d, e];
      EdgeErrorsEmpty(ks, edges);
      assert Pair(edges[0]) == Pair(edges[1]);
      assert AllJoin(ks, edges) && NoDup(edges) && EdgeErrors(ks, edges) != [];
    }
  }

  lemma PairsOfDistinct(ks: set<Key>, edges: seq<Edge>)
    requires PairsTell(ks) && AllJoin(ks, edges) && NoDup(edges)
    ensures PairsDistinct(edges)
  {
    forall i, j | 0 <= i < j < |edges|
      ensures Pair(edges[i]) != Pair(edges[j])
    {
      assert edges[i] in edges && edges[j] in edges;
      assert Joining(ks, edges[i]) && Joining(ks, edges[j]);
    }
  }

  /** Keys without NUL are such keys. */
  lemma NulFreeTells(ks: set<Key>)
    requires forall k :: k in ks ==> '\0' !in k
    ensures PairsTell(ks)
  {
    forall d, e | Joining(ks, d) && Joining(ks, e) && Pair(d) == Pair(e)
      ensures d == e
    {
      PairInjective(d, e);
    }
  }

  /** Keys with NUL need not be: two different edges between these four are taken for the same one. */
  lemma PairCollision()
    ensures !PairsTell({"a", "b\0c", "a\0b", "c"})
  {
    var d, e := Edge("a", "b\0c"), Edge("a\0b", "c");
    assert Pair(d) == "a\0b\0c" == Pair(e);
    assert d.from != e.from;
    assert d.from != d.to && e.from != e.to by {
      assert |d.from| != |d.to| && |e.from| != |e.to|;
    }
    assert Joining({"a", "b\0c", "a\0b", "c"}, d) && Joining({"a", "b\0c", "a\0b", "c"}, e);
  }

  // ----- paths in a set of edges -----

  ghost predicate IsPath(edges: set<Edge>, p: seq<Key>) {
    |p| >= 1 && forall i :: 0 <= i < |p| - 1 ==> Edge(p[i], p[i + 1]) in edges
  }

  ghost predicate Joins(edges: set<Edge>, u: Key, v: Key, p: seq<Key>) {
    IsPath(edges, p) && p[0] == u && p[|p| - 1] == v
  }

  ghost predicate Reachable(edges: set<Edge>, u: Key, v: Key) {
    exists p :: Joins(edges, u, v, p)
  }

  /** v can be reached from u in at least one step. */
  ghost predicate Ancestor(edges: set<Edge>, u: Key, v: Key) {
    exists p :: Joins(edges, u, v, p) && |p| >= 2
  }

  ghost predicate HasCycle(edges: set<Edge>) {
    exists k :: Ancestor(edges, k, k)
  }

  lemma ReachableStep(edges: set<Edge>, u: Key, v: Key, w: Key)
    requires Reachable(edges, u, v) && Edge(v, w) in edges
    ensures Reachable(edges, u, w)
  {
    var p :| Joins(edges, u, v, p);
    assert Joins(edges, u, w, p + [w]);
  }

  /** A set that holds the start and is closed under successors holds everything reachable. */
  lemma {:induction false} ReachableInClosed(edges: set<Edge>, closed: set<Key>, p: seq<Key>)
    requires IsPath(edges, p) && p[0] in closed
    requires forall e :: e in edges && e.from in closed ==> e.to in closed
    ensures p[|p| - 1] in closed
  {
    if |p| > 1 {
      var init := p[..|p| - 1];
      ReachableInClosed(edges, closed, init);
      assert Edge(p[|p| - 2], p[|p| - 1]) in edges;
    }
  }

  // ----- the drain process of Kahn's algorithm, declaratively -----

  function Preds(edges: set<Edge>, v: Key): set<Key> {
    set e | e in edges && e.to == v :: e.from
  }

  function InDegree(edges: set<Edge>, v: Key): nat {
    |Preds(edges, v)|
  }

  /** How many positions of `ks` hold a predecessor of `v`. */
  function Hits(ks: seq<Key>, edges: set<Edge>, v: Key): nat {
    if ks == [] then 0
    else Hits(ks[..|ks| - 1], edges, v) + (if Edge(ks[|ks| - 1], v) in edges then 1 else 0)
  }

  function SelectKeys(ks: seq<Key>, wanted: Key -> bool): (r: seq<Key>)
    ensures forall k :: k in r ==> k in ks && wanted(k)
  {
    if ks == [] then []
    else SelectKeys(ks[..|ks| - 1], wanted) + (if wanted(ks[|ks| - 1]) then [ks[|ks| - 1]] else [])
  }

  function Sources(nodes: seq<Node>, edges: set<Edge>): seq<Key> {
    SelectKeys(Keys(nodes), k => InDegree(edges, k) == 0)
  }

  function NonSources(nodes: seq<Node>, edges: set<Edge>): seq<Key> {
    SelectKeys(Keys(nodes), k => InDegree(edges, k) > 0)
  }

  function Outside(ks: seq<Key>, inside: set<Key>): seq<Key> {
    SelectKeys(ks, k => k !in inside)
  }

  /** A set of keys that can never drain: each member has more predecessors than there are nodes outside
      the set to account for them. Nodes are counted one by one, so a repeated key counts repeatedly. */
  ghost predicate Stuck(nodes: seq<Node>, edges: set<Edge>, s: set<Key>) {
    && s != {}
    && (forall v :: v in s ==> v in KeySet(nodes) && InDegree(edges, v) > 0)
    && (forall v :: v in s ==> Hits(Outside(Keys(nodes), s), edges, v) < InDegree(edges, v))
  }

  ghost predicate Drains(nodes: seq<Node>, edges: set<Edge>) {
    && NoDup(NonSources(nodes, edges))
    && forall s :: !Stuck(nodes, edges, s)
  }

  ghost predicate AllReachable(g: Graph) {
    var ts := Triggers(g.nodes);
    ts != [] && ts[0].key != "" ==> forall n :: n in g.nodes ==> Reachable(EdgeSet(g), ts[0].key, n.key)
  }

  /** What validation accepts, for any graph whatever. */
  ghost predicate Accepts(g: Graph) {
    && g.nodes != []
    && |Triggers(g.nodes)| == 1
    && EdgesJoinNodes(g)
    && PairsDistinct(g.edges)
    && Drains(g.nodes, EdgeSet(g))
    && AllReachable(g)
  }
}
