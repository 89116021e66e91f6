/** What validation and sorting are worth when node keys repeat: lib/dag/schema.ts promises unique keys but
    never checks them. Both guarantees, no cycle and ancestors first, hold exactly for the node lists that are
    not exposed. */
module RepeatedKeys {
  import opened Actions
  import opened Draining
  import opened Graphs
  import opened Results
  import opened Runner
  import opened Sequences
  import opened Sorting
  import opened Validation

  /** One trigger, keys as the field schema asks for them, and no two edges with the same joined pair. */
  ghost predicate Usable(nodes: seq<Node>) {
    && |Triggers(nodes)| == 1
    && (forall n :: n in nodes ==> n.key != "")
    && PairsTell(KeySet(nodes))
  }

  function TriggerKey(nodes: seq<Node>): Key
    requires |Triggers(nodes)| == 1
  {
    Triggers(nodes)[0].key
  }

  /** The trigger's key repeats, there are at least two other keys, and none of them repeats. */
  ghost predicate Exposed(nodes: seq<Node>)
    requires |Triggers(nodes)| == 1
  {
    && multiset(Keys(nodes))[TriggerKey(nodes)] != 1
    && |KeySet(nodes)| > 2
    && forall k :: k != TriggerKey(nodes) ==> multiset(Keys(nodes))[k] <= 1
  }

  // ----- a cyclic graph over every exposed node list -----

  ghost predicate LoopArguments(nodes: seq<Node>, a: Key, b: Key) {
    && Usable(nodes) && Exposed(nodes)
    && a in KeySet(nodes) && b in KeySet(nodes) && a != b
    && a != TriggerKey(nodes) && b != TriggerKey(nodes)
  }

  function Others(nodes: seq<Node>, t: Key, a: Key): seq<Key> {
    SelectKeys(Keys(nodes), k => k != t && k != a)
  }

  function FanOut(a: Key, ks: seq<Key>): (edges: seq<Edge>)
    ensures |edges| == |ks| && forall i :: 0 <= i < |ks| ==> edges[i] == Edge(a, ks[i])
  {
    seq(|ks|, i requires 0 <= i < |ks| => Edge(a, ks[i]))
  }

  /** The trigger leads to a, a to all other keys, and one of them back to a. */
  function LoopGraph(nodes: seq<Node>, a: Key, b: Key): Graph
    requires |Triggers(nodes)| == 1
  {
    var t := TriggerKey(nodes);
    Graph(nodes, [Edge(t, a), Edge(b, a)] + FanOut(a, Others(nodes, t, a)))
  }

  lemma LoopMember(nodes: seq<Node>, a: Key, b: Key, e: Edge)
    requires LoopArguments(nodes, a, b)
    ensures var t := TriggerKey(nodes);
            e in LoopGraph(nodes, a, b).edges
            <==> e == Edge(t, a) || e == Edge(b, a)
                 || (e.from == a && e.to in KeySet(nodes) && e.to != t && e.to != a)
  {
    var t := TriggerKey(nodes);
    var others := Others(nodes, t, a);
    var fan := FanOut(a, others);
    KeysAreKeySet(nodes);
    SelectMember(Keys(nodes), k => k != t && k != a, e.to);
    assert e in LoopGraph(nodes, a, b).edges <==> e == Edge(t, a) || e == Edge(b, a) || e in fan;
    if e.from == a && e.to in others {
      var i :| 0 <= i < |others| && others[i] == e.to;
      assert fan[i] == e;
    }
  }

  lemma OthersNoDup(nodes: seq<Node>, t: Key, a: Key)
    requires forall k :: k != t ==> multiset(Keys(nodes))[k] <= 1
    ensures NoDup(Others(nodes, t, a))
  {
    forall k: Key
      ensures multiset(Others(nodes, t, a))[k] <= 1
    {
      SelectMember(Keys(nodes), x => x != t && x != a, k);
    }
    CountsNoDup(Others(nodes, t, a));
  }

  lemma LoopNoDup(nodes: seq<Node>, a: Key, b: Key)
    requires LoopArguments(nodes, a, b)
    ensures NoDup(LoopGraph(nodes, a, b).edges)
  {
    var t, edges := TriggerKey(nodes), LoopGraph(nodes, a, b).edges;
    var others := Others(nodes, t, a);
    OthersNoDup(nodes, t, a);
    forall i, j | 0 <= i < j < |edges|
      ensures edges[i] != edges[j]
    {
      assert i >= 2 ==> edges[i] == Edge(a, others[i - 2]);
      assert j >= 2 ==> edges[j] == Edge(a, others[j - 2]);
    }
  }

  lemma LoopEdges(nodes: seq<Node>, a: Key, b: Key)
    requires LoopArguments(nodes, a, b)
    ensures var g := LoopGraph(nodes, a, b);
            EdgesJoinNodes(g) && PairsDistinct(g.edges) && EdgeSet(g) == Elements(g.edges)
  {
    var g := LoopGraph(nodes, a, b);
    TriggerKeyKnown(nodes);
    forall e | e in g.edges
      ensures Joining(KeySet(nodes), e)
    {
      LoopMember(nodes, a, b, e);
    }
    LoopNoDup(nodes, a, b);
    AcceptedEdges(g);
  }

  lemma TriggerKeyKnown(nodes: seq<Node>)
    requires |Triggers(nodes)| == 1
    ensures TriggerKey(nodes) in KeySet(nodes) && multiset(Keys(nodes))[TriggerKey(nodes)] >= 1
  {
    NonEmptyFromTrigger(Graph(nodes, []));
    KeysAreKeySet(nodes);
    assert TriggerKey(nodes) in multiset(Keys(nodes));
  }

  lemma LoopPred(nodes: seq<Node>, a: Key, b: Key, u: Key, v: Key)
    requires LoopArguments(nodes, a, b)
    ensures var t := TriggerKey(nodes);
            u in Preds(EdgeSet(LoopGraph(nodes, a, b)), v)
            <==> (v == a && (u == t || u == b)) || (u == a && v in KeySet(nodes) && v != t && v != a)
  {
    LoopEdges(nodes, a, b);
    PredsMember(EdgeSet(LoopGraph(nodes, a, b)), u, v);
    LoopMember(nodes, a, b, Edge(u, v));
  }

  lemma LoopPreds(nodes: seq<Node>, a: Key, b: Key)
    requires LoopArguments(nodes, a, b)
    ensures var t, edges := TriggerKey(nodes), EdgeSet(LoopGraph(nodes, a, b));
            && InDegree(edges, t) == 0 && InDegree(edges, a) == 2
            && (forall x :: x in KeySet(nodes) && x != t && x != a ==> InDegree(edges, x) == 1)
  {
    var t, edges := TriggerKey(nodes), EdgeSet(LoopGraph(nodes, a, b));
    forall u: Key, v: Key
      ensures u in Preds(edges, v)
         <==> (v == a && (u == t || u == b)) || (u == a && v in KeySet(nodes) && v != t && v != a)
    {
      LoopPred(nodes, a, b, u, v);
    }
    assert Preds(edges, t) == {};
    assert Preds(edges, a) == {t, b};
    forall x | x in KeySet(nodes) && x != t && x != a
      ensures InDegree(edges, x) == 1
    {
      assert Preds(edges, x) == {a};
    }
  }

  /** The nodes that share the trigger's key outvote the edge that closes the cycle. */
  lemma LoopNotStuck(nodes: seq<Node>, a: Key, b: Key, s: set<Key>)
    requires LoopArguments(nodes, a, b)
    ensures !Stuck(nodes, EdgeSet(LoopGraph(nodes, a, b)), s)
  {
    var t, edges := TriggerKey(nodes), EdgeSet(LoopGraph(nodes, a, b));
    LoopPreds(nodes, a, b);
    LoopEdges(nodes, a, b);
    LoopMember(nodes, a, b, Edge(t, a));
    SelectMember(Keys(nodes), k => k !in s, t);
    SelectMember(Keys(nodes), k => k !in s, a);
    HitsAtLeast(Outside(Keys(nodes), s), edges, t, a);
    TriggerKeyKnown(nodes);
    KeysAreKeySet(nodes);
    assert a in multiset(Keys(nodes));
    if Stuck(nodes, edges, s) {
      assert t !in s && a !in s;
      var x :| x in s;
      LoopMember(nodes, a, b, Edge(a, x));
      HitsAtLeast(Outside(Keys(nodes), s), edges, a, x);
      assert false;
    }
  }

  lemma LoopDrains(nodes: seq<Node>, a: Key, b: Key)
    requires LoopArguments(nodes, a, b)
    ensures Drains(nodes, EdgeSet(LoopGraph(nodes, a, b)))
  {
    var edges := EdgeSet(LoopGraph(nodes, a, b));
    LoopPreds(nodes, a, b);
    forall k: Key
      ensures multiset(NonSources(nodes, edges))[k] <= 1
    {
      SelectMember(Keys(nodes), x => InDegree(edges, x) > 0, k);
    }
    CountsNoDup(NonSources(nodes, edges));
    forall s: set<Key>
      ensures !Stuck(nodes, edges, s)
    {
      LoopNotStuck(nodes, a, b, s);
    }
  }

  lemma LoopReaches(nodes: seq<Node>, a: Key, b: Key, x: Key)
    requires LoopArguments(nodes, a, b) && x in KeySet(nodes)
    ensures Reachable(EdgeSet(LoopGraph(nodes, a, b)), TriggerKey(nodes), x)
  {
    var t, edges := TriggerKey(nodes), EdgeSet(LoopGraph(nodes, a, b));
    LoopEdges(nodes, a, b);
    LoopMember(nodes, a, b, Edge(t, a));
    LoopMember(nodes, a, b, Edge(a, x));
    assert Joins(edges, t, t, [t]);
    ReachableStep(edges, t, t, a);
    if x != t && x != a {
      ReachableStep(edges, t, a, x);
    }
  }

  /** Over every exposed node list there is a cyclic graph that is accepted, whatever two further keys make
      up the cycle. */
  lemma LoopAccepted(nodes: seq<Node>, a: Key, b: Key)
    requires LoopArguments(nodes, a, b)
    ensures Accepts(LoopGraph(nodes, a, b))
    ensures Ancestor(EdgeSet(LoopGraph(nodes, a, b)), b, a) && HasCycle(EdgeSet(LoopGraph(nodes, a, b)))
  {
    var g := LoopGraph(nodes, a, b);
    LoopEdges(nodes, a, b);
    LoopDrains(nodes, a, b);
    forall n | n in nodes
      ensures Reachable(EdgeSet(g), TriggerKey(nodes), n.key)
    {
      LoopReaches(nodes, a, b, n.key);
    }
    LoopMember(nodes, a, b, Edge(b, a));
    LoopMember(nodes, a, b, Edge(a, b));
    assert Joins(EdgeSet(g), b, a, [b, a]);
    assert Joins(EdgeSet(g), b, b, [b, a, b]);
    assert Ancestor(EdgeSet(g), b, b);
  }

  // ----- the node lists for which acceptance excludes cycles -----

  lemma ThreeKeys(ks: set<Key>, x: Key, y: Key, z: Key)
    requires x in ks && y in ks && z in ks && x != y && y != z && z != x
    ensures |ks| > 2
  {
    SubsetCardinality({x, y, z}, ks);
  }

  lemma {:induction false} MoreKeys(ks: set<Key>, t: Key) returns (a: Key, b: Key)
    requires t in ks && |ks| > 2
    ensures a in ks && b in ks && a != b && a != t && b != t
  {
    assert |ks - {t}| == |ks| - 1;
    a :| a in ks - {t};
    assert |ks - {t} - {a}| == |ks| - 2;
    b :| b in ks - {t} - {a};
  }

  lemma OtherKey(ks: set<Key>, t: Key, a: Key) returns (b: Key)
    requires t in ks && a in ks && a != t && |ks| > 2
    ensures b in ks && b != a && b != t
  {
    assert |ks - {t}| == |ks| - 1;
    assert |ks - {t} - {a}| == |ks| - 2;
    b :| b in ks - {t} - {a};
  }

  /** A cycle in an accepted graph keeps clear of the trigger's key and so needs two further keys. */
  lemma CycleNeedsKeys(g: Graph, k: Key)
    requires Accepts(g) && NonEmptyKeys(g) && Ancestor(EdgeSet(g), k, k)
    ensures |KeySet(g.nodes)| > 2
  {
    var edges, t := EdgeSet(g), TriggerKey(g.nodes);
    var p :| Joins(edges, k, k, p) && |p| >= 2;
    var j := p[|p| - 2];
    assert Edge(p[|p| - 2], p[|p| - 1]) in edges;
    EdgeSetJoins(g);
    TriggerIsOnlySource(g);
    TriggerKeyKnown(g.nodes);
    assert Joining(KeySet(g.nodes), Edge(j, k));
    NotSource(edges, j, k);
    assert |p| >= 3;
    assert Edge(p[|p| - 3], p[|p| - 2]) in edges;
    NotSource(edges, p[|p| - 3], j);
    ThreeKeys(KeySet(g.nodes), t, j, k);
  }

  lemma NotSource(edges: set<Edge>, u: Key, v: Key)
    requires Edge(u, v) in edges
    ensures InDegree(edges, v) > 0
  {
    PredsMember(edges, u, v);
    assert u in Preds(edges, v);
  }

  lemma UnexposedAcyclic(g: Graph)
    requires Accepts(g) && NonEmptyKeys(g) && !Exposed(g.nodes)
    ensures !HasCycle(EdgeSet(g))
  {
    OnlyTriggerKeyRepeats(g);
    if multiset(Keys(g.nodes))[TriggerKey(g.nodes)] == 1 {
      DrainsIffAcyclic(g);
    } else if k :| Ancestor(EdgeSet(g), k, k) {
      CycleNeedsKeys(g, k);
    }
  }

  /** Acceptance excludes cycles for every choice of edges if and only if the node list is not exposed. */
  lemma AcyclicIffNotExposed(nodes: seq<Node>)
    requires Usable(nodes)
    ensures (forall edges :: Accepts(Graph(nodes, edges)) ==> !HasCycle(EdgeSet(Graph(nodes, edges))))
       <==> !Exposed(nodes)
  {
    if Exposed(nodes) {
      TriggerKeyKnown(nodes);
      var a, b := MoreKeys(KeySet(nodes), TriggerKey(nodes));
      LoopAccepted(nodes, a, b);
      assert LoopGraph(nodes, a, b) == Graph(nodes, LoopGraph(nodes, a, b).edges);
    } else {
      forall edges | Accepts(Graph(nodes, edges))
        ensures !HasCycle(EdgeSet(Graph(nodes, edges)))
      {
        UnexposedAcyclic(Graph(nodes, edges));
      }
    }
  }

  // ----- runs -----

  lemma {:induction false} SamePrefixSameRun(env: Environment, a: seq<Node>, b: seq<Node>, n: nat)
    requires n <= |a| && n <= |b| && a[..n] == b[..n]
    ensures After(env, a, n) == After(env, b, n)
  {
    if n > 0 {
      assert a[..n - 1] == a[..n][..n - 1] == b[..n][..n - 1] == b[..n - 1];
      assert a[n - 1] == a[..n][n - 1] == b[..n][n - 1] == b[n - 1];
      SamePrefixSameRun(env, a, b, n - 1);
    }
  }

  lemma {:induction false} RunningBefore(env: Environment, order: seq<Node>, i: nat, n: nat)
    requires i <= n <= |order| && After(env, order, n).phase.Running?
    ensures After(env, order, i).phase.Running?
    decreases n
  {
    if i < n {
      StepFromRunning(env, order[n - 1], After(env, order, n - 1));
      RunningBefore(env, order, i, n - 1);
    }
  }

  lemma StepFromRunning(env: Environment, n: Node, st: RunState)
    requires Step(env, n, st).phase.Running?
    ensures st.phase.Running?
  {
  }

  predicate CanDispatch(env: Environment) {
    env.dispatch.Some? && env.maxAttempts >= 1
  }

  /** A call comes out of a running state, with a dispatcher and an attempt to make. */
  lemma {:induction false} CallsComeRunning(env: Environment, order: seq<Node>, n: nat, c: Call)
    requires n <= |order| && c in After(env, order, n).calls
    ensures c.emitted < n && After(env, order, c.emitted).phase.Running? && CanDispatch(env)
  {
    assert n > 0;
    var st := After(env, order, n - 1);
    if c in st.calls {
      CallsComeRunning(env, order, n - 1, c);
    } else {
      StepCalls(env, order[n - 1], st, c);
      StepsSoFar(env, order, n - 1);
    }
  }

  lemma StepCalls(env: Environment, n: Node, st: RunState, c: Call)
    requires c in Step(env, n, st).calls && c !in st.calls
    ensures st.phase.Running? && CanDispatch(env) && c.emitted == |st.steps|
  {
    assert st.phase.Running? && n.config.Action? && env.dispatch.Some?;
    ActionRecord(env, env.dispatch.value, n, st.vars, |st.steps|, st.calls, st.sleeps);
    NoAttempts(env, env.dispatch.value, n, st.vars, |st.steps|, st.calls, st.sleeps);
  }

  /** An action reached in a running state is dispatched. */
  lemma ActionIsDispatched(env: Environment, order: seq<Node>, i: nat) returns (c: Call)
    requires i < |order| && order[i].config.Action? && CanDispatch(env) && After(env, order, i).phase.Running?
    ensures c in Final(env, order).calls && c.node == order[i] && c.emitted == i
  {
    var st := After(env, order, i);
    StepsSoFar(env, order, i);
    c := Call(order[i], 1, st.vars, i);
    StepDispatches(env, order[i], st);
    CallsKept(env, order, i + 1, c);
  }

  lemma StepDispatches(env: Environment, n: Node, st: RunState)
    requires n.config.Action? && CanDispatch(env) && st.phase.Running?
    ensures Call(n, 1, st.vars, |st.steps|) in Step(env, n, st).calls
  {
    FirstCall(env, env.dispatch.value, n, st.vars, |st.steps|, st.calls, st.sleeps);
  }

  lemma CallsKept(env: Environment, order: seq<Node>, i: nat, c: Call)
    requires i <= |order| && c in After(env, order, i).calls
    ensures c in Final(env, order).calls
  {
    OnlyAppended(env, order, i, |order|);
  }

  lemma StepsSoFar(env: Environment, order: seq<Node>, i: nat)
    requires i <= |order| && !After(env, order, i).phase.Crashed?
    ensures |After(env, order, i).steps| == i
  {
    RunKeeps(env, order, i);
  }

  lemma FirstCall(env: Environment, d: Dispatcher, n: Node, vars: Vars, emitted: nat, calls: seq<Call>,
                  sleeps: seq<int>)
    requires env.maxAttempts >= 1
    ensures var out := Attempts(env, d, n, vars, emitted, calls, sleeps, 1);
            |out.calls| > |calls| && out.calls[|calls|] == Call(n, 1, vars, emitted)
  {
    var last := RetryLawFrom(env, d, n, vars, emitted, calls, sleeps, 1);
    assert CallsMade(n, vars, emitted, 1, last)[0] == Call(n, 1, vars, emitted);
  }

  // ----- the node lists and surroundings for which ancestors come first -----

  /** Every ancestor of a dispatched action had succeeded before. */
  ghost predicate AncestorsFirst(g: Graph, env: Environment) {
    var st := Final(env, SortOrder(g));
    forall c, k :: c in st.calls && Ancestor(EdgeSet(g), k, c.node.key) ==> SucceededBefore(st, c, k)
  }

  ghost predicate SucceededBefore(st: RunState, c: Call, k: Key) {
    exists i :: 0 <= i < c.emitted && i < |st.steps| && st.steps[i].stepKey == k && st.steps[i].status == Succeeded
  }

  ghost predicate OtherAction(nodes: seq<Node>)
    requires |Triggers(nodes)| == 1
  {
    exists n :: n in nodes && n.config.Action? && n.key != TriggerKey(nodes)
  }

  function Copies(n: Node, count: nat): (nodes: seq<Node>)
    ensures |nodes| == count && forall i :: 0 <= i < count ==> nodes[i] == n
  {
    seq(count, _ => n)
  }

  /** As often as it is run, the node that stands for the trigger's key lets the run continue. */
  ghost predicate TriggerPasses(nodes: seq<Node>, env: Environment)
    requires |Triggers(nodes)| == 1
  {
    var t, count := TriggerKey(nodes), TriggerCount(nodes);
    t in ByKey(nodes) && After(env, Copies(ByKey(nodes)[t], count), count).phase.Running?
  }

  function TriggerCount(nodes: seq<Node>): nat
    requires |Triggers(nodes)| == 1
  {
    multiset(Keys(nodes))[TriggerKey(nodes)]
  }

  /** Exactly the first places of the order hold the trigger's key, one for each node that has it. */
  ghost predicate TriggerLeads(order: seq<Node>, t: Key, count: nat) {
    1 <= count <= |order| && forall i :: 0 <= i < |order| ==> (order[i].key == t <==> i < count)
  }

  lemma LeadingKeys(g: Graph)
    requires Accepts(g) && NonEmptyKeys(g)
    ensures TriggerLeads(SortOrder(g), TriggerKey(g.nodes), TriggerCount(g.nodes))
  {
    var t, order := TriggerKey(g.nodes), SortOrder(g);
    SortOrderDrained(g);
    TriggerKeyKnown(g.nodes);
    CopiesBound(Keys(order), t);
    forall i | 0 <= i < |order|
      ensures order[i].key == t <==> i < TriggerCount(g.nodes)
    {
      assert Keys(order)[i] == order[i].key;
    }
  }

  lemma EntryOf(g: Graph, i: nat)
    requires Accepts(g) && NonEmptyKeys(g) && i < |SortOrder(g)|
    ensures var n := SortOrder(g)[i];
            n in g.nodes && n.key in ByKey(g.nodes) && n == ByKey(g.nodes)[n.key]
  {
    SortOrderDrained(g);
    assert SortOrder(g)[i] in SortOrder(g);
  }

  /** The sorted nodes start with copies of the last node that has the trigger's key. */
  lemma LeadingCopies(g: Graph)
    requires Accepts(g) && NonEmptyKeys(g)
    ensures var t, count := TriggerKey(g.nodes), TriggerCount(g.nodes);
            t in ByKey(g.nodes) && count <= |SortOrder(g)| && SortOrder(g)[..count] == Copies(ByKey(g.nodes)[t], count)
  {
    var t, order, count := TriggerKey(g.nodes), SortOrder(g), TriggerCount(g.nodes);
    LeadingKeys(g);
    TriggerKeyKnown(g.nodes);
    forall i | 0 <= i < count
      ensures order[i] == ByKey(g.nodes)[t]
    {
      assert order[i].key == t;
      EntryOf(g, i);
    }
    PrefixIsCopies(order, ByKey(g.nodes)[t], count);
  }

  lemma PrefixIsCopies(order: seq<Node>, n: Node, count: nat)
    requires count <= |order| && forall i :: 0 <= i < count ==> order[i] == n
    ensures order[..count] == Copies(n, count)
  {
  }

  /** With the run's own order, the copies run as they do alone. */
  lemma CopiesRun(g: Graph, env: Environment)
    requires Accepts(g) && NonEmptyKeys(g)
    ensures TriggerCount(g.nodes) <= |SortOrder(g)|
    ensures TriggerPasses(g.nodes, env) <==> After(env, SortOrder(g), TriggerCount(g.nodes)).phase.Running?
  {
    var t, order, count := TriggerKey(g.nodes), SortOrder(g), TriggerCount(g.nodes);
    LeadingCopies(g);
    var copies := Copies(ByKey(g.nodes)[t], count);
    assert copies[..count] == copies;
    SamePrefixSameRun(env, order, copies, count);
  }

  /** An action whose key the trigger shares is dispatched once for every node that has the key, as long as
      it succeeds. */
  lemma SharedActionRepeats(g: Graph, env: Environment, i: nat) returns (c: Call)
    requires Accepts(g) && NonEmptyKeys(g) && CanDispatch(env)
    requires TriggerKey(g.nodes) in ByKey(g.nodes) && ByKey(g.nodes)[TriggerKey(g.nodes)].config.Action?
    requires i < TriggerCount(g.nodes) && i <= |SortOrder(g)| && After(env, SortOrder(g), i).phase.Running?
    ensures c in Final(env, SortOrder(g)).calls
    ensures c.node == ByKey(g.nodes)[TriggerKey(g.nodes)] && c.emitted == i
  {
    LeadingCopies(g);
    assert SortOrder(g)[..TriggerCount(g.nodes)][i] == SortOrder(g)[i];
    c := ActionIsDispatched(env, SortOrder(g), i);
  }

  lemma CountTwo(ks: seq<Key>, i: nat, j: nat)
    requires i < j < |ks| && ks[i] == ks[j]
    ensures multiset(ks)[ks[i]] >= 2
  {
    assert ks == ks[..j] + ks[j..];
    assert ks[..j][i] in multiset(ks[..j]) && ks[j..][0] in multiset(ks[j..]);
  }

  /** A key that does not repeat names its node. */
  lemma OnlyNode(nodes: seq<Node>, n: Node)
    requires n in nodes && multiset(Keys(nodes))[n.key] <= 1
    ensures n.key in ByKey(nodes) && ByKey(nodes)[n.key] == n
  {
    assert n.key in ByKey(nodes);
    var last := ByKey(nodes)[n.key];
    assert last.key == n.key && last in nodes;
    var i :| 0 <= i < |nodes| && nodes[i] == n;
    var j :| 0 <= j < |nodes| && nodes[j] == last;
    assert Keys(nodes)[i] == nodes[i].key && Keys(nodes)[j] == nodes[j].key;
    if i < j {
      CountTwo(Keys(nodes), i, j);
    } else if j < i {
      CountTwo(Keys(nodes), j, i);
    }
  }

  /** The trigger's key leads to a alone. */
  lemma LoopFirstStep(nodes: seq<Node>, a: Key, b: Key, x: Key, before: seq<Key>)
    requires LoopArguments(nodes, a, b) && x in KeySet(nodes) && x != TriggerKey(nodes) && x != a
    requires forall k :: k in before ==> k == TriggerKey(nodes)
    ensures Hits(before, EdgeSet(LoopGraph(nodes, a, b)), x) < InDegree(EdgeSet(LoopGraph(nodes, a, b)), x)
  {
    var g := LoopGraph(nodes, a, b);
    LoopPreds(nodes, a, b);
    LoopEdges(nodes, a, b);
    LoopMember(nodes, a, b, Edge(TriggerKey(nodes), x));
    if Hits(before, EdgeSet(g), x) > 0 {
      HitsNeedsEdge(before, EdgeSet(g), x);
    }
  }

  lemma SupportedAt(g: Graph, j: nat)
    requires Accepts(g) && NonEmptyKeys(g) && j < |SortOrder(g)|
    ensures InDegree(EdgeSet(g), SortOrder(g)[j].key) <= Hits(Keys(SortOrder(g))[..j], EdgeSet(g), SortOrder(g)[j].key)
  {
    SortOrderDrained(g);
    assert Supported(EdgeSet(g), Keys(SortOrder(g)), j);
  }

  lemma KeyIsSorted(g: Graph, k: Key) returns (p: nat)
    requires Accepts(g) && NonEmptyKeys(g) && k in KeySet(g.nodes)
    ensures p < |SortOrder(g)| && SortOrder(g)[p].key == k
  {
    SortedKeys(g);
    KeysAreKeySet(g.nodes);
    assert k in multiset(Keys(SortOrder(g)));
    p :| 0 <= p < |SortOrder(g)| && Keys(SortOrder(g))[p] == k;
  }

  lemma SortedKeys(g: Graph)
    requires Accepts(g) && NonEmptyKeys(g)
    ensures multiset(Keys(SortOrder(g))) == multiset(Keys(g.nodes))
  {
    SortOrderDrained(g);
  }

  /** In the loop graph, a comes right after the copies of the trigger's key. */
  lemma LoopOrder(nodes: seq<Node>, a: Key, b: Key)
    requires LoopArguments(nodes, a, b)
    ensures var order := SortOrder(LoopGraph(nodes, a, b));
            TriggerCount(nodes) < |order| && order[TriggerCount(nodes)].key == a
  {
    var g, count := LoopGraph(nodes, a, b), TriggerCount(nodes);
    LoopAccepted(nodes, a, b);
    LeadingKeys(g);
    var p := KeyIsSorted(g, a);
    assert count <= p;
    EntryOf(g, count);
    SupportedAt(g, count);
    LeadersBefore(SortOrder(g), TriggerKey(nodes), count);
    if SortOrder(g)[count].key != a {
      LoopFirstStep(nodes, a, b, SortOrder(g)[count].key, Keys(SortOrder(g))[..count]);
    }
  }

  lemma LeadersBefore(order: seq<Node>, t: Key, count: nat)
    requires TriggerLeads(order, t, count)
    ensures forall k :: k in Keys(order)[..count] ==> k == t
  {
    forall k | k in Keys(order)[..count]
      ensures k == t
    {
      var i :| 0 <= i < count && Keys(order)[..count][i] == k;
      assert order[i].key == k;
    }
  }

  /** There an action is dispatched before its ancestor has run. */
  lemma LoopMisorders(nodes: seq<Node>, env: Environment, n: Node, b: Key)
    requires n in nodes && n.config.Action? && LoopArguments(nodes, n.key, b)
    requires CanDispatch(env) && TriggerPasses(nodes, env)
    ensures !AncestorsFirst(LoopGraph(nodes, n.key, b), env)
  {
    var g, count := LoopGraph(nodes, n.key, b), TriggerCount(nodes);
    var order := SortOrder(g);
    LoopAccepted(nodes, n.key, b);
    LoopOrder(nodes, n.key, b);
    OnlyNode(nodes, n);
    EntryOf(g, count);
    CopiesRun(g, env);
    var c := ActionIsDispatched(env, order, count);
    LeadingKeys(g);
    LeadOnly(g, env, count, b);
    assert !SucceededBefore(Final(env, order), c, b);
  }

  /** The records of the leading places carry the trigger's key. */
  lemma LeadOnly(g: Graph, env: Environment, count: nat, b: Key)
    requires |Triggers(g.nodes)| == 1 && b != TriggerKey(g.nodes)
    requires TriggerLeads(SortOrder(g), TriggerKey(g.nodes), count)
    ensures var steps := Final(env, SortOrder(g)).steps;
            forall i :: 0 <= i < count && i < |steps| ==> steps[i].stepKey != b
  {
    RunKeeps(env, SortOrder(g), |SortOrder(g)|);
  }

  /** In an accepted graph over an unexposed node list ancestors come first. */
  lemma UnexposedInOrder(g: Graph, env: Environment, c: Call, k: Key)
    requires Accepts(g) && NonEmptyKeys(g) && !Exposed(g.nodes)
    requires c in Final(env, SortOrder(g)).calls && Ancestor(EdgeSet(g), k, c.node.key)
    ensures SucceededBefore(Final(env, SortOrder(g)), c, k)
  {
    OnlyTriggerKeyRepeats(g);
    if DistinctKeys(g) {
      AncestorIsKey(g, k, c.node.key);
      TopologicalIffDistinct(g);
      var n :| n in g.nodes && n.key == k;
      DispatchNeedsAncestors(g, env, SortOrder(g), c, n);
      var i :| DoneBefore(Final(env, SortOrder(g)), c, n, i);
    } else {
      TwoKeysInOrder(g, env, c, k);
    }
  }

  lemma AncestorIsKey(g: Graph, k: Key, v: Key)
    requires Ancestor(EdgeSet(g), k, v)
    ensures k in KeySet(g.nodes) && v in KeySet(g.nodes) && InDegree(EdgeSet(g), v) > 0
  {
    var p :| Joins(EdgeSet(g), k, v, p) && |p| >= 2;
    EdgeSetJoins(g);
    assert Edge(p[0], p[1]) in EdgeSet(g) && Edge(p[|p| - 2], p[|p| - 1]) in EdgeSet(g);
    assert Joining(KeySet(g.nodes), Edge(p[0], p[1])) && Joining(KeySet(g.nodes), Edge(p[|p| - 2], p[|p| - 1]));
    NotSource(EdgeSet(g), p[|p| - 2], p[|p| - 1]);
  }

  lemma TwoKeysInOrder(g: Graph, env: Environment, c: Call, k: Key)
    requires Accepts(g) && NonEmptyKeys(g) && !Exposed(g.nodes) && |KeySet(g.nodes)| <= 2
    requires c in Final(env, SortOrder(g)).calls && Ancestor(EdgeSet(g), k, c.node.key)
    ensures SucceededBefore(Final(env, SortOrder(g)), c, k)
  {
    var t, x := TriggerKey(g.nodes), c.node.key;
    AncestorIsKey(g, k, x);
    UnexposedAcyclic(g);
    TriggerIsOnlySource(g);
    TriggerKeyKnown(g.nodes);
    assert x != t && k != x;
    if k != t {
      ThreeKeys(KeySet(g.nodes), t, x, k);
    }
    LeadingKeys(g);
    TriggerSucceeds(g, env, c);
  }

  lemma TriggerSucceeds(g: Graph, env: Environment, c: Call)
    requires c in Final(env, SortOrder(g)).calls && |Triggers(g.nodes)| == 1 && c.node.key != TriggerKey(g.nodes)
    requires TriggerLeads(SortOrder(g), TriggerKey(g.nodes), TriggerCount(g.nodes))
    ensures SucceededBefore(Final(env, SortOrder(g)), c, TriggerKey(g.nodes))
  {
    var order := SortOrder(g);
    var st := Final(env, order);
    DispatchSeesExactVars(env, order, c);
    RunKeeps(env, order, |order|);
    assert c.emitted > 0;
    assert st.steps[0].stepKey == order[0].key;
  }

  /** Ancestors succeed before their descendants are dispatched, for every choice of edges, if and only if the
      node list is not exposed, or has no action beside the trigger's key, or nothing can be dispatched there. */
  lemma AncestorsFirstIff(nodes: seq<Node>, env: Environment)
    requires Usable(nodes)
    ensures (forall edges :: Accepts(Graph(nodes, edges)) ==> AncestorsFirst(Graph(nodes, edges), env))
       <==> !Exposed(nodes) || !OtherAction(nodes) || !CanDispatch(env) || !TriggerPasses(nodes, env)
  {
    if Exposed(nodes) && OtherAction(nodes) && CanDispatch(env) && TriggerPasses(nodes, env) {
      var n :| n in nodes && n.config.Action? && n.key != TriggerKey(nodes);
      TriggerKeyKnown(nodes);
      assert n.key in KeySet(nodes);
      var b := OtherKey(KeySet(nodes), TriggerKey(nodes), n.key);
      LoopMisorders(nodes, env, n, b);
      LoopAccepted(nodes, n.key, b);
      assert LoopGraph(nodes, n.key, b) == Graph(nodes, LoopGraph(nodes, n.key, b).edges);
    } else {
      forall edges | Accepts(Graph(nodes, edges))
        ensures AncestorsFirst(Graph(nodes, edges), env)
      {
        SafeInOrder(Graph(nodes, edges), env);
      }
    }
  }

  lemma SafeInOrder(g: Graph, env: Environment)
    requires Accepts(g) && NonEmptyKeys(g)
    requires !Exposed(g.nodes) || !OtherAction(g.nodes) || !CanDispatch(env) || !TriggerPasses(g.nodes, env)
    ensures AncestorsFirst(g, env)
  {
    var st := Final(env, SortOrder(g));
    forall c, k | c in st.calls && Ancestor(EdgeSet(g), k, c.node.key)
      ensures SucceededBefore(st, c, k)
    {
      DispatchedIsExposed(g, env, c, k);
      UnexposedInOrder(g, env, c, k);
    }
  }

  /** A dispatch of an action that has ancestors shows all that exposure needs beside the keys. */
  lemma DispatchedIsExposed(g: Graph, env: Environment, c: Call, k: Key)
    requires Accepts(g) && NonEmptyKeys(g)
    requires c in Final(env, SortOrder(g)).calls && Ancestor(EdgeSet(g), k, c.node.key)
    ensures OtherAction(g.nodes) && CanDispatch(env) && TriggerPasses(g.nodes, env)
  {
    var order := SortOrder(g);
    AncestorIsKey(g, k, c.node.key);
    TriggerIsOnlySource(g);
    DispatchSeesExactVars(env, order, c);
    EntryOf(g, c.emitted);
    CallsComeRunning(env, order, |order|, c);
    LeadingKeys(g);
    RunningBefore(env, order, TriggerCount(g.nodes), c.emitted);
    CopiesRun(g, env);
  }

  // ----- the smallest exposed node list -----

  /** An action and the trigger share the key t; two further actions have keys of their own. */
  function FourNodes(t: Key, a: Key, b: Key, config: TriggerConfig): seq<Node> {
    [Node(t, Action), Node(t, Trigger(config)), Node(a, Action), Node(b, Action)]
  }

  lemma TriggersAppend(nodes: seq<Node>, n: Node)
    ensures Triggers(nodes + [n]) == Triggers(nodes) + (if n.config.Trigger? then [n] else [])
  {
    assert (nodes + [n])[..|nodes|] == nodes;
  }

  lemma TriggersOfTwo(p: Node, q: Node)
    requires !p.config.Trigger? && q.config.Trigger?
    ensures Triggers([p, q]) == [q]
  {
    TriggersAppend([], p);
    TriggersAppend([p], q);
    assert [] + [p] == [p] && [p] + [q] == [p, q];
  }

  lemma TriggersOfFour(p: Node, q: Node, r: Node, s: Node)
    requires !p.config.Trigger? && q.config.Trigger? && !r.config.Trigger? && !s.config.Trigger?
    ensures Triggers([p, q, r, s]) == [q]
  {
    var two, three := [p, q], [p, q, r];
    TriggersOfTwo(p, q);
    TriggersAppend(two, r);
    assert two + [r] == three;
    TriggersAppend(three, s);
    assert three + [s] == [p, q, r, s];
  }

  lemma FourKeys(t: Key, a: Key, b: Key, config: TriggerConfig)
    ensures var nodes := FourNodes(t, a, b, config);
            && Triggers(nodes) == [nodes[1]] && Keys(nodes) == [t, t, a, b] && KeySet(nodes) == {t, a, b}
  {
    var nodes := FourNodes(t, a, b, config);
    TriggersOfFour(nodes[0], nodes[1], nodes[2], nodes[3]);
    assert Keys(nodes) == [t, t, a, b];
    KeysAreKeySet(nodes);
    assert Elements([t, t, a, b]) == {t, a, b};
  }

  lemma FourExposed(t: Key, a: Key, b: Key, config: TriggerConfig)
    requires t != a && a != b && b != t && t != "" && a != "" && b != ""
    requires '\0' !in t && '\0' !in a && '\0' !in b
    ensures Usable(FourNodes(t, a, b, config)) && Exposed(FourNodes(t, a, b, config))
  {
    var nodes := FourNodes(t, a, b, config);
    FourKeys(t, a, b, config);
    NulFreeTells(KeySet(nodes));
    ThreeKeys(KeySet(nodes), t, a, b);
  }

  /** A trigger always passes. */
  lemma {:induction false} CopiesPass(env: Environment, n: Node, count: nat, i: nat)
    requires n.config.Trigger? && i <= count
    ensures After(env, Copies(n, count), i).phase.Running?
  {
    if i > 0 {
      CopiesPass(env, n, count, i - 1);
    }
  }

  /** Over these four nodes there is a graph that is accepted, has a cycle, and dispatches an action before its
      ancestor, whatever the dispatcher answers. */
  lemma FourNodesFail(t: Key, a: Key, b: Key, config: TriggerConfig, env: Environment)
    requires t != a && a != b && b != t && t != "" && a != "" && b != ""
    requires '\0' !in t && '\0' !in a && '\0' !in b && CanDispatch(env)
    ensures Triggers(FourNodes(t, a, b, config)) == [Node(t, Trigger(config))]
    ensures var g := LoopGraph(FourNodes(t, a, b, config), a, b);
            Accepts(g) && HasCycle(EdgeSet(g)) && !AncestorsFirst(g, env)
  {
    var nodes := FourNodes(t, a, b, config);
    FourKeys(t, a, b, config);
    FourExposed(t, a, b, config);
    ByKeyIsLast(nodes, 1);
    CopiesPass(env, nodes[1], TriggerCount(nodes), TriggerCount(nodes));
    LoopAccepted(nodes, a, b);
    assert nodes[2] in nodes;
    LoopMisorders(nodes, env, nodes[2], b);
  }
}
