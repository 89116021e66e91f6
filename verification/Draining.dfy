/** Kahn's algorithm as the validator and the sorter of lib/dag/schema.ts both run it. */
module Draining {
  import opened Graphs
  import opened Sequences

  // ----- selecting and counting -----

  lemma {:induction false} SelectMember(ks: seq<Key>, wanted: Key -> bool, k: Key)
    ensures k in SelectKeys(ks, wanted) <==> k in ks && wanted(k)
    ensures multiset(SelectKeys(ks, wanted))[k] == if wanted(k) then multiset(ks)[k] else 0
  {
    if ks != [] {
      SelectMember(ks[..|ks| - 1], wanted, k);
      assert ks == ks[..|ks| - 1] + [ks[|ks| - 1]];
    }
  }

  lemma {:induction false} SelectNoDup(ks: seq<Key>, wanted: Key -> bool)
    requires NoDup(ks)
    ensures NoDup(SelectKeys(ks, wanted))
  {
    if ks != [] {
      var init := ks[..|ks| - 1];
      SelectNoDup(init, wanted);
      SelectMember(init, wanted, ks[|ks| - 1]);
    }
  }

  lemma {:induction false} SelectSame(ks: seq<Key>, f: Key -> bool, g: Key -> bool)
    requires forall k :: k in ks ==> f(k) == g(k)
    ensures SelectKeys(ks, f) == SelectKeys(ks, g)
  {
    if ks != [] {
      assert forall k :: k in ks[..|ks| - 1] ==> k in ks;
      SelectSame(ks[..|ks| - 1], f, g);
    }
  }

  lemma {:induction false} SelectNothing(ks: seq<Key>, wanted: Key -> bool)
    requires forall k :: k in ks ==> !wanted(k)
    ensures SelectKeys(ks, wanted) == []
  {
    if ks != [] {
      assert ks[|ks| - 1] in ks && forall k :: k in ks[..|ks| - 1] ==> k in ks;
      SelectNothing(ks[..|ks| - 1], wanted);
    }
  }

  lemma {:induction false} SourcesAndNonSources(nodes: seq<Node>, edges: set<Edge>)
    ensures multiset(Keys(nodes)) == multiset(Sources(nodes, edges)) + multiset(NonSources(nodes, edges))
    ensures |nodes| == |Sources(nodes, edges)| + |NonSources(nodes, edges)|
  {
    var source := (k: Key) => InDegree(edges, k) == 0;
    var nonSource := (k: Key) => InDegree(edges, k) > 0;
    forall k: Key
      ensures multiset(Keys(nodes))[k]
           == multiset(Sources(nodes, edges))[k] + multiset(NonSources(nodes, edges))[k]
    {
      SelectMember(Keys(nodes), source, k);
      SelectMember(Keys(nodes), nonSource, k);
    }
    assert multiset(Keys(nodes)) == multiset(Sources(nodes, edges)) + multiset(NonSources(nodes, edges));
    assert |multiset(Keys(nodes))| == |multiset(Sources(nodes, edges)) + multiset(NonSources(nodes, edges))|;
  }

  lemma {:induction false} HitsPrefix(ks: seq<Key>, j: nat, edges: set<Edge>, v: Key)
    requires j <= |ks|
    ensures Hits(ks[..j], edges, v) <= Hits(ks, edges, v)
  {
    if j < |ks| {
      HitsPrefix(ks[..|ks| - 1], j, edges, v);
      assert ks[..|ks| - 1][..j] == ks[..j];
    } else {
      assert ks[..j] == ks;
    }
  }

  lemma {:induction false} HitsWithout(ks: seq<Key>, i: nat, edges: set<Edge>, v: Key)
    requires i < |ks|
    ensures Hits(ks, edges, v) == Hits(ks[..i] + ks[i + 1..], edges, v) + (if Edge(ks[i], v) in edges then 1 else 0)
  {
    var rest := ks[..i] + ks[i + 1..];
    if i == |ks| - 1 {
      assert rest == ks[..i];
    } else {
      var init := ks[..|ks| - 1];
      HitsWithout(init, i, edges, v);
      assert rest[..|rest| - 1] == init[..i] + init[i + 1..];
    }
  }

  /** Hits only grow with the multiset of keys. */
  lemma {:induction false} HitsMonotone(a: seq<Key>, b: seq<Key>, edges: set<Edge>, v: Key)
    requires multiset(a) <= multiset(b)
    ensures Hits(a, edges, v) <= Hits(b, edges, v)
  {
    if a != [] {
      var init, k := a[..|a| - 1], a[|a| - 1];
      assert a == init + [k];
      assert k in multiset(b);
      var i :| 0 <= i < |b| && b[i] == k;
      MultisetWithout(b, i);
      HitsWithout(b, i, edges, v);
      HitsMonotone(init, b[..i] + b[i + 1..], edges, v);
    }
  }

  lemma {:induction false} HitsNeedsEdge(ks: seq<Key>, edges: set<Edge>, v: Key)
    requires Hits(ks, edges, v) > 0
    ensures exists u :: u in ks && Edge(u, v) in edges
  {
    if Edge(ks[|ks| - 1], v) !in edges {
      HitsNeedsEdge(ks[..|ks| - 1], edges, v);
    }
  }

  /** Every occurrence of a predecessor is a hit. */
  lemma {:induction false} HitsAtLeast(ks: seq<Key>, edges: set<Edge>, u: Key, v: Key)
    requires Edge(u, v) in edges
    ensures Hits(ks, edges, v) >= multiset(ks)[u]
  {
    if ks != [] {
      HitsAtLeast(ks[..|ks| - 1], edges, u, v);
      assert ks == ks[..|ks| - 1] + [ks[|ks| - 1]];
    }
  }

  lemma HitSetGrows(ks: seq<Key>, k: Key, edges: set<Edge>, v: Key)
    requires k !in ks
    ensures |Preds(edges, v) * Elements(ks + [k])|
         == |Preds(edges, v) * Elements(ks)| + (if Edge(k, v) in edges then 1 else 0)
  {
    ElementsOfAppend(ks, k);
    PredsMember(edges, k, v);
    var before := Preds(edges, v) * Elements(ks);
    assert k !in before;
    if Edge(k, v) in edges {
      assert Preds(edges, v) * Elements(ks + [k]) == before + {k};
    } else {
      assert Preds(edges, v) * Elements(ks + [k]) == before;
    }
  }

  /** Over keys without repetition, hits count the predecessors among them. */
  lemma {:induction false} HitsOfNoDup(ks: seq<Key>, edges: set<Edge>, v: Key)
    requires NoDup(ks)
    ensures Hits(ks, edges, v) == |Preds(edges, v) * Elements(ks)|
  {
    if ks == [] {
      assert Preds(edges, v) * Elements(ks) == {};
    } else {
      var init, k := ks[..|ks| - 1], ks[|ks| - 1];
      HitsOfNoDup(init, edges, v);
      HitSetGrows(init, k, edges, v);
      assert ks == init + [k];
    }
  }

  lemma PredsMember(edges: set<Edge>, u: Key, v: Key)
    ensures u in Preds(edges, v) <==> Edge(u, v) in edges
  {
    if Edge(u, v) in edges {
      assert Edge(u, v).from == u;
    }
  }

  // ----- the order in which keys drain -----

  /** `drained` starts with the sources; every later key comes once, after enough of its predecessors. */
  ghost predicate DrainOrder(nodes: seq<Node>, edges: set<Edge>, drained: seq<Key>) {
    var s := |Sources(nodes, edges)|;
    && s <= |drained|
    && drained[..s] == Sources(nodes, edges)
    && NoDup(drained[s..])
    && forall j :: s <= j < |drained| ==> Ready(nodes, edges, drained, j)
  }

  ghost predicate Ready(nodes: seq<Node>, edges: set<Edge>, drained: seq<Key>, j: nat)
    requires j < |drained|
  {
    && drained[j] in KeySet(nodes)
    && 0 < InDegree(edges, drained[j]) <= Hits(drained[..j], edges, drained[j])
  }

  ghost predicate Leftover(nodes: seq<Node>, edges: set<Edge>, drained: seq<Key>, v: Key) {
    v in KeySet(nodes) && InDegree(edges, v) > 0 && v !in drained
  }

  /** Nothing more can drain. */
  ghost predicate DrainComplete(nodes: seq<Node>, edges: set<Edge>, drained: seq<Key>) {
    forall v :: Leftover(nodes, edges, drained, v) ==> Hits(drained, edges, v) < InDegree(edges, v)
  }

  lemma DrainedTail(nodes: seq<Node>, edges: set<Edge>, drained: seq<Key>)
    requires DrainOrder(nodes, edges, drained)
    ensures var tail := drained[|Sources(nodes, edges)|..];
            && drained == Sources(nodes, edges) + tail
            && Elements(tail) <= Elements(NonSources(nodes, edges))
  {
    var s := |Sources(nodes, edges)|;
    var tail := drained[s..];
    forall k | k in tail
      ensures k in NonSources(nodes, edges)
    {
      var i :| 0 <= i < |tail| && tail[i] == k;
      assert Ready(nodes, edges, drained, s + i);
      KeysAreKeySet(nodes);
      SelectMember(Keys(nodes), x => InDegree(edges, x) > 0, k);
    }
  }

  lemma PrefixIsDrainOrder(nodes: seq<Node>, edges: set<Edge>, drained: seq<Key>, j: nat)
    requires DrainOrder(nodes, edges, drained) && |Sources(nodes, edges)| <= j <= |drained|
    ensures DrainOrder(nodes, edges, drained[..j])
  {
    var s := |Sources(nodes, edges)|;
    assert drained[..j][..s] == drained[..s];
    forall i | s <= i < j
      ensures Ready(nodes, edges, drained[..j], i)
    {
      assert Ready(nodes, edges, drained, i);
      assert drained[..j][..i] == drained[..i];
    }
    forall x, y | 0 <= x < y < j - s
      ensures drained[..j][s..][x] != drained[..j][s..][y]
    {
      assert drained[s..][x] != drained[s..][y];
    }
  }

  lemma DrainedWithin(nodes: seq<Node>, edges: set<Edge>, drained: seq<Key>)
    requires DrainOrder(nodes, edges, drained)
    ensures multiset(drained) <= multiset(Keys(nodes))
  {
    var tail := drained[|Sources(nodes, edges)|..];
    DrainedTail(nodes, edges, drained);
    SourcesAndNonSources(nodes, edges);
    NoDupMultiset(tail, NonSources(nodes, edges));
    assert multiset(drained) == multiset(Sources(nodes, edges)) + multiset(tail);
  }

  /** As long as no key of a stuck set has drained, none of them is ready. */
  lemma StuckNotReady(nodes: seq<Node>, edges: set<Edge>, drained: seq<Key>, s: set<Key>, k: Key)
    requires DrainOrder(nodes, edges, drained) && Stuck(nodes, edges, s) && k in s
    requires forall x :: x in drained ==> x !in s
    ensures Hits(drained, edges, k) < InDegree(edges, k)
  {
    var outside := Outside(Keys(nodes), s);
    DrainedWithin(nodes, edges, drained);
    forall x | x in multiset(drained)
      ensures multiset(drained)[x] <= multiset(outside)[x]
    {
      SelectMember(Keys(nodes), y => y !in s, x);
      assert x in drained;
    }
    HitsMonotone(drained, outside, edges, k);
  }

  lemma SourcesNotStuck(nodes: seq<Node>, edges: set<Edge>, s: set<Key>)
    requires Stuck(nodes, edges, s)
    ensures forall k :: k in Sources(nodes, edges) ==> k !in s
  {
    forall k | k in Sources(nodes, edges)
      ensures k !in s
    {
      SelectMember(Keys(nodes), x => InDegree(edges, x) == 0, k);
    }
  }

  /** No key of a stuck set ever drains. */
  lemma {:induction false} StuckNeverDrains(nodes: seq<Node>, edges: set<Edge>, drained: seq<Key>, s: set<Key>)
    requires DrainOrder(nodes, edges, drained) && Stuck(nodes, edges, s)
    ensures forall k :: k in drained ==> k !in s
  {
    var n := |Sources(nodes, edges)|;
    if |drained| == n {
      assert drained == drained[..n];
      SourcesNotStuck(nodes, edges, s);
    } else {
      var init, k := drained[..|drained| - 1], drained[|drained| - 1];
      PrefixIsDrainOrder(nodes, edges, drained, |init|);
      StuckNeverDrains(nodes, edges, init, s);
      assert Ready(nodes, edges, drained, |init|);
      if k in s {
        StuckNotReady(nodes, edges, init, s, k);
        assert false;
      }
      assert drained == init + [k];
    }
  }

  /** If the keys with predecessors are distinct, what is left when draining stops is a stuck set. */
  lemma LeftoverIsStuck(nodes: seq<Node>, edges: set<Edge>, drained: seq<Key>, s: set<Key>)
    requires DrainOrder(nodes, edges, drained) && DrainComplete(nodes, edges, drained)
    requires NoDup(NonSources(nodes, edges))
    requires s != {} && forall v :: v in s <==> Leftover(nodes, edges, drained, v)
    ensures Stuck(nodes, edges, s)
  {
    var outside := Outside(Keys(nodes), s);
    forall x | x in multiset(outside)
      ensures multiset(outside)[x] <= multiset(drained)[x]
    {
      SelectMember(Keys(nodes), y => y !in s, x);
      SelectMember(Keys(nodes), y => InDegree(edges, y) == 0, x);
      SelectMember(Keys(nodes), y => InDegree(edges, y) > 0, x);
      KeysAreKeySet(nodes);
      DrainedTail(nodes, edges, drained);
      NoDupCount(NonSources(nodes, edges), x);
      assert x in outside;
      if InDegree(edges, x) > 0 {
        assert x in drained;
      }
    }
    forall v | v in s
      ensures Hits(outside, edges, v) < InDegree(edges, v)
    {
      assert Leftover(nodes, edges, drained, v);
      HitsMonotone(outside, drained, edges, v);
    }
  }

  /** As many keys drain as there are nodes exactly when the keys with predecessors are distinct and no
      set of keys is stuck. */
  lemma DrainedCount(nodes: seq<Node>, edges: set<Edge>, drained: seq<Key>)
    requires DrainOrder(nodes, edges, drained) && DrainComplete(nodes, edges, drained)
    ensures |drained| == |nodes| <==> Drains(nodes, edges)
    ensures |drained| == |nodes| ==> multiset(drained) == multiset(Keys(nodes))
  {
    var tail, rest := drained[|Sources(nodes, edges)|..], NonSources(nodes, edges);
    DrainedTail(nodes, edges, drained);
    SourcesAndNonSources(nodes, edges);
    CardinalityOfElements(tail);
    CardinalityOfElements(rest);
    SubsetCardinality(Elements(tail), Elements(rest));
    if |drained| == |nodes| {
      assert |tail| == |rest|;
      assert NoDup(rest);
      assert Elements(tail) == Elements(rest);
      NoDupMultiset(tail, rest);
      NoDupMultiset(rest, tail);
      assert multiset(tail) == multiset(rest);
      assert multiset(drained) == multiset(Sources(nodes, edges)) + multiset(tail);
      forall s: set<Key>
        ensures !Stuck(nodes, edges, s)
      {
        KeysAreKeySet(nodes);
        assert forall v :: v in multiset(Keys(nodes)) <==> v in multiset(drained);
        if v :| v in s && v in KeySet(nodes) {
          assert v in multiset(Keys(nodes));
          assert v in drained;
          if Stuck(nodes, edges, s) {
            StuckNeverDrains(nodes, edges, drained, s);
          }
        }
      }
    } else if NoDup(rest) {
      assert Elements(tail) != Elements(rest);
      var s := set v | v in KeySet(nodes) && Leftover(nodes, edges, drained, v);
      var v :| v in Elements(rest) && v !in Elements(tail);
      SelectMember(Keys(nodes), y => InDegree(edges, y) > 0, v);
      SelectMember(Keys(nodes), y => InDegree(edges, y) == 0, v);
      KeysAreKeySet(nodes);
      assert v !in drained;
      assert Leftover(nodes, edges, drained, v);
      assert v in s;
      LeftoverIsStuck(nodes, edges, drained, s);
    }
  }

  lemma SubsetCardinality(a: set<Key>, b: set<Key>)
    requires a <= b
    ensures |a| <= |b|
    ensures |a| == |b| ==> a == b
  {
    assert b == a + (b - a);
    assert |b| == |a| + |b - a|;
    if |a| == |b| {
      assert b - a == {};
    }
  }

  // ----- first in, first out -----

  /** The targets of the edges from a key, in the order of the edges. */
  function SuccessorsIn(kept: seq<Edge>, u: Key): seq<Key> {
    if kept == [] then []
    else
      var e := kept[|kept| - 1];
      SuccessorsIn(kept[..|kept| - 1], u) + (if e.from == u then [e.to] else [])
  }

  /** The places of the edges that lead from u to these successors: each once, in order, none left out. */
  ghost predicate PlacesOf(kept: seq<Edge>, u: Key, successors: seq<Key>, places: seq<nat>) {
    && |places| == |successors|
    && (forall p, q :: 0 <= p < q < |places| ==> places[p] < places[q])
    && (forall p :: 0 <= p < |places| ==> places[p] < |kept| && kept[places[p]] == Edge(u, successors[p]))
    && forall i :: 0 <= i < |kept| && kept[i].from == u ==> i in places
  }

  lemma PlacesSkip(init: seq<Edge>, e: Edge, u: Key, successors: seq<Key>, places: seq<nat>)
    requires PlacesOf(init, u, successors, places) && e.from != u
    ensures PlacesOf(init + [e], u, successors, places)
  {
    forall i | 0 <= i < |init + [e]| && (init + [e])[i].from == u
      ensures i in places
    {
      assert i < |init| && init[i].from == u;
    }
  }

  lemma PlacesAdd(init: seq<Edge>, e: Edge, u: Key, successors: seq<Key>, places: seq<nat>)
    requires PlacesOf(init, u, successors, places) && e.from == u
    ensures PlacesOf(init + [e], u, successors + [e.to], places + [|init|])
  {
    forall i | 0 <= i < |init + [e]| && (init + [e])[i].from == u
      ensures i in places + [|init|]
    {
      if i < |init| {
        assert init[i].from == u && i in places;
      } else {
        assert (places + [|init|])[|places|] == i;
      }
    }
  }

  /** A key's successors stand for its edges, each once and in the order of the edges. */
  lemma {:induction false} SuccessorsIndexed(kept: seq<Edge>, u: Key) returns (places: seq<nat>)
    ensures PlacesOf(kept, u, SuccessorsIn(kept, u), places)
  {
    if kept == [] {
      places := [];
    } else {
      var init, e := kept[..|kept| - 1], kept[|kept| - 1];
      assert kept == init + [e];
      places := SuccessorsIndexed(init, u);
      if e.from == u {
        PlacesAdd(init, e, u, SuccessorsIn(init, u), places);
        places := places + [|init|];
      } else {
        PlacesSkip(init, e, u, SuccessorsIn(init, u), places);
      }
    }
  }

  ghost predicate Ordered(kept: seq<Edge>, adjacency: map<Key, seq<Key>>) {
    forall u :: u in adjacency ==> adjacency[u] == SuccessorsIn(kept, u)
  }

  /** The c-th drained key brings v its last missing hit. */
  ghost predicate Completes(edges: set<Edge>, drained: seq<Key>, c: nat, v: Key)
    requires c < |drained|
  {
    Hits(drained[..c], edges, v) < InDegree(edges, v) <= Hits(drained[..c + 1], edges, v)
  }

  /** The keys freed by the c-th drained key, in the order of its edges. */
  ghost function FreedAt(kept: seq<Edge>, drained: seq<Key>, c: nat): seq<Key>
    requires c < |drained|
  {
    SelectKeys(SuccessorsIn(kept, drained[c]), v => Completes(Elements(kept), drained, c, v))
  }

  ghost function FreedUpTo(kept: seq<Edge>, drained: seq<Key>, n: nat): seq<Key>
    requires n <= |drained|
  {
    if n == 0 then [] else FreedUpTo(kept, drained, n - 1) + FreedAt(kept, drained, n - 1)
  }

  /** Keys drain in the order in which they become free: first the sources in node order, then what each
      drained key frees in turn. */
  ghost predicate FifoLaw(nodes: seq<Node>, kept: seq<Edge>, drained: seq<Key>) {
    && drained == Sources(nodes, Elements(kept)) + FreedUpTo(kept, drained, |drained|)
    && forall n :: 0 <= n < |drained| ==> QueueHolds(nodes, kept, drained, n)
  }

  ghost predicate QueueHolds(nodes: seq<Node>, kept: seq<Edge>, drained: seq<Key>, n: nat)
    requires n <= |drained|
  {
    n < |Sources(nodes, Elements(kept))| + |FreedUpTo(kept, drained, n)|
  }

  lemma {:induction false} FreedPrefix(kept: seq<Edge>, a: seq<Key>, b: seq<Key>, n: nat)
    requires n <= |a| && n <= |b| && a[..n] == b[..n]
    ensures FreedUpTo(kept, a, n) == FreedUpTo(kept, b, n)
  {
    if n > 0 {
      assert a[..n - 1] == a[..n][..n - 1] == b[..n][..n - 1] == b[..n - 1];
      FreedPrefix(kept, a, b, n - 1);
      assert a[n - 1] == a[..n][n - 1] == b[..n][n - 1] == b[n - 1];
      SelectSame(SuccessorsIn(kept, a[n - 1]), v => Completes(Elements(kept), a, n - 1, v),
                 v => Completes(Elements(kept), b, n - 1, v));
    }
  }

  lemma {:induction false} FreedGrows(kept: seq<Edge>, drained: seq<Key>, n: nat, m: nat)
    requires n <= m <= |drained|
    ensures FreedUpTo(kept, drained, n) <= FreedUpTo(kept, drained, m)
    decreases m
  {
    if n < m {
      FreedGrows(kept, drained, n, m - 1);
      PrefixGrows(FreedUpTo(kept, drained, n), FreedUpTo(kept, drained, m - 1), FreedAt(kept, drained, m - 1));
    }
  }

  /** The next key is already in the queue that the earlier ones built. */
  lemma NextFromQueue(nodes: seq<Node>, kept: seq<Edge>, drained: seq<Key>, n: nat)
    requires FifoLaw(nodes, kept, drained) && n < |drained|
    ensures var queued := Sources(nodes, Elements(kept)) + FreedUpTo(kept, drained, n);
            n < |queued| && drained[n] == queued[n]
  {
    assert QueueHolds(nodes, kept, drained, n);
    FreedGrows(kept, drained, n, |drained|);
  }

  lemma NextUnique(nodes: seq<Node>, kept: seq<Edge>, a: seq<Key>, b: seq<Key>, n: nat)
    requires FifoLaw(nodes, kept, a) && FifoLaw(nodes, kept, b)
    requires n < |a| && n < |b| && a[..n] == b[..n]
    ensures a[n] == b[n]
  {
    NextFromQueue(nodes, kept, a, n);
    NextFromQueue(nodes, kept, b, n);
    FreedPrefix(kept, a, b, n);
  }

  lemma {:induction false} FifoPrefixUnique(nodes: seq<Node>, kept: seq<Edge>, a: seq<Key>, b: seq<Key>, n: nat)
    requires FifoLaw(nodes, kept, a) && FifoLaw(nodes, kept, b) && n <= |a| && n <= |b|
    ensures a[..n] == b[..n]
  {
    if n > 0 {
      FifoPrefixUnique(nodes, kept, a, b, n - 1);
      NextUnique(nodes, kept, a, b, n - 1);
      assert a[..n] == a[..n - 1] + [a[n - 1]] && b[..n] == b[..n - 1] + [b[n - 1]];
    }
  }

  lemma FifoNotShorter(nodes: seq<Node>, kept: seq<Edge>, a: seq<Key>, b: seq<Key>)
    requires FifoLaw(nodes, kept, a) && FifoLaw(nodes, kept, b)
    ensures |a| >= |b|
  {
    if |a| < |b| {
      FifoPrefixUnique(nodes, kept, a, b, |a|);
      NextFromQueue(nodes, kept, b, |a|);
      FreedPrefix(kept, a, b, |a|);
      assert false;
    }
  }

  /** The law determines the order: draining is a function of the nodes and the edges as listed. */
  lemma FifoUnique(nodes: seq<Node>, kept: seq<Edge>, a: seq<Key>, b: seq<Key>)
    requires FifoLaw(nodes, kept, a) && FifoLaw(nodes, kept, b)
    ensures a == b
  {
    FifoNotShorter(nodes, kept, a, b);
    FifoNotShorter(nodes, kept, b, a);
    FifoPrefixUnique(nodes, kept, a, b, |a|);
    assert a[..|a|] == a && b[..|b|] == b;
  }

  /** The queue is what the visited keys have freed and not yet visited. */
  ghost predicate FifoState(nodes: seq<Node>, kept: seq<Edge>, visited: seq<Key>, queue: seq<Key>) {
    && visited + queue == Sources(nodes, Elements(kept)) + FreedUpTo(kept, visited, |visited|)
    && forall n :: 0 <= n < |visited| ==> QueueHolds(nodes, kept, visited, n)
  }

  /** The indegrees tell which successors the next key completes. */
  lemma FreedMatches(kept: seq<Edge>, visited: seq<Key>, key: Key, indegree: map<Key, int>)
    requires forall v :: v in SuccessorsIn(kept, key) ==>
               v in indegree && Edge(key, v) in Elements(kept)
               && indegree[v] == InDegree(Elements(kept), v) - Hits(visited, Elements(kept), v)
    ensures SelectKeys(SuccessorsIn(kept, key), k => k in indegree && indegree[k] == 1)
         == FreedAt(kept, visited + [key], |visited|)
  {
    var edges, longer, n := Elements(kept), visited + [key], |visited|;
    var freed, completed := (k: Key) => k in indegree && indegree[k] == 1, (v: Key) => Completes(edges, longer, n, v);
    forall v | v in SuccessorsIn(kept, key)
      ensures freed(v) == completed(v)
    {
      CompletesMatches(edges, visited, key, v, indegree[v]);
    }
    SelectSame(SuccessorsIn(kept, key), freed, completed);
    assert longer[n] == key;
    assert FreedAt(kept, longer, n) == SelectKeys(SuccessorsIn(kept, key), completed);
  }

  /** A successor whose indegree stands at one is completed by this key. */
  lemma CompletesMatches(edges: set<Edge>, visited: seq<Key>, key: Key, v: Key, indegree: int)
    requires Edge(key, v) in edges && indegree == InDegree(edges, v) - Hits(visited, edges, v)
    ensures indegree == 1 <==> Completes(edges, visited + [key], |visited|, v)
  {
    var longer, n := visited + [key], |visited|;
    assert longer[..n] == visited && longer[..n + 1] == longer;
    HitsOne(visited, key, edges, v);
  }

  lemma QueueHeld(nodes: seq<Node>, kept: seq<Edge>, visited: seq<Key>, queue: seq<Key>, m: nat)
    requires FifoState(nodes, kept, visited, queue) && queue != [] && m <= |visited|
    ensures QueueHolds(nodes, kept, visited + [queue[0]], m)
  {
    var longer := visited + [queue[0]];
    assert longer[..m] == visited[..m];
    FreedPrefix(kept, visited, longer, m);
    if m < |visited| {
      assert QueueHolds(nodes, kept, visited, m);
    } else {
      assert |visited + queue| == |Sources(nodes, Elements(kept))| + |FreedUpTo(kept, visited, m)|;
    }
  }

  lemma ShiftQueue(sources: seq<Key>, before: seq<Key>, visited: seq<Key>, queue: seq<Key>, freed: seq<Key>)
    requires visited + queue == sources + before && queue != []
    ensures (visited + [queue[0]]) + (queue[1..] + freed) == sources + (before + freed)
  {
    assert (visited + [queue[0]]) + (queue[1..] + freed) == (visited + queue) + freed;
    assert sources + (before + freed) == (sources + before) + freed;
  }

  lemma FifoStep(nodes: seq<Node>, kept: seq<Edge>, visited: seq<Key>, queue: seq<Key>, freed: seq<Key>)
    requires FifoState(nodes, kept, visited, queue) && queue != []
    requires freed == FreedAt(kept, visited + [queue[0]], |visited|)
    ensures FifoState(nodes, kept, visited + [queue[0]], queue[1..] + freed)
  {
    var longer, n, sources := visited + [queue[0]], |visited|, Sources(nodes, Elements(kept));
    assert longer[..n] == visited[..n];
    FreedPrefix(kept, visited, longer, n);
    ShiftQueue(sources, FreedUpTo(kept, visited, n), visited, queue, freed);
    forall m | 0 <= m < |longer|
      ensures QueueHolds(nodes, kept, longer, m)
    {
      QueueHeld(nodes, kept, visited, queue, m);
    }
  }

  lemma FifoEnd(nodes: seq<Node>, kept: seq<Edge>, visited: seq<Key>)
    requires FifoState(nodes, kept, visited, [])
    ensures FifoLaw(nodes, kept, visited)
  {
    assert visited + [] == visited;
  }

  // ----- the algorithm -----

  /** The adjacency and indegree tables describe the edges. */
  ghost predicate Tables(ks: set<Key>, edges: set<Edge>, adjacency: map<Key, seq<Key>>, indegree: map<Key, int>) {
    && adjacency.Keys == ks && indegree.Keys == ks
    && (forall e :: e in edges ==> e.from in ks && e.to in ks)
    && (forall u :: u in ks ==> NoDup(adjacency[u]))
    && (forall u, v :: u in ks ==> (v in adjacency[u] <==> Edge(u, v) in edges))
    && (forall v :: v in ks ==> indegree[v] == InDegree(edges, v))
  }

  /** Takes one off the indegree of every key in `nexts` and reports, in order, those that reach zero. */
  method DecrementAll(nexts: seq<Key>, indegree: map<Key, int>) returns (after: map<Key, int>, freed: seq<Key>)
    requires NoDup(nexts) && forall k :: k in nexts ==> k in indegree
    ensures after.Keys == indegree.Keys
    ensures forall k :: k in indegree ==> after[k] == if k in nexts then indegree[k] - 1 else indegree[k]
    ensures NoDup(freed)
    ensures forall k :: k in freed <==> k in nexts && indegree[k] == 1
    ensures freed == SelectKeys(nexts, k => k in indegree && indegree[k] == 1)
  {
    after, freed := indegree, [];
    ghost var wanted := (k: Key) => k in indegree && indegree[k] == 1;
    for i := 0 to |nexts|
      invariant after.Keys == indegree.Keys
      invariant forall k :: k in indegree ==> after[k] == if k in nexts[..i] then indegree[k] - 1 else indegree[k]
      invariant freed == SelectKeys(nexts[..i], wanted)
    {
      var next := nexts[i];
      assert next !in nexts[..i];
      assert nexts[..i + 1] == nexts[..i] + [next] && nexts[..i + 1][..i] == nexts[..i];
      after := after[next := after[next] - 1];
      if after[next] == 0 {
        freed := freed + [next];
      }
    }
    assert nexts[..|nexts|] == nexts;
    SelectNoDup(nexts, wanted);
    forall k: Key
      ensures k in freed <==> k in nexts && indegree[k] == 1
    {
      SelectMember(nexts, wanted, k);
    }
  }

  /** The state of the drain loop between two iterations. */
  ghost predicate Draining(nodes: seq<Node>, edges: set<Edge>, visited: seq<Key>, queue: seq<Key>,
                           indegree: map<Key, int>) {
    && DrainOrder(nodes, edges, visited + queue)
    && indegree.Keys == KeySet(nodes)
    && (forall v :: v in indegree ==> indegree[v] == InDegree(edges, v) - Hits(visited, edges, v))
    && forall v :: v in indegree && InDegree(edges, v) > 0 ==> (v in visited + queue <==> indegree[v] <= 0)
  }

  lemma DrainOrderAppend(nodes: seq<Node>, edges: set<Edge>, drained: seq<Key>, freed: seq<Key>)
    requires DrainOrder(nodes, edges, drained) && NoDup(freed)
    requires forall k :: k in freed ==> k !in drained && k in KeySet(nodes)
    requires forall k :: k in freed ==> 0 < InDegree(edges, k) <= Hits(drained, edges, k)
    ensures DrainOrder(nodes, edges, drained + freed)
  {
    var s, both := |Sources(nodes, edges)|, drained + freed;
    assert both[..s] == drained[..s];
    var tail := drained[s..];
    assert both[s..] == tail + freed;
    forall i, j | 0 <= i < j < |both[s..]|
      ensures both[s..][i] != both[s..][j]
    {
      if i < |tail| <= j {
        assert tail[i] in drained && freed[j - |tail|] in freed;
      }
    }
    forall j | s <= j < |both|
      ensures Ready(nodes, edges, both, j)
    {
      if j < |drained| {
        assert Ready(nodes, edges, drained, j);
        assert both[..j] == drained[..j];
      } else {
        assert both[j] in freed;
        assert both[..j][..|drained|] == drained;
        HitsPrefix(both[..j], |drained|, edges, both[j]);
      }
    }
  }

  lemma HitsOne(visited: seq<Key>, key: Key, edges: set<Edge>, v: Key)
    ensures Hits(visited + [key], edges, v) == Hits(visited, edges, v) + (if Edge(key, v) in edges then 1 else 0)
  {
    assert (visited + [key])[..|visited|] == visited;
  }

  /** One iteration of the loop keeps its state. */
  lemma DrainStep(nodes: seq<Node>, edges: set<Edge>, visited: seq<Key>, queue: seq<Key>, before: map<Key, int>,
                  nexts: seq<Key>, after: map<Key, int>, freed: seq<Key>)
    requires Draining(nodes, edges, visited, queue, before) && queue != []
    requires forall v :: v in nexts <==> Edge(queue[0], v) in edges
    requires forall v :: v in nexts ==> v in KeySet(nodes)
    requires after.Keys == before.Keys
    requires forall k :: k in before ==> after[k] == if k in nexts then before[k] - 1 else before[k]
    requires NoDup(freed) && forall k :: k in freed <==> k in nexts && before[k] == 1
    ensures Draining(nodes, edges, visited + [queue[0]], queue[1..] + freed, after)
  {
    var key, drained := queue[0], visited + queue;
    assert visited + [key] + (queue[1..] + freed) == drained + freed;
    forall k | k in freed
      ensures k !in drained && 0 < InDegree(edges, k) <= Hits(drained, edges, k)
    {
      FreedIsReady(nodes, edges, visited, queue, before, k);
    }
    DrainOrderAppend(nodes, edges, drained, freed);
    forall v | v in after
      ensures after[v] == InDegree(edges, v) - Hits(visited + [key], edges, v)
    {
      HitsOne(visited, key, edges, v);
    }
    forall v | v in after && InDegree(edges, v) > 0
      ensures v in drained + freed <==> after[v] <= 0
    {
      assert v in drained + freed <==> v in drained || v in freed;
    }
  }

  lemma FreedIsReady(nodes: seq<Node>, edges: set<Edge>, visited: seq<Key>, queue: seq<Key>, before: map<Key, int>,
                     k: Key)
    requires Draining(nodes, edges, visited, queue, before) && queue != []
    requires Edge(queue[0], k) in edges && k in before && before[k] == 1
    ensures k !in visited + queue && 0 < InDegree(edges, k) <= Hits(visited + queue, edges, k)
  {
    var drained := visited + queue;
    PredsMember(edges, queue[0], k);
    assert queue[0] in Preds(edges, k);
    HitsOne(visited, queue[0], edges, k);
    assert drained[..|visited| + 1] == visited + [queue[0]];
    HitsPrefix(drained, |visited| + 1, edges, k);
  }

  lemma DrainStart(nodes: seq<Node>, edges: set<Edge>, indegree: map<Key, int>, queue: seq<Key>)
    requires indegree.Keys == KeySet(nodes)
    requires forall v :: v in indegree ==> indegree[v] == InDegree(edges, v)
    requires queue == Sources(nodes, edges)
    ensures Draining(nodes, edges, [], queue, indegree)
  {
    assert [] + queue == queue;
    forall v | v in indegree && InDegree(edges, v) > 0
      ensures v !in queue
    {
      SelectMember(Keys(nodes), k => InDegree(edges, k) == 0, v);
    }
  }

  lemma DrainEnd(nodes: seq<Node>, edges: set<Edge>, visited: seq<Key>, indegree: map<Key, int>)
    requires Draining(nodes, edges, visited, [], indegree)
    ensures DrainOrder(nodes, edges, visited) && DrainComplete(nodes, edges, visited)
  {
    assert visited + [] == visited;
  }

  lemma DrainBound(nodes: seq<Node>, edges: set<Edge>, drained: seq<Key>)
    requires DrainOrder(nodes, edges, drained)
    ensures |drained| <= |nodes|
  {
    DrainedWithin(nodes, edges, drained);
    assert multiset(Keys(nodes)) == multiset(drained) + (multiset(Keys(nodes)) - multiset(drained));
    assert |multiset(drained)| <= |multiset(Keys(nodes))|;
  }

  /** The loop's whole state. */
  ghost predicate Looping(nodes: seq<Node>, kept: seq<Edge>, visited: seq<Key>, queue: seq<Key>,
                          indegree: map<Key, int>) {
    Draining(nodes, Elements(kept), visited, queue, indegree) && FifoState(nodes, kept, visited, queue)
  }

  lemma LoopStart(nodes: seq<Node>, kept: seq<Edge>, indegree: map<Key, int>, queue: seq<Key>)
    requires indegree.Keys == KeySet(nodes)
    requires forall v :: v in indegree ==> indegree[v] == InDegree(Elements(kept), v)
    requires queue == SelectKeys(Keys(nodes), k => k in indegree && indegree[k] == 0)
    ensures Looping(nodes, kept, [], queue, indegree)
  {
    KeysAreKeySet(nodes);
    SelectSame(Keys(nodes), k => k in indegree && indegree[k] == 0, k => InDegree(Elements(kept), k) == 0);
    DrainStart(nodes, Elements(kept), indegree, queue);
    assert [] + queue == queue + [];
  }

  lemma LoopStep(nodes: seq<Node>, kept: seq<Edge>, adjacency: map<Key, seq<Key>>, initial: map<Key, int>,
                 visited: seq<Key>, queue: seq<Key>, before: map<Key, int>, after: map<Key, int>, freed: seq<Key>)
    requires Tables(KeySet(nodes), Elements(kept), adjacency, initial) && Ordered(kept, adjacency)
    requires Looping(nodes, kept, visited, queue, before) && queue != [] && queue[0] in adjacency
    requires after.Keys == before.Keys
    requires forall k :: k in before ==> after[k] == if k in adjacency[queue[0]] then before[k] - 1 else before[k]
    requires NoDup(freed) && forall k :: k in freed <==> k in adjacency[queue[0]] && before[k] == 1
    requires freed == SelectKeys(adjacency[queue[0]], k => k in before && before[k] == 1)
    ensures Looping(nodes, kept, visited + [queue[0]], queue[1..] + freed, after)
  {
    DrainStep(nodes, Elements(kept), visited, queue, before, adjacency[queue[0]], after, freed);
    FreedMatches(kept, visited, queue[0], before);
    FifoStep(nodes, kept, visited, queue, freed);
  }

  lemma LoopKey(nodes: seq<Node>, kept: seq<Edge>, visited: seq<Key>, queue: seq<Key>, indegree: map<Key, int>)
    requires Looping(nodes, kept, visited, queue, indegree) && queue != []
    ensures queue[0] in KeySet(nodes) && |visited| < |nodes|
  {
    DrainBound(nodes, Elements(kept), visited + queue);
    KeyDrained(nodes, Elements(kept), visited + queue, |visited|);
    assert (visited + queue)[|visited|] == queue[0];
  }

  /** The queue loop: shift a key, record it, decrement its successors, push those that reach zero. */
  method Drain(nodes: seq<Node>, ghost kept: seq<Edge>, adjacency: map<Key, seq<Key>>, initial: map<Key, int>)
    returns (visited: seq<Key>)
    requires Tables(KeySet(nodes), Elements(kept), adjacency, initial) && Ordered(kept, adjacency)
    ensures DrainOrder(nodes, Elements(kept), visited)
    ensures DrainComplete(nodes, Elements(kept), visited)
    ensures FifoLaw(nodes, kept, visited)
  {
    var indegree := initial;
    var queue := SelectKeys(Keys(nodes), k => k in initial && initial[k] == 0);
    visited := [];
    LoopStart(nodes, kept, indegree, queue);
    while queue != []
      invariant Looping(nodes, kept, visited, queue, indegree)
      decreases |nodes| - |visited|
    {
      LoopKey(nodes, kept, visited, queue, indegree);
      var key := queue[0];
      var after, freed := DecrementAll(adjacency[key], indegree);
      LoopStep(nodes, kept, adjacency, initial, visited, queue, indegree, after, freed);
      indegree := after;
      visited, queue := visited + [key], queue[1..] + freed;
    }
    DrainEnd(nodes, Elements(kept), visited, indegree);
    FifoEnd(nodes, kept, visited);
  }

  lemma DrainedKeys(nodes: seq<Node>, edges: set<Edge>, drained: seq<Key>)
    requires DrainOrder(nodes, edges, drained)
    ensures forall k :: k in drained ==> k in KeySet(nodes)
  {
    forall k | k in drained
      ensures k in KeySet(nodes)
    {
      var i :| 0 <= i < |drained| && drained[i] == k;
      KeyDrained(nodes, edges, drained, i);
    }
  }

  lemma KeyDrained(nodes: seq<Node>, edges: set<Edge>, drained: seq<Key>, j: nat)
    requires DrainOrder(nodes, edges, drained) && j < |drained|
    ensures drained[j] in KeySet(nodes)
  {
    KeysAreKeySet(nodes);
    if j < |Sources(nodes, edges)| {
      assert drained[j] == Sources(nodes, edges)[j];
      SelectMember(Keys(nodes), k => InDegree(edges, k) == 0, drained[j]);
    } else {
      assert Ready(nodes, edges, drained, j);
    }
  }
}
