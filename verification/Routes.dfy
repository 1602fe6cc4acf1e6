/** `GetRoutesFrom`: the search with a lazy priority queue, then the count of the routes
    in reverse order. */
module Routes {
  import opened FiniteSets
  import opened ShortestPaths
  import opened RouteCounts

  /** The order of the priority queue on (-distance, node) pairs. */
  predicate Above(e: (int, int), x: (int, int)) { e.0 < x.0 || (e.0 == x.0 && e.1 >= x.1) }

  lemma {:induction false} TopExists(heap: Heap)
    requires heap != multiset{}
    ensures exists e :: e in heap && forall x :: x in heap ==> Above(e, x)
  {
    var e :| e in heap;
    var rest := heap - multiset{e};
    Taken(heap, e);
    if rest == multiset{} {
      assert forall x :: x in heap ==> Above(e, x);
    } else {
      TopExists(rest);
      var t :| t in rest && forall x :: x in rest ==> Above(t, x);
      var m := if Above(e, t) then e else t;
      assert m in heap && forall x :: x in heap ==> Above(m, x);
    }
  }

  lemma Taken(heap: Heap, e: (int, int))
    requires e in heap
    ensures forall x :: x in heap <==> x == e || x in heap - multiset{e}
  {
  }

  method Initialize(g: Net, from: int, nRoutes: array<int>, prevs: array<int>, distances: array<int>)
    requires ValidNet(g) && IsNode(g, from) && nRoutes.Length == prevs.Length == distances.Length == |g.adj|
    requires nRoutes != distances && prevs != distances && nRoutes != prevs
    modifies nRoutes, distances
    ensures forall v :: 0 <= v < |g.adj| ==> nRoutes[v] == 1
    ensures forall v :: 0 <= v < |g.adj| ==> distances[v] == if v == from then 0 else -1
  {
    for i := 0 to |g.adj|
      invariant forall v :: 0 <= v < i ==> nRoutes[v] == 1 && distances[v] == -1
    {
      distances[i] := -1;
      nRoutes[i] := 1;
    }
    distances[from] := 0;
  }

  /** The loop over the neighbours of the node just settled. */
  method RelaxNeighbours(g: Net, ghost from: int, prevs: array<int>, distances: array<int>, heap0: Heap,
                         ghost order: seq<int>, node: int, d: int) returns (heap: Heap)
    requires prevs.Length == distances.Length == |g.adj| && prevs != distances && IsNode(g, node)
    requires Searching(g, from, distances[..], prevs[..], heap0, order, node, g.adj[node])
    requires Current(g, distances[..], order, node) && d == distances[node]
    modifies prevs, distances
    ensures Searching(g, from, distances[..], prevs[..], heap, order, node, {})
  {
    heap := heap0;
    var todo := g.adj[node];
    ghost var dist, prev := distances[..], prevs[..];
    while todo != {}
      invariant todo <= g.adj[node] && dist == distances[..] && prev == prevs[..] && d == distances[node]
      invariant Searching(g, from, dist, prev, heap, order, node, todo) && Current(g, dist, order, node)
    {
      SomeMember(todo);
      var neighbour :| neighbour in todo;
      heap := RelaxOne(g, from, prevs, distances, heap, order, node, d, todo, neighbour);
      dist, prev := distances[..], prevs[..];
      todo := todo - {neighbour};
    }
  }

  method PopTop(heap: Heap) returns (p: (int, int), rest: Heap)
    requires heap != multiset{}
    ensures p in heap && rest == heap - multiset{p} && |rest| < |heap|
    ensures forall x :: x in heap ==> p.0 <= x.0
  {
    TopExists(heap);
    p :| p in heap && forall x :: x in heap ==> Above(p, x);
    rest := heap - multiset{p};
  }

  /** A node popped with its own distance is put in order and its neighbours relaxed. */
  method SettleNode(g: Net, ghost from: int, prevs: array<int>, distances: array<int>, ghost heap0: Heap, rest: Heap,
                    order0: seq<int>, ghost u: int, p: (int, int)) returns (heap: Heap, order: seq<int>)
    requires prevs.Length == distances.Length == |g.adj| && prevs != distances
    requires Searching(g, from, distances[..], prevs[..], heap0, order0, u, {})
    requires p in heap0 && IsNode(g, p.1) && p.0 == distances[p.1] && rest == heap0 - multiset{p}
    requires forall x :: x in heap0 ==> p.0 <= x.0
    modifies prevs, distances
    ensures Searching(g, from, distances[..], prevs[..], heap, order, p.1, {}) && order == order0 + [p.1]
  {
    Settle(g, from, distances[..], prevs[..], heap0, order0, u, p);
    order := order0 + [p.1];
    heap := RelaxNeighbours(g, from, prevs, distances, rest, order, p.1, p.0);
  }

  method RelaxOne(g: Net, ghost from: int, prevs: array<int>, distances: array<int>, heap0: Heap,
                  ghost order: seq<int>, node: int, d: int, ghost todo: set<int>, neighbour: int) returns (heap: Heap)
    requires prevs.Length == distances.Length == |g.adj| && prevs != distances && IsNode(g, node)
    requires neighbour in g.adj[node]
    requires Searching(g, from, distances[..], prevs[..], heap0, order, node, todo)
    requires Current(g, distances[..], order, node) && d == distances[node]
    modifies prevs, distances
    ensures Searching(g, from, distances[..], prevs[..], heap, order, node, todo - {neighbour})
    ensures Current(g, distances[..], order, node) && d == distances[node]
  {
    heap := heap0;
    assert IsLink(g, node, neighbour);
    ghost var dist, was := distances[..], prevs[..];
    var neighbourDist := d + g.latency[neighbour][node];
    if distances[neighbour] == -1 || distances[neighbour] > neighbourDist {
      Shorten(g, from, dist, was, heap, order, node, todo, neighbour, neighbourDist);
      distances[neighbour] := neighbourDist;
      prevs[neighbour] := node;
      heap := heap + multiset{(neighbourDist, neighbour)};
      assert distances[..] == dist[neighbour := neighbourDist] && prevs[..] == was[neighbour := node];
    } else {
      KeepDistance(g, from, dist, was, heap, order, node, todo, neighbour);
    }
  }

  method Search(g: Net, from: int, prevs: array<int>, distances: array<int>) returns (order: seq<int>)
    requires ValidNet(g) && IsNode(g, from) && prevs.Length == distances.Length == |g.adj| && prevs != distances
    requires forall v :: 0 <= v < |g.adj| ==> distances[v] == if v == from then 0 else -1
    modifies prevs, distances
    ensures Found(g, from, distances[..], prevs[..], order)
  {
    order := [];
    var heap: Heap := multiset{(0, from)};
    ghost var u := from;
    ghost var dist, prev := distances[..], prevs[..];
    while heap != multiset{}
      invariant dist == distances[..] && prev == prevs[..]
      invariant Searching(g, from, dist, prev, heap, order, u, {})
      decreases |g.adj| - |order|, |heap|
    {
      var p, rest := PopTop(heap);
      if p.0 == distances[p.1] {
        heap, order := SettleNode(g, from, prevs, distances, heap, rest, order, u, p);
        u := p.1;
        dist, prev := distances[..], prevs[..];
        OrderBounded(g, dist, order);
      } else {
        DropStale(g, from, dist, prev, heap, order, u, p);
        heap := rest;
      }
    }
  }

  lemma OrderBounded(g: Net, dist: seq<int>, order: seq<int>)
    requires |dist| == |g.adj| && Settled(g, dist, order)
    ensures |order| <= |g.adj|
  {
    forall i | 0 <= i < |order| ensures 0 <= order[i] < |g.adj| { assert order[i] in order; }
    DistinctBelow(order, |g.adj|);
  }

  /** Every node knows how many nodes were reached through it; nodes not reached keep 1. */
  ghost predicate RoutesCounted(g: Net, from: int, dist: seq<int>, prevs: seq<int>, counts: seq<int>)
    requires |dist| == |prevs| == |g.adj| == |counts|
  {
    forall v :: IsNode(g, v) ==> RouteCount(g, from, dist, prevs, v) == counts[v]
  }

  function RouteCount(g: Net, from: int, dist: seq<int>, prevs: seq<int>, v: int): nat
    requires |dist| == |prevs| == |g.adj| && IsNode(g, v)
  {
    if dist[v] >= 0 then |Routed(g, from, dist, prevs, v)| else 1
  }

  /** The reverse pass: each node passes its count on to the node before it. */
  method CountRoutes(g: Net, from: int, nRoutes: array<int>, prevs: array<int>, distances: array<int>, order: seq<int>,
                     ghost dist: seq<int>, ghost prev: seq<int>) returns (ghost counts: seq<int>)
    requires nRoutes.Length == prevs.Length == distances.Length == |g.adj|
    requires nRoutes != prevs && nRoutes != distances && dist == distances[..] && prev == prevs[..]
    requires Found(g, from, dist, prev, order) && forall v :: 0 <= v < |g.adj| ==> nRoutes[v] == 1
    modifies nRoutes
    ensures nRoutes[..] == counts && RoutesCounted(g, from, dist, prev, counts)
  {
    counts := nRoutes[..];
    CountingStarts(g, from, dist, prev, order, counts);
    var t := |order|;
    while t > 0
      invariant 0 <= t <= |order| && distances[..] == dist && prevs[..] == prev && nRoutes[..] == counts
      invariant Counting(g, from, dist, prev, order, t, counts)
    {
      counts := Treat(g, from, nRoutes, prevs, distances, order, t - 1, t, dist, prev, counts);
      t := t - 1;
    }
    CountingEnds(g, from, dist, prev, order, t, counts);
  }

  /** One turn of the reverse pass, on the node order[t]. */
  method Treat(ghost g: Net, from: int, nRoutes: array<int>, prevs: array<int>, distances: array<int>, order: seq<int>,
               t: int, ghost last: int, ghost dist: seq<int>, ghost prev: seq<int>, ghost before: seq<int>)
    returns (ghost counts: seq<int>)
    requires nRoutes.Length == prevs.Length == distances.Length == |g.adj| && nRoutes != prevs && nRoutes != distances
    requires dist == distances[..] && prev == prevs[..] && nRoutes[..] == before
    requires Found(g, from, dist, prev, order) && 0 <= t < |order|
    requires last == t + 1 && Counting(g, from, dist, prev, order, last, before)
    modifies nRoutes
    ensures nRoutes[..] == counts && Counting(g, from, dist, prev, order, t, counts)
  {
    NodeOfOrder(g, from, dist, prev, order, t);
    var node := order[t];
    assert distances[node] == dist[node] && prevs[node] == prev[node];
    PassOn(from, nRoutes, prevs, distances, node);
    counts := nRoutes[..];
    assert counts == if node == from then before else before[prev[node] := before[prev[node]] + before[node]];
    CountOne(g, from, dist, prev, order, t, last, before, counts);
  }

  /** The routes through one node are routes through the node before it. */
  method PassOn(from: int, nRoutes: array<int>, prevs: array<int>, distances: array<int>, node: int)
    requires nRoutes.Length == prevs.Length == distances.Length && nRoutes != prevs && nRoutes != distances
    requires 0 <= node < prevs.Length && 0 <= distances[node] && (node != from ==> 0 <= prevs[node] < nRoutes.Length)
    modifies nRoutes
    ensures nRoutes[..] == if node == from then old(nRoutes[..])
                           else old(nRoutes[..])[prevs[node] := old(nRoutes[prevs[node]]) + old(nRoutes[node])]
  {
    if distances[node] != -1 && node != from {
      nRoutes[prevs[node]] := nRoutes[prevs[node]] + nRoutes[node];
    }
  }

  lemma CountingStarts(g: Net, from: int, dist: seq<int>, prevs: seq<int>, order: seq<int>, counts: seq<int>)
    requires |dist| == |prevs| == |g.adj| == |counts| && forall v :: 0 <= v < |counts| ==> counts[v] == 1
    ensures Counting(g, from, dist, prevs, order, |order|, counts)
  {
    forall v | IsNode(g, v) ensures CountSoFar(g, from, dist, prevs, order, |order|, v) == counts[v] {
      CountStarts(g, from, dist, prevs, order, v);
    }
  }

  lemma CountingEnds(g: Net, from: int, dist: seq<int>, prevs: seq<int>, order: seq<int>, t: int, counts: seq<int>)
    requires Found(g, from, dist, prevs, order) && t == 0 && Counting(g, from, dist, prevs, order, t, counts)
    ensures RoutesCounted(g, from, dist, prevs, counts)
  {
    forall v | IsNode(g, v) ensures RouteCount(g, from, dist, prevs, v) == counts[v] {
      assert CountSoFar(g, from, dist, prevs, order, t, v) == counts[v];
      if dist[v] >= 0 {
        CountEnds(g, from, dist, prevs, order, v);
      }
    }
  }

  lemma NodeOfOrder(g: Net, from: int, dist: seq<int>, prevs: seq<int>, order: seq<int>, t: nat)
    requires Found(g, from, dist, prevs, order) && t < |order|
    ensures order[t] in order && IsNode(g, order[t]) && dist[order[t]] >= 0
    ensures order[t] != from ==> Explained(g, dist, prevs, order, order[t]) && 0 <= prevs[order[t]] < |dist|
  {
    assert order[t] != from ==> Explained(g, dist, prevs, order, order[t]);
  }

  /** The counts when the nodes from order[t] on have been treated. */
  ghost predicate Counting(g: Net, from: int, dist: seq<int>, prevs: seq<int>, order: seq<int>, t: int,
                           counts: seq<int>)
    requires |dist| == |prevs| == |g.adj|
  {
    |counts| == |g.adj| &&
    forall v {:trigger CountSoFar(g, from, dist, prevs, order, t, v)} ::
      IsNode(g, v) ==> CountSoFar(g, from, dist, prevs, order, t, v) == counts[v]
  }

  ghost function CountSoFar(g: Net, from: int, dist: seq<int>, prevs: seq<int>, order: seq<int>, t: int, v: int): nat
    requires |dist| == |prevs| == |g.adj| && IsNode(g, v)
  {
    if dist[v] >= 0 then |CountedSet(g, from, dist, prevs, order, t, v)| else 1
  }

  lemma CountOne(g: Net, from: int, dist: seq<int>, prevs: seq<int>, order: seq<int>, t: int, last: int,
                 before: seq<int>, after: seq<int>)
    requires Found(g, from, dist, prevs, order) && 0 <= t < |order|
    requires last == t + 1 && Counting(g, from, dist, prevs, order, last, before)
    requires order[t] in order && IsNode(g, order[t]) && |after| == |before|
    requires order[t] != from ==> Explained(g, dist, prevs, order, order[t])
    requires after == if order[t] == from then before
                      else before[prevs[order[t]] := before[prevs[order[t]]] + before[order[t]]]
    ensures Counting(g, from, dist, prevs, order, t, after)
  {
    TreatedIsComplete(g, from, dist, prevs, order, t);
    assert CountSoFar(g, from, dist, prevs, order, last, order[t]) == before[order[t]];
    forall v | IsNode(g, v) ensures CountSoFar(g, from, dist, prevs, order, t, v) == after[v] {
      assert CountSoFar(g, from, dist, prevs, order, last, v) == before[v];
      TreatOne(g, from, dist, prevs, order, t, v);
    }
  }

  /** The result of `GetRoutesFrom`: shortest latencies, a tree of shortest paths, and
      for each node the number of nodes whose path goes through it. */
  ghost predicate RoutesFound(g: Net, from: int, dist: seq<int>, prevs: seq<int>, counts: seq<int>, order: seq<int>)
    requires |dist| == |prevs| == |g.adj| == |counts|
  {
    && Found(g, from, dist, prevs, order) && RoutesCounted(g, from, dist, prevs, counts)
    && (forall v :: IsNode(g, v) ==> (dist[v] == -1 <==> !exists p :: Leads(g, from, p, v)))
    && (forall v :: IsNode(g, v) && dist[v] != -1 ==> Shortest(g, from, v, dist[v]))
  }

  method GetRoutesFrom(g: Net, from: int, nRoutes: array<int>, prevs: array<int>, distances: array<int>)
    returns (ghost dist: seq<int>, ghost prev: seq<int>, ghost counts: seq<int>, ghost order: seq<int>)
    requires ValidNet(g) && IsNode(g, from) && nRoutes.Length == prevs.Length == distances.Length == |g.adj|
    requires nRoutes != distances && prevs != distances && nRoutes != prevs
    modifies nRoutes, prevs, distances
    ensures distances[..] == dist && prevs[..] == prev && nRoutes[..] == counts
    ensures RoutesFound(g, from, dist, prev, counts, order)
  {
    Initialize(g, from, nRoutes, prevs, distances);
    var stack := Search(g, from, prevs, distances);
    order, dist, prev := stack, distances[..], prevs[..];
    counts := CountRoutes(g, from, nRoutes, prevs, distances, stack, dist, prev);
    forall v | IsNode(g, v)
      ensures dist[v] == -1 <==> !exists p :: Leads(g, from, p, v)
      ensures dist[v] != -1 ==> Shortest(g, from, v, dist[v])
    {
      DistancesAreShortest(g, from, dist, prev, order, v);
    }
  }
}
