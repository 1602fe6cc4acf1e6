/** Shortest latencies in the overlay, and the state of the lazy search for them. */
module ShortestPaths {

  /** adj[u] is the set of the neighbours of u, latency[v][u] the latency of their link. */
  datatype Net = Net(adj: seq<set<int>>, latency: seq<seq<int>>)

  ghost predicate ValidNet(g: Net) {
    && |g.latency| == |g.adj|
    && (forall u :: IsNode(g, u) ==> |g.latency[u]| == |g.adj|)
    && (forall u, v :: IsNode(g, u) && v in g.adj[u] ==> IsNode(g, v))
    && (forall u, v :: IsLink(g, u, v) ==> g.latency[v][u] > 0)
  }

  predicate IsNode(g: Net, v: int) { 0 <= v < |g.adj| && v < |g.latency| && |g.latency[v]| == |g.adj| }

  predicate IsLink(g: Net, u: int, v: int) { IsNode(g, u) && IsNode(g, v) && v in g.adj[u] }

  function Link(g: Net, u: int, v: int): int
    requires IsLink(g, u, v)
  {
    g.latency[v][u]
  }

  /** A path from `from`, as the list of the nodes it goes through. */
  predicate IsPath(g: Net, from: int, p: seq<int>) {
    |p| > 0 && p[0] == from && IsNode(g, from) && forall i :: 0 <= i < |p| - 1 ==> IsLink(g, p[i], p[i + 1])
  }

  function Length(g: Net, from: int, p: seq<int>): int
    requires IsPath(g, from, p)
  {
    if |p| == 1 then 0
    else Length(g, from, p[..|p| - 1]) + Link(g, p[|p| - 2], p[|p| - 1])
  }

  predicate Leads(g: Net, from: int, p: seq<int>, v: int) { IsPath(g, from, p) && p[|p| - 1] == v }

  /** d is the latency of a shortest path to v. */
  ghost predicate Shortest(g: Net, from: int, v: int, d: int) {
    && (exists p :: Leads(g, from, p, v) && Length(g, from, p) == d)
    && forall p :: Leads(g, from, p, v) ==> d <= Length(g, from, p)
  }

  // ---- the state of the search ------------------------------------------------------

  type Heap = multiset<(int, int)>     // (distance, node), least distance first

  /** Nodes are settled once each, by increasing distance. */
  ghost predicate Settled(g: Net, dist: seq<int>, order: seq<int>)
    requires |dist| == |g.adj|
  {
    && (forall x :: x in order ==> IsNode(g, x) && dist[x] >= 0)
    && (forall i, j :: 0 <= i < j < |order| ==> order[i] != order[j])
    && (forall i, j :: 0 <= i < j < |order| && IsNode(g, order[i]) && IsNode(g, order[j]) ==>
          dist[order[i]] <= dist[order[j]])
  }

  /** An entry is never below the distance of its node nor below any settled distance; the
      entry with the node's distance is there, once, exactly until the node is settled. */
  ghost predicate Queued(g: Net, dist: seq<int>, heap: Heap, order: seq<int>)
    requires |dist| == |g.adj|
  {
    && (forall e :: e in heap ==> IsNode(g, e.1) && 0 <= dist[e.1] <= e.0)
    && (forall e, x :: e in heap && x in order && IsNode(g, x) ==> dist[x] <= e.0)
    && (forall v :: IsNode(g, v) && dist[v] >= 0 ==> heap[(dist[v], v)] == if v in order then 0 else 1)
  }

  /** v was reached from a settled node, by a link that explains its distance. */
  predicate Explained(g: Net, dist: seq<int>, prevs: seq<int>, order: seq<int>, v: int)
    requires |dist| == |prevs| == |g.adj| && IsNode(g, v)
  {
    && prevs[v] in order && IsLink(g, prevs[v], v) && 0 <= dist[prevs[v]]
    && dist[v] == dist[prevs[v]] + Link(g, prevs[v], v)
  }

  ghost predicate Tree(g: Net, from: int, dist: seq<int>, prevs: seq<int>, order: seq<int>)
    requires |dist| == |prevs| == |g.adj|
  {
    && IsNode(g, from) && dist[from] == 0
    && (forall v :: IsNode(g, v) ==> dist[v] >= -1)
    && forall v {:trigger Explained(g, dist, prevs, order, v)} ::
         IsNode(g, v) && dist[v] >= 0 && v != from ==> Explained(g, dist, prevs, order, v)
  }

  /** The link from u to v does not shorten the distance of v. */
  predicate Tight(g: Net, dist: seq<int>, u: int, v: int)
    requires |dist| == |g.adj| && IsLink(g, u, v)
  {
    0 <= dist[v] <= dist[u] + Link(g, u, v)
  }

  /** No link out of a settled node shortens a distance, but for those of u that remain to
      be looked at. */
  ghost predicate Relaxed(g: Net, dist: seq<int>, order: seq<int>, u: int, todo: set<int>)
    requires |dist| == |g.adj|
  {
    forall x, v :: x in order && IsLink(g, x, v) && !(x == u && v in todo) ==> Tight(g, dist, x, v)
  }

  /** u is the node being treated: it is settled, and no settled distance exceeds its own. */
  ghost predicate Current(g: Net, dist: seq<int>, order: seq<int>, u: int)
    requires |dist| == |g.adj|
  {
    u in order && forall x :: x in order && IsNode(g, x) && IsNode(g, u) ==> dist[x] <= dist[u]
  }

  ghost predicate Searching(g: Net, from: int, dist: seq<int>, prevs: seq<int>, heap: Heap, order: seq<int>,
                            u: int, todo: set<int>) {
    && ValidNet(g) && |dist| == |prevs| == |g.adj|
    && Settled(g, dist, order) && Queued(g, dist, heap, order)
    && Tree(g, from, dist, prevs, order) && Relaxed(g, dist, order, u, todo)
  }

  /** A stale entry is dropped. */
  lemma DropStale(g: Net, from: int, dist: seq<int>, prevs: seq<int>, heap: Heap, order: seq<int>, u: int,
                  e: (int, int))
    requires Searching(g, from, dist, prevs, heap, order, u, {}) && e in heap && IsNode(g, e.1) && e.0 != dist[e.1]
    ensures Searching(g, from, dist, prevs, heap - multiset{e}, order, u, {})
  {
  }

  /** The top entry settles its node when it carries its distance. */
  lemma {:induction false} Settle(g: Net, from: int, dist: seq<int>, prevs: seq<int>, heap: Heap, order: seq<int>,
                                  u: int, e: (int, int))
    requires Searching(g, from, dist, prevs, heap, order, u, {}) && e in heap && IsNode(g, e.1) && e.0 == dist[e.1]
    requires forall x :: x in heap ==> e.0 <= x.0
    ensures e.1 !in order
    ensures Searching(g, from, dist, prevs, heap - multiset{e}, order + [e.1], e.1, g.adj[e.1])
    ensures Current(g, dist, order + [e.1], e.1)
  {
    var v := e.1;
    assert heap[(dist[v], v)] > 0;
    SettleQueued(g, dist, heap, order, e);
    assert Tree(g, from, dist, prevs, order + [v]) by {
      forall x | IsNode(g, x) && dist[x] >= 0 && x != from ensures Explained(g, dist, prevs, order + [v], x) {
        assert Explained(g, dist, prevs, order, x);
      }
    }
    forall x, y | x in order + [v] && IsLink(g, x, y) && !(x == v && y in g.adj[v]) ensures Tight(g, dist, x, y) {
      assert x in order;
    }
  }

  lemma SettleQueued(g: Net, dist: seq<int>, heap: Heap, order: seq<int>, e: (int, int))
    requires |dist| == |g.adj| && Queued(g, dist, heap, order) && e in heap && IsNode(g, e.1) && e.0 == dist[e.1]
    requires forall x :: x in heap ==> e.0 <= x.0
    ensures Queued(g, dist, heap - multiset{e}, order + [e.1])
  {
    var heap' := heap - multiset{e};
    forall v | IsNode(g, v) && dist[v] >= 0 ensures heap'[(dist[v], v)] == if v in order + [e.1] then 0 else 1 {
      assert heap[(dist[v], v)] == if v in order then 0 else 1;
    }
  }

  /** A link that shortens the distance of v, which cannot be settled yet. */
  lemma Shorten(g: Net, from: int, dist: seq<int>, prevs: seq<int>, heap: Heap, order: seq<int>, u: int, todo: set<int>,
                v: int, d: int)
    requires Searching(g, from, dist, prevs, heap, order, u, todo) && Current(g, dist, order, u)
    requires IsLink(g, u, v) && d == dist[u] + Link(g, u, v) && (dist[v] == -1 || dist[v] > d)
    ensures v !in order
    ensures Searching(g, from, dist[v := d], prevs[v := u], heap + multiset{(d, v)}, order, u, todo - {v})
    ensures Current(g, dist[v := d], order, u)
  {
    assert v !in order;
    ShortenTree(g, from, dist, prevs, order, u, v, d);
    ShortenRelaxed(g, dist, order, u, todo, v, d);
  }

  lemma ShortenTree(g: Net, from: int, dist: seq<int>, prevs: seq<int>, order: seq<int>, u: int, v: int, d: int)
    requires |dist| == |prevs| == |g.adj| && Tree(g, from, dist, prevs, order)
    requires u in order && IsLink(g, u, v) && 0 <= dist[u] <= d && v !in order && v != from
             && d == dist[u] + Link(g, u, v)
    ensures Tree(g, from, dist[v := d], prevs[v := u], order)
  {
    var dist', prevs' := dist[v := d], prevs[v := u];
    forall x | IsNode(g, x) && dist'[x] >= 0 && x != from ensures Explained(g, dist', prevs', order, x) {
      if x != v {
        assert Explained(g, dist, prevs, order, x);
      }
    }
  }

  lemma ShortenRelaxed(g: Net, dist: seq<int>, order: seq<int>, u: int, todo: set<int>, v: int, d: int)
    requires |dist| == |g.adj| && Relaxed(g, dist, order, u, todo) && IsLink(g, u, v) && v !in order
    requires 0 <= d == dist[u] + Link(g, u, v) && (dist[v] < 0 || d < dist[v])
    ensures Relaxed(g, dist[v := d], order, u, todo - {v})
  {
    var dist' := dist[v := d];
    forall x, y | x in order && IsLink(g, x, y) && !(x == u && y in todo - {v}) ensures Tight(g, dist', x, y) {
      if !(x == u && y == v) {
        assert Tight(g, dist, x, y);
      }
    }
  }

  /** A link that shortens nothing. */
  lemma KeepDistance(g: Net, from: int, dist: seq<int>, prevs: seq<int>, heap: Heap, order: seq<int>, u: int,
                     todo: set<int>, v: int)
    requires Searching(g, from, dist, prevs, heap, order, u, todo)
    requires IsLink(g, u, v) && Tight(g, dist, u, v)
    ensures Searching(g, from, dist, prevs, heap, order, u, todo - {v})
  {
    forall x, y | x in order && IsLink(g, x, y) && !(x == u && y in todo - {v}) ensures Tight(g, dist, x, y) {
    }
  }

  // ---- what the final state means ----------------------------------------------------

  /** The search is over. */
  ghost predicate Found(g: Net, from: int, dist: seq<int>, prevs: seq<int>, order: seq<int>) {
    && ValidNet(g) && |dist| == |prevs| == |g.adj|
    && Settled(g, dist, order) && Tree(g, from, dist, prevs, order)
    && (forall x, v :: x in order && IsLink(g, x, v) ==> Tight(g, dist, x, v))
    && forall v :: IsNode(g, v) && dist[v] >= 0 ==> v in order
  }

  lemma {:induction false} NoShorterPath(g: Net, from: int, dist: seq<int>, prevs: seq<int>, order: seq<int>,
                                         p: seq<int>)
    requires Found(g, from, dist, prevs, order) && IsPath(g, from, p)
    ensures IsNode(g, p[|p| - 1]) && 0 <= dist[p[|p| - 1]] <= Length(g, from, p)
    decreases |p|
  {
    var k := |p| - 1;
    if k > 0 {
      NoShorterPath(g, from, dist, prevs, order, p[..k]);
      assert IsLink(g, p[k - 1], p[k - 1 + 1]);
      assert p[k - 1] in order;
      assert Tight(g, dist, p[k - 1], p[k]);
    }
  }

  lemma {:induction false} TreePath(g: Net, from: int, dist: seq<int>, prevs: seq<int>, order: seq<int>, v: int)
      returns (p: seq<int>)
    requires Found(g, from, dist, prevs, order) && IsNode(g, v) && dist[v] >= 0
    ensures Leads(g, from, p, v) && Length(g, from, p) == dist[v]
    decreases dist[v]
  {
    if v == from {
      p := [from];
    } else {
      assert Explained(g, dist, prevs, order, v);
      var q := TreePath(g, from, dist, prevs, order, prevs[v]);
      p := q + [v];
      assert p[..|p| - 1] == q;
    }
  }

  /** The distances found are those of shortest paths, and -1 where there is no path. */
  lemma DistancesAreShortest(g: Net, from: int, dist: seq<int>, prevs: seq<int>, order: seq<int>, v: int)
    requires Found(g, from, dist, prevs, order) && IsNode(g, v)
    ensures dist[v] == -1 <==> !exists p :: Leads(g, from, p, v)
    ensures dist[v] != -1 ==> Shortest(g, from, v, dist[v])
  {
    if dist[v] >= 0 {
      var p := TreePath(g, from, dist, prevs, order, v);
    }
    forall p | Leads(g, from, p, v) ensures 0 <= dist[v] <= Length(g, from, p) {
      NoShorterPath(g, from, dist, prevs, order, p);
    }
  }
}
