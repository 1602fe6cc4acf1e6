/** How many nodes are reached through each node of the shortest-path tree. */
module RouteCounts {
  import opened ShortestPaths

  /** w was reached, and its tree path from the source goes through v. */
  predicate Through(g: Net, from: int, dist: seq<int>, prevs: seq<int>, w: int, v: int)
    requires |dist| == |prevs| == |g.adj|
    decreases if IsNode(g, w) then dist[w] else -1
  {
    && IsNode(g, w) && dist[w] >= 0
    && (w == v
        || (w != from && IsNode(g, prevs[w]) && dist[prevs[w]] < dist[w] && Through(g, from, dist, prevs, prevs[w], v)))
  }

  /** All the nodes reached through v. */
  function Routed(g: Net, from: int, dist: seq<int>, prevs: seq<int>, v: int): set<int>
    requires |dist| == |prevs| == |g.adj|
  {
    set w | 0 <= w < |g.adj| && Through(g, from, dist, prevs, w, v)
  }

  /** The k-th settled node is a child of v. */
  predicate ChildAt(from: int, prevs: seq<int>, order: seq<int>, k: int, v: int) {
    0 <= k < |order| && order[k] != from && 0 <= order[k] < |prevs| && prevs[order[k]] == v
  }

  /** w is v, or is reached through a child of v settled at t or later. */
  ghost predicate Counted(g: Net, from: int, dist: seq<int>, prevs: seq<int>, order: seq<int>, t: int, w: int, v: int)
    requires |dist| == |prevs| == |g.adj|
  {
    w == v || exists k :: t <= k && ChildAt(from, prevs, order, k, v) && Through(g, from, dist, prevs, w, order[k])
  }

  ghost function CountedSet(g: Net, from: int, dist: seq<int>, prevs: seq<int>, order: seq<int>, t: int,
                            v: int): set<int>
    requires |dist| == |prevs| == |g.adj|
  {
    set w | 0 <= w < |g.adj| && Counted(g, from, dist, prevs, order, t, w, v)
  }

  lemma {:induction false} ThroughIsCloser(g: Net, from: int, dist: seq<int>, prevs: seq<int>, w: int, v: int)
    requires |dist| == |prevs| == |g.adj| && Through(g, from, dist, prevs, w, v)
    ensures IsNode(g, v) && 0 <= dist[v] <= dist[w] && (dist[v] == dist[w] ==> v == w)
    decreases dist[w]
  {
    if w != v {
      ThroughIsCloser(g, from, dist, prevs, prevs[w], v);
    }
  }

  lemma {:induction false} ThroughTransitive(g: Net, from: int, dist: seq<int>, prevs: seq<int>, w: int, x: int, v: int)
    requires |dist| == |prevs| == |g.adj|
    requires Through(g, from, dist, prevs, w, x) && Through(g, from, dist, prevs, x, v)
    ensures Through(g, from, dist, prevs, w, v)
    decreases dist[w]
  {
    if w != x {
      ThroughTransitive(g, from, dist, prevs, prevs[w], x, v);
    }
  }

  /** Two nodes on one tree path: one is reached through the other. */
  lemma {:induction false} ThroughChain(g: Net, from: int, dist: seq<int>, prevs: seq<int>, w: int, x: int, y: int)
    requires |dist| == |prevs| == |g.adj|
    requires Through(g, from, dist, prevs, w, x) && Through(g, from, dist, prevs, w, y)
    ensures Through(g, from, dist, prevs, x, y) || Through(g, from, dist, prevs, y, x)
    decreases dist[w]
  {
    if w != x && w != y {
      ThroughChain(g, from, dist, prevs, prevs[w], x, y);
    }
  }

  /** No node is reached through two children of one node. */
  lemma OneChild(g: Net, from: int, dist: seq<int>, prevs: seq<int>, w: int, x: int, y: int)
    requires |dist| == |prevs| == |g.adj| && IsNode(g, x) && IsNode(g, y) && x != from && y != from
    requires prevs[x] == prevs[y] && IsNode(g, prevs[x]) && dist[prevs[x]] < dist[x] && dist[prevs[x]] < dist[y]
    requires Through(g, from, dist, prevs, w, x) && Through(g, from, dist, prevs, w, y)
    ensures x == y
  {
    ThroughChain(g, from, dist, prevs, w, x, y);
    if x != y {
      if Through(g, from, dist, prevs, x, y) {
        ThroughIsCloser(g, from, dist, prevs, prevs[x], y);
      } else {
        ThroughIsCloser(g, from, dist, prevs, prevs[y], x);
      }
    }
  }

  /** The child of v that w is reached through. */
  lemma {:induction false} ChildToward(g: Net, from: int, dist: seq<int>, prevs: seq<int>, order: seq<int>, w: int,
                                       v: int)
      returns (k: int)
    requires Found(g, from, dist, prevs, order) && Through(g, from, dist, prevs, w, v) && w != v
    ensures ChildAt(from, prevs, order, k, v) && Through(g, from, dist, prevs, w, order[k])
    decreases dist[w]
  {
    if prevs[w] == v {
      assert w in order;
      k :| 0 <= k < |order| && order[k] == w;
    } else {
      k := ChildToward(g, from, dist, prevs, order, prevs[w], v);
    }
  }

  /** A child is settled after its parent. */
  lemma ChildLater(g: Net, from: int, dist: seq<int>, prevs: seq<int>, order: seq<int>, j: int, k: int)
    requires Found(g, from, dist, prevs, order) && 0 <= j < |order| && ChildAt(from, prevs, order, k, order[j])
    ensures j < k && IsNode(g, order[k]) && 0 <= dist[order[j]] < dist[order[k]]
  {
    assert order[j] in order && order[k] in order;
    assert Explained(g, dist, prevs, order, order[k]);
    assert g.latency[order[k]][order[j]] > 0 by { assert IsLink(g, order[j], order[k]); }
  }

  /** Before any node is treated a node counts itself alone. */
  lemma CountStarts(g: Net, from: int, dist: seq<int>, prevs: seq<int>, order: seq<int>, v: int)
    requires |dist| == |prevs| == |g.adj| && 0 <= v < |g.adj|
    ensures CountedSet(g, from, dist, prevs, order, |order|, v) == {v}
  {
  }

  /** When a node is treated all those reached through it have been counted. */
  lemma TreatedIsComplete(g: Net, from: int, dist: seq<int>, prevs: seq<int>, order: seq<int>, j: int)
    requires Found(g, from, dist, prevs, order) && 0 <= j < |order|
    ensures CountedSet(g, from, dist, prevs, order, j + 1, order[j]) == Routed(g, from, dist, prevs, order[j])
  {
    var v := order[j];
    assert v in order;
    forall w | 0 <= w < |g.adj|
      ensures Counted(g, from, dist, prevs, order, j + 1, w, v) <==> Through(g, from, dist, prevs, w, v)
    {
      if Through(g, from, dist, prevs, w, v) && w != v {
        var k := ChildToward(g, from, dist, prevs, order, w, v);
        ChildLater(g, from, dist, prevs, order, j, k);
      }
      if Counted(g, from, dist, prevs, order, j + 1, w, v) && w != v {
        var k :| j + 1 <= k && ChildAt(from, prevs, order, k, v) && Through(g, from, dist, prevs, w, order[k]);
        ChildLater(g, from, dist, prevs, order, j, k);
        ThroughTransitive(g, from, dist, prevs, w, order[k], v);
      }
    }
  }

  /** Treating the node x adds those reached through it to its parent, and nothing else. */
  lemma TreatOne(g: Net, from: int, dist: seq<int>, prevs: seq<int>, order: seq<int>, j: int, v: int)
    requires Found(g, from, dist, prevs, order) && 0 <= j < |order| && IsNode(g, v)
    ensures var before := CountedSet(g, from, dist, prevs, order, j + 1, v);
            var after := CountedSet(g, from, dist, prevs, order, j, v);
            if ChildAt(from, prevs, order, j, v)
            then after == before + Routed(g, from, dist, prevs, order[j])
              && before !! Routed(g, from, dist, prevs, order[j])
            else after == before
  {
    var before := CountedSet(g, from, dist, prevs, order, j + 1, v);
    var after := CountedSet(g, from, dist, prevs, order, j, v);
    forall w | w in after
      ensures w in before || (ChildAt(from, prevs, order, j, v) && Through(g, from, dist, prevs, w, order[j]))
    {
      if w != v {
        var k :| j <= k && ChildAt(from, prevs, order, k, v) && Through(g, from, dist, prevs, w, order[k]);
        assert k == j || j + 1 <= k;
      }
    }
    if ChildAt(from, prevs, order, j, v) {
      forall w | w in before && w in Routed(g, from, dist, prevs, order[j]) ensures false {
        Disjoint(g, from, dist, prevs, order, j, v, w);
      }
    }
  }

  lemma Disjoint(g: Net, from: int, dist: seq<int>, prevs: seq<int>, order: seq<int>, j: int, v: int, w: int)
    requires Found(g, from, dist, prevs, order) && ChildAt(from, prevs, order, j, v)
    requires Through(g, from, dist, prevs, w, order[j])
    ensures !Counted(g, from, dist, prevs, order, j + 1, w, v)
  {
    assert order[j] in order;
    assert Explained(g, dist, prevs, order, order[j]);
    assert g.latency[order[j]][v] > 0 by { assert IsLink(g, v, order[j]); }
    ThroughIsCloser(g, from, dist, prevs, w, order[j]);
    forall k | j + 1 <= k && ChildAt(from, prevs, order, k, v) ensures !Through(g, from, dist, prevs, w, order[k]) {
      assert order[k] in order;
      assert Explained(g, dist, prevs, order, order[k]);
      assert g.latency[order[k]][v] > 0 by { assert IsLink(g, v, order[k]); }
      if Through(g, from, dist, prevs, w, order[k]) {
        OneChild(g, from, dist, prevs, w, order[j], order[k]);
      }
    }
  }

  /** After all nodes are treated every reached node counts all those reached through it. */
  lemma CountEnds(g: Net, from: int, dist: seq<int>, prevs: seq<int>, order: seq<int>, v: int)
    requires Found(g, from, dist, prevs, order) && IsNode(g, v) && dist[v] >= 0
    ensures CountedSet(g, from, dist, prevs, order, 0, v) == Routed(g, from, dist, prevs, v)
  {
    assert v in order;
    var j :| 0 <= j < |order| && order[j] == v;
    TreatedIsComplete(g, from, dist, prevs, order, j);
    EarlierNotChildren(g, from, dist, prevs, order, j, 0);
  }

  lemma {:induction false} EarlierNotChildren(g: Net, from: int, dist: seq<int>, prevs: seq<int>, order: seq<int>,
                                              j: int, t: int)
    requires Found(g, from, dist, prevs, order) && 0 <= j < |order| && 0 <= t <= j + 1
    ensures CountedSet(g, from, dist, prevs, order, t, order[j]) ==
            CountedSet(g, from, dist, prevs, order, j + 1, order[j])
    decreases j - t
  {
    if t <= j {
      EarlierNotChildren(g, from, dist, prevs, order, j, t + 1);
      assert order[j] in order;
      TreatOne(g, from, dist, prevs, order, t, order[j]);
      if ChildAt(from, prevs, order, t, order[j]) {
        ChildLater(g, from, dist, prevs, order, j, t);
      }
    }
  }
}
