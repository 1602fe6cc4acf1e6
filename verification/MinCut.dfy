/** The randomised minimum cut of the overlay simulator. Every random choice is left
    open; the contraction and the renumbering are done in place. */
module MinCut {
  import opened FiniteSets
  import opened Cuts
  import opened Contraction
  import opened Renumbering

  /** Every vertex and edge is live, and they agree. */
  ghost predicate Whole(vs: seq<Vertex>, es: seq<Edge>) {
    && Consistent(vs, es)
    && (forall x :: 0 <= x < |vs| ==> !vs[x].gone)
    && (forall k :: 0 <= k < |es| ==> !es[k].gone)
  }

  class MinCutGraph {
    var nodes: seq<Vertex>
    var edges: seq<Edge>

    ghost predicate Valid()
      reads this
    {
      Whole(nodes, edges)
    }

    /** One edge for each neighbour with a greater number. */
    constructor (adjacency: seq<seq<int>>)
      requires forall i, j :: 0 <= i < |adjacency| && 0 <= j < |adjacency[i]| ==> 0 <= adjacency[i][j] < |adjacency|
      ensures Valid() && |nodes| == |adjacency| && Pairs(edges) == EdgesOf(adjacency, |adjacency|)
    {
      var vs := seq(|adjacency|, i => Vertex({}, false));
      var es: seq<Edge> := [];
      var i := 0;
      while i < |adjacency|
        invariant 0 <= i <= |adjacency| && |vs| == |adjacency| && Whole(vs, es)
        invariant Pairs(es) == EdgesOf(adjacency, i)
      {
        var j := 0;
        while j < |adjacency[i]|
          invariant 0 <= j <= |adjacency[i]| && |vs| == |adjacency| && Whole(vs, es)
          invariant Pairs(es) == EdgesOf(adjacency, i) + EdgesFrom(i, adjacency[i][..j])
        {
          var x := adjacency[i][j];
          assert adjacency[i][..j + 1][..j] == adjacency[i][..j];
          if x > i {
            AddEdge(vs, es, i, x);
            vs := vs[i := Vertex(vs[i].edges + {|es|}, false)];
            vs := vs[x := Vertex(vs[x].edges + {|es|}, false)];
            es := es + [Edge(i, x, false)];
          }
          j := j + 1;
        }
        assert adjacency[i][..|adjacency[i]|] == adjacency[i];
        i := i + 1;
      }
      nodes, edges := vs, es;
    }

    constructor Copy(g: MinCutGraph)
      ensures nodes == g.nodes && edges == g.edges
    {
      nodes, edges := g.nodes, g.edges;
    }

    /** Annul n2 and redirect its edges to n1. */
    method MergeEdge(n1: int, n2: int)
      requires Consistent(nodes, edges) && Live(nodes, n1) && Live(nodes, n2) && n1 != n2
      modifies this
      ensures Live(old(nodes), n2)
      ensures Redirecting(old(nodes), old(edges), nodes, edges, n1, n2, old(nodes)[n2].edges)
    {
      ghost var vs0, es0 := nodes, edges;
      var all := nodes[n2].edges;
      RedirectStart(vs0, es0, n1, n2);
      nodes := nodes[n2 := Vertex(nodes[n2].edges, true)];
      var todo := all;
      assert all - todo == {};
      while todo != {}
        invariant todo <= all == vs0[n2].edges
        invariant Redirecting(vs0, es0, nodes, edges, n1, n2, all - todo)
      {
        SomeMember(todo);
        var i :| i in todo;
        RedirectOne(vs0, es0, nodes, edges, n1, n2, all - todo, i);
        if edges[i].a == n1 || edges[i].b == n1 {
          nodes := nodes[n1 := Vertex(nodes[n1].edges - {i}, false)];
          edges := edges[i := Edge(edges[i].a, edges[i].b, true)];
        } else {
          nodes := nodes[n1 := Vertex(nodes[n1].edges + {i}, false)];
          if edges[i].a == n2 {
            edges := edges[i := Edge(n1, edges[i].b, false)];
          } else {
            edges := edges[i := Edge(edges[i].a, n1, false)];
          }
        }
        assert all - (todo - {i}) == all - todo + {i};
        todo := todo - {i};
      }
      assert all - todo == all;
    }

    /** Annul one end of a live edge, nMerge times. `orig` is the graph at the start. */
    method MergeEdges(nMerge: nat, ghost orig: seq<Pair>, ghost n: nat) returns (ghost rep: seq<int>)
      requires Valid() && |nodes| == n && Pairs(edges) == orig
      requires Connected(orig, n) && nMerge + 2 <= n
      modifies this
      ensures Merged(orig, n, rep, nodes, edges) && LiveCount(nodes) == n - nMerge && Joined(orig, rep)
    {
      rep := seq(n, v => v);
      MergedStart(nodes, edges, orig, rep);
      JoinedStart(orig, rep);
      var left := nMerge;
      while left > 0
        invariant 0 <= left <= nMerge
        invariant Merged(orig, n, rep, nodes, edges) && LiveCount(nodes) == n - (nMerge - left) && Joined(orig, rep)
      {
        ghost var live := LiveEdgeExists(orig, n, rep, nodes, edges);
        var eId :| 0 <= eId < |edges| && !edges[eId].gone;
        var n1, n2 := edges[eId].a, edges[eId].b;
        ghost var vs0, es0 := nodes, edges;
        MergeEdge(n1, n2);
        MergeStep(orig, n, rep, vs0, es0, nodes, edges, n1, n2);
        OneLess(vs0, nodes, n2);
        JoinedStep(orig, rep, eId, n1, n2);
        rep := MergeInto(rep, n1, n2);
        left := left - 1;
      }
    }

    /** The names of the edges of one vertex, from its old number to its new one. */
    method RenameEnds(incident: set<int>, i: int, nextId: int)
      requires forall k :: k in incident ==> 0 <= k < |edges|
      modifies this`edges
      ensures RenamedEdges(old(edges), edges, incident, i, nextId)
    {
      var todo := incident;
      while todo != {}
        invariant todo <= incident
        invariant RenamedEdges(old(edges), edges, incident - todo, i, nextId)
      {
        SomeMember(todo);
        var j :| j in todo;
        if edges[j].a == i {
          edges := edges[j := Edge(nextId, edges[j].b, edges[j].gone)];
        } else {
          edges := edges[j := Edge(edges[j].a, nextId, edges[j].gone)];
        }
        todo := todo - {j};
      }
    }

    method RenumNodes()
      requires Consistent(nodes, edges)
      modifies this
      ensures |edges| == |old(edges)| && VerticesRenumbered(old(nodes), old(edges), nodes, edges)
    {
      ghost var vs0, es0 := nodes, edges;
      var nextId, i := 0, 0;
      while i < |nodes|
        invariant Vertices(vs0, es0, nodes, edges, i, nextId)
      {
        if !nodes[i].gone {
          ghost var vs, es := nodes, edges;
          nodes := nodes[nextId := nodes[i]];
          RenameEnds(nodes[nextId].edges, i, nextId);
          VerticesStep(vs0, es0, vs, es, i, nextId, edges);
          nextId := nextId + 1;
        } else {
          VerticesSkip(vs0, es0, nodes, edges, i, nextId);
        }
        i := i + 1;
      }
      VerticesEnd(vs0, es0, nodes, edges, nextId);
      nodes := nodes[..nextId];
    }

    /** The edge i takes the number nextId, in the list and at both of its ends. */
    method MoveEdge(ghost es0: seq<Edge>, i: int, nextId: int)
      requires Edges(es0, nodes, edges, i, nextId) && i < |edges| && !edges[i].gone
      modifies this
      ensures Edges(es0, nodes, edges, i + 1, nextId + 1) && |nodes| == |old(nodes)|
    {
      EdgesStep(es0, nodes, edges, i, nextId);
      var e := edges[i];
      edges := edges[nextId := e];
      nodes := nodes[e.a := Renumber(nodes[e.a], i, nextId)];
      nodes := nodes[e.b := Renumber(nodes[e.b], i, nextId)];
    }

    /** The body of the loop of `RenumEdges`. */
    method KeepEdge(ghost es0: seq<Edge>, i: int, nextId: int) returns (next: int)
      requires Edges(es0, nodes, edges, i, nextId) && i < |edges|
      modifies this
      ensures Edges(es0, nodes, edges, i + 1, next) && |nodes| == |old(nodes)|
    {
      if !edges[i].gone {
        MoveEdge(es0, i, nextId);
        next := nextId + 1;
      } else {
        EdgesSkip(es0, nodes, edges, i, nextId);
        next := nextId;
      }
    }

    method RenumEdges()
      requires Consistent(nodes, edges) && forall x :: 0 <= x < |nodes| ==> !nodes[x].gone
      modifies this
      ensures Valid() && |nodes| == |old(nodes)| && edges == LiveEdges(old(edges))
    {
      ghost var es0 := edges;
      var nextId, i := 0, 0;
      while i < |edges|
        invariant Edges(es0, nodes, edges, i, nextId) && |nodes| == |old(nodes)|
      {
        nextId := KeepEdge(es0, i, nextId);
        i := i + 1;
      }
      CutTail(es0, nextId);
    }

    /** The names beyond the number of the edges left are no longer used. */
    method CutTail(ghost es0: seq<Edge>, nextId: int)
      requires Edges(es0, nodes, edges, |edges|, nextId)
      modifies this`edges
      ensures Valid() && edges == LiveEdges(es0)
    {
      EdgesEnd(es0, nodes, edges, nextId);
      edges := edges[..nextId];
    }

    /** `Merge`: after it the graph is the contraction of what it was, along a map of the
        old vertices onto the new ones. */
    method Merge(nMerge: nat) returns (ghost f: seq<int>)
      requires Valid() && Connected(Pairs(edges), |nodes|) && nMerge + 2 <= |nodes|
      modifies this
      ensures Valid() && |nodes| == |old(nodes)| - nMerge
      ensures Multigraph(Pairs(old(edges)), |old(nodes)|) && Onto(f, |old(nodes)|, |nodes|)
      ensures Pairs(edges) == Contract(Pairs(old(edges)), f) && Joined(Pairs(old(edges)), f)
      ensures KeepsCuts(Pairs(old(edges)), |old(nodes)|, Pairs(edges), |nodes|)
    {
      ghost var orig, n := Pairs(edges), |nodes|;
      ghost var rep := MergeEdges(nMerge, orig, n);
      ghost var vs, es := nodes, edges;
      f := Numbering(rep, nodes);
      NumberingOnto(orig, n, rep, nodes, edges);
      JoinedRenamed(orig, rep, f);
      RenumNodes();
      RenumberedContraction(orig, n, rep, vs, es, edges);
      RenumEdges();
      ContractionKeepsCuts(orig, n, f, |nodes|);
    }
  }

  // ---- specification of the constructor ----------------------------------------------

  function EdgesFrom(i: int, neighbours: seq<int>): seq<Pair> {
    if neighbours == [] then []
    else
      var x := neighbours[|neighbours| - 1];
      EdgesFrom(i, neighbours[..|neighbours| - 1]) + if x > i then [(i, x)] else []
  }

  /** The edges of the vertices below n, each one seen from its smaller end. */
  function EdgesOf(adjacency: seq<seq<int>>, n: nat): seq<Pair>
    requires n <= |adjacency|
  {
    if n == 0 then [] else EdgesOf(adjacency, n - 1) + EdgesFrom(n - 1, adjacency[n - 1])
  }

  lemma AddEdge(vs: seq<Vertex>, es: seq<Edge>, i: int, x: int)
    requires Whole(vs, es) && 0 <= i < x < |vs|
    ensures var vs' := vs[i := Vertex(vs[i].edges + {|es|}, false)];
            Whole(vs'[x := Vertex(vs'[x].edges + {|es|}, false)], es + [Edge(i, x, false)])
    ensures Pairs(es + [Edge(i, x, false)]) == Pairs(es) + [(i, x)]
  {
    var vs' := vs[i := Vertex(vs[i].edges + {|es|}, false)];
    var vs2 := vs'[x := Vertex(vs'[x].edges + {|es|}, false)];
    var es2 := es + [Edge(i, x, false)];
    forall y, k | Live(vs2, y) ensures k in vs2[y].edges <==> Incident(es2, k, y) {
      assert Live(vs, y);
      assert k in vs[y].edges <==> Incident(es, k, y);
    }
  }

  lemma RedirectStart(vs: seq<Vertex>, es: seq<Edge>, n1: int, n2: int)
    requires Consistent(vs, es) && Live(vs, n1) && Live(vs, n2) && n1 != n2
    ensures Redirecting(vs, es, vs[n2 := Vertex(vs[n2].edges, true)], es, n1, n2, {})
  {
    var e := vs[n1].edges;
    assert (e - {}) + ({} - e) == e;
    assert vs[n1 := vs[n1].(edges := e)] == vs;
  }

  lemma MergedStart(vs: seq<Vertex>, es: seq<Edge>, orig: seq<Pair>, rep: seq<int>)
    requires Whole(vs, es) && Pairs(es) == orig
    requires |rep| == |vs| && forall v :: 0 <= v < |rep| ==> rep[v] == v
    ensures Merged(orig, |vs|, rep, vs, es) && LiveCount(vs) == |vs|
  {
    forall k | 0 <= k < |es|
      ensures orig[k] == (es[k].a, es[k].b) && Live(vs, es[k].a) && Live(vs, es[k].b) && es[k].a != es[k].b
    {
      assert !es[k].gone;
    }
    AllLive(vs);
  }

  lemma {:induction false} AllLive(vs: seq<Vertex>)
    requires forall x :: 0 <= x < |vs| ==> !vs[x].gone
    ensures LiveCount(vs) == |vs|
  {
    if vs != [] {
      AllLive(vs[..|vs| - 1]);
    }
  }

  /** The result of the renumbering of the vertices. */
  ghost predicate VerticesRenumbered(vs0: seq<Vertex>, es0: seq<Edge>, vs: seq<Vertex>, es: seq<Edge>) {
    && Consistent(vs0, es0) && Consistent(vs, es)
    && |vs| == LiveCount(vs0) && |es| == |es0|
    && (forall x :: 0 <= x < |vs| ==> !vs[x].gone)
    && (forall k :: 0 <= k < |es| ==> es[k].gone == es0[k].gone)
    && (forall k :: 0 <= k < |es| && !es[k].gone ==>
          es[k].a == Rank(vs0, es0[k].a) && es[k].b == Rank(vs0, es0[k].b))
  }

  lemma VerticesEnd(vs0: seq<Vertex>, es0: seq<Edge>, vs: seq<Vertex>, es: seq<Edge>, nextId: int)
    requires Vertices(vs0, es0, vs, es, |vs|, nextId)
    ensures VerticesRenumbered(vs0, es0, vs[..nextId], es)
  {
    assert vs0[..|vs0|] == vs0;
    forall k | 0 <= k < |es| && !es[k].gone
      ensures 0 <= es[k].a < nextId && 0 <= es[k].b < nextId && es[k].a != es[k].b
    {
      var a, b := es0[k].a, es0[k].b;
      assert Live(vs0, a) && Live(vs0, b);
      RankGrows(vs0, a, |vs0|);
      RankGrows(vs0, b, |vs0|);
      if a < b { RankGrows(vs0, a, b); } else { RankGrows(vs0, b, a); }
    }
    forall x, k | 0 <= x < nextId ensures k in vs[x].edges <==> Incident(es, k, x) {
      assert Names(vs, |vs|, nextId, x);
    }
  }

  lemma EdgesEnd(es0: seq<Edge>, vs: seq<Vertex>, es: seq<Edge>, nextId: int)
    requires Edges(es0, vs, es, |es|, nextId)
    ensures Whole(vs, es[..nextId]) && es[..nextId] == LiveEdges(es0)
  {
    assert es0[..|es0|] == es0;
    LiveEdgesLive(es0);
    var es' := es[..nextId];
    forall k | 0 <= k < |es'|
      ensures !es'[k].gone && Live(vs, es'[k].a) && Live(vs, es'[k].b) && es'[k].a != es'[k].b
    {
      assert NamesEdge(|es|, nextId, k) && es'[k] == es[k];
    }
    forall x, k | Live(vs, x) ensures k in vs[x].edges <==> Incident(es', k, x) {
      assert k in vs[x].edges <==> NamesEdge(|es|, nextId, k) && Incident(es, k, x);
    }
  }

  lemma {:induction false} LiveEdgesLive(es: seq<Edge>)
    ensures forall k :: 0 <= k < |LiveEdges(es)| ==> !LiveEdges(es)[k].gone
  {
    if es != [] {
      LiveEdgesLive(es[..|es| - 1]);
    }
  }

  lemma RenumberedContraction(orig: seq<Pair>, n: nat, rep: seq<int>, vs: seq<Vertex>, es: seq<Edge>, es': seq<Edge>)
    requires Merged(orig, n, rep, vs, es) && |es'| == |es|
    requires forall k :: 0 <= k < |es| ==> es'[k].gone == es[k].gone
    requires forall k :: 0 <= k < |es| && !es[k].gone ==> es'[k].a == Rank(vs, es[k].a) && es'[k].b == Rank(vs, es[k].b)
    ensures Pairs(LiveEdges(es')) == Contract(orig, Numbering(rep, vs))
  {
    NumberingOnto(orig, n, rep, vs, es);
    LiveEdgesAreContraction(orig, es', Numbering(rep, vs));
  }

  /** One turn of the loop over the edges of the annulled vertex. */
  lemma RedirectOne(vs0: seq<Vertex>, es0: seq<Edge>, vs: seq<Vertex>, es: seq<Edge>,
                    n1: int, n2: int, done: set<int>, i: int)
    requires Redirecting(vs0, es0, vs, es, n1, n2, done) && i in vs0[n2].edges && i !in done
    ensures Incident(es0, i, n2) && 0 <= i < |es| && es[i] == es0[i] && !vs[n1].gone
    ensures var e := es[i];
            var v := if e.a == n1 || e.b == n1 then vs[n1].edges - {i} else vs[n1].edges + {i};
            Redirecting(vs0, es0, vs[n1 := Vertex(v, false)], es[i := Redirect(e, n1, n2)], n1, n2, done + {i})
  {
    assert Incident(es0, i, n2);
    assert i in vs0[n1].edges <==> Incident(es0, i, n1);
    var e := es[i];
    var v := if e.a == n1 || e.b == n1 then vs[n1].edges - {i} else vs[n1].edges + {i};
    var d := done + {i};
    assert v == (vs0[n1].edges - d) + (d - vs0[n1].edges);
    assert vs[n1 := Vertex(v, false)] ==
           vs0[n2 := vs0[n2].(gone := true)][n1 := vs0[n1].(edges := (vs0[n1].edges - d) + (d - vs0[n1].edges))];
  }

  // ---- the recursive search ------------------------------------------------------------

  /** min(n - 2, n / 1.414), cut to an integer. */
  function MergeCount(n: nat): (k: nat)
    requires n >= 3
    ensures 1 <= k && k + 2 <= n && 1414 * k <= 1000 * n
    ensures k + 2 == n || 1000 * n < 1414 * (k + 1)
  {
    var byRatio := n * 1000 / 1414;
    if n - 2 <= byRatio then n - 2 else byRatio
  }

  /** What a search has looked at: a graph of two vertices with its number of edges, or two
      contractions of the graph, along f1 and f2. */
  datatype Tried = Two(size: nat) | Both(f1: seq<int>, first: Tried, f2: seq<int>, second: Tried)

  /** A graph of more than two vertices is contracted twice, both times by the same number of
      vertices, and both results are searched. */
  ghost predicate Explores(t: Tried, es: seq<Pair>, n: nat)
    decreases t
  {
    match t
    case Two(size) => n == 2 && size == |es|
    case Both(f1, first, f2, second) =>
      && n > 2 && Multigraph(es, n)
      && Joined(es, f1) && Joined(es, f2)
      && Onto(f1, n, n - MergeCount(n)) && Explores(first, Contract(es, f1), n - MergeCount(n))
      && Onto(f2, n, n - MergeCount(n)) && Explores(second, Contract(es, f2), n - MergeCount(n))
  }

  /** The sizes of all the graphs of two vertices that a search has reached, in order. */
  function Sizes(t: Tried): (s: seq<nat>)
    ensures s != []
  {
    match t
    case Two(size) => [size]
    case Both(_, first, _, second) => Sizes(first) + Sizes(second)
  }

  ghost predicate Smallest(c: int, sizes: seq<nat>) { c in sizes && forall i :: 0 <= i < |sizes| ==> c <= sizes[i] }

  lemma SmallerOf(c1: nat, s1: seq<nat>, c2: nat, s2: seq<nat>)
    requires Smallest(c1, s1) && Smallest(c2, s2)
    ensures Smallest(if c1 <= c2 then c1 else c2, s1 + s2)
  {
  }

  /** Each size reached is that of a real cut, and there are two for each round of merging. */
  lemma {:induction false} SizesAreCuts(t: Tried, es: seq<Pair>, n: nat)
    requires Explores(t, es, n) && Multigraph(es, n) && Connected(es, n)
    ensures forall i :: 0 <= i < |Sizes(t)| ==> IsCutSize(es, n, Sizes(t)[i])
    ensures |Sizes(t)| == Leaves(n)
  {
    match t
    case Two(_) => TwoVertices(es);
    case Both(f1, first, f2, second) =>
      var m := n - MergeCount(n);
      ContractionKeepsCuts(es, n, f1, m);
      ContractionKeepsCuts(es, n, f2, m);
      SizesAreCuts(first, Contract(es, f1), m);
      SizesAreCuts(second, Contract(es, f2), m);
      assert forall i :: 0 <= i < |Sizes(first)| ==> IsCutSize(es, n, Sizes(first)[i]);
      assert forall i :: 0 <= i < |Sizes(second)| ==> IsCutSize(es, n, Sizes(second)[i]);
  }

  /** How many graphs of two vertices a search of n vertices reaches. */
  function Leaves(n: nat): nat {
    if n <= 2 then 1 else 2 * Leaves(n - MergeCount(n))
  }

  /** `GetMinCut` on a contracted graph: the smallest of all the sizes reached, each of which
      is that of a real cut. */
  method SearchCut(copy1: MinCutGraph) returns (c: nat, ghost t: Tried)
    requires copy1.Valid() && |copy1.nodes| >= 2 && Connected(Pairs(copy1.edges), |copy1.nodes|)
    modifies copy1
    ensures Explores(t, old(Pairs(copy1.edges)), old(|copy1.nodes|)) && Smallest(c, Sizes(t))
    ensures IsCutSize(old(Pairs(copy1.edges)), old(|copy1.nodes|), c)
    decreases |copy1.nodes|, 1
  {
    var n := |copy1.nodes|;
    ghost var orig := Pairs(copy1.edges);
    WholeIsMultigraph(copy1.nodes, copy1.edges);
    if n == 2 {
      TwoFound(orig);
      c, t := |copy1.edges|, Two(|copy1.edges|);
      return;
    }
    var copy2 := new MinCutGraph.Copy(copy1);
    ghost var m, f1, f2 := MergeBoth(copy1, copy2, orig, n);
    ghost var t1, t2;
    var c1, c2;
    c1, t1, c2, t2 := SearchBoth(copy1, copy2, Contract(orig, f1), Contract(orig, f2), m);
    c, t := if c1 <= c2 then c1 else c2, Both(f1, t1, f2, t2);
    BothSearched(orig, n, m, f1, t1, c1, f2, t2, c2);
  }

  lemma TwoFound(es: seq<Pair>)
    requires Multigraph(es, 2)
    ensures Explores(Two(|es|), es, 2) && Smallest(|es|, Sizes(Two(|es|))) && IsCutSize(es, 2, |es|)
  {
    TwoVertices(es);
  }

  ghost predicate Searchable(g: MinCutGraph, es: seq<Pair>, n: nat)
    reads g
  {
    g.Valid() && Pairs(g.edges) == es && |g.nodes| == n && Connected(es, n)
  }

  method MergeBoth(copy1: MinCutGraph, copy2: MinCutGraph, ghost orig: seq<Pair>, ghost n: nat)
    returns (ghost m: nat, ghost f1: seq<int>, ghost f2: seq<int>)
    requires copy1 != copy2 && n > 2 && Multigraph(orig, n) && Searchable(copy1, orig, n) && Searchable(copy2, orig, n)
    modifies copy1, copy2
    ensures 2 <= m < n && m == n - MergeCount(n)
    ensures Joined(orig, f1) && Joined(orig, f2)
    ensures Onto(f1, n, m) && Searchable(copy1, Contract(orig, f1), m)
    ensures Onto(f2, n, m) && Searchable(copy2, Contract(orig, f2), m)
  {
    var nMerge := MergeCount(|copy1.nodes|);
    m := n - nMerge;
    f1 := copy1.Merge(nMerge);
    f2 := copy2.Merge(nMerge);
  }

  /** One after the other; neither search touches the other copy. */
  method SearchBoth(copy1: MinCutGraph, copy2: MinCutGraph, ghost es1: seq<Pair>, ghost es2: seq<Pair>, ghost m: nat)
    returns (c1: nat, ghost t1: Tried, c2: nat, ghost t2: Tried)
    requires copy1 != copy2 && m >= 2 && Searchable(copy1, es1, m) && Searchable(copy2, es2, m)
    modifies copy1, copy2
    ensures Explores(t1, es1, m) && Smallest(c1, Sizes(t1))
    ensures Explores(t2, es2, m) && Smallest(c2, Sizes(t2))
    decreases m, 2
  {
    c1, t1 := SearchCut(copy1);
    assert Searchable(copy2, es2, m);
    c2, t2 := SearchCut(copy2);
  }

  lemma BothSearched(es: seq<Pair>, n: nat, m: nat, f1: seq<int>, t1: Tried, c1: nat, f2: seq<int>, t2: Tried, c2: nat)
    requires n > 2 && Multigraph(es, n) && Connected(es, n) && m == n - MergeCount(n)
    requires Joined(es, f1) && Joined(es, f2)
    requires Onto(f1, n, m) && Explores(t1, Contract(es, f1), m) && Smallest(c1, Sizes(t1))
    requires Onto(f2, n, m) && Explores(t2, Contract(es, f2), m) && Smallest(c2, Sizes(t2))
    ensures var t, c := Both(f1, t1, f2, t2), if c1 <= c2 then c1 else c2;
            Explores(t, es, n) && Smallest(c, Sizes(t)) && IsCutSize(es, n, c)
  {
    var t := Both(f1, t1, f2, t2);
    SmallerOf(c1, Sizes(t1), c2, Sizes(t2));
    SizesAreCuts(t, es, n);
  }

  lemma WholeIsMultigraph(vs: seq<Vertex>, es: seq<Edge>)
    requires Whole(vs, es)
    ensures Multigraph(Pairs(es), |vs|)
  {
    forall k | 0 <= k < |es|
      ensures Pairs(es)[k] == (es[k].a, es[k].b) && Live(vs, es[k].a) && Live(vs, es[k].b) && es[k].a != es[k].b
    {
      assert !es[k].gone;
    }
  }

  ghost predicate AllExplore(tries: seq<Tried>, es: seq<Pair>, n: nat) {
    forall i :: 0 <= i < |tries| ==> Explores(tries[i], es, n)
  }

  function AllSizes(tries: seq<Tried>): seq<nat> {
    if tries == [] then [] else AllSizes(tries[..|tries| - 1]) + Sizes(tries[|tries| - 1])
  }

  lemma SmallestSoFar(tries: seq<Tried>, minCut: int, t: Tried, c: nat)
    requires if tries == [] then minCut == -1 else minCut >= 0 && Smallest(minCut, AllSizes(tries))
    requires Smallest(c, Sizes(t))
    ensures Smallest(if minCut == -1 || minCut > c then c else minCut, AllSizes(tries + [t]))
  {
    assert (tries + [t])[..|tries|] == tries;
    if tries != [] {
      SmallerOf(minCut, AllSizes(tries), c, Sizes(t));
    }
  }

  /** `Graph::GetMinCut` with `nIter` rounds, log(size) in the program: the smallest of all the
      sizes reached in all rounds, or -1 without any round. It is the size of a real cut, so it
      is never below the minimum. */
  method GetMinCut(adjacency: seq<seq<int>>, nIter: nat) returns (minCut: int, ghost tries: seq<Tried>)
    requires |adjacency| >= 2
    requires forall i, j :: 0 <= i < |adjacency| && 0 <= j < |adjacency[i]| ==> 0 <= adjacency[i][j] < |adjacency|
    requires Connected(EdgesOf(adjacency, |adjacency|), |adjacency|)
    ensures |tries| == nIter && AllExplore(tries, EdgesOf(adjacency, |adjacency|), |adjacency|)
    ensures if nIter == 0 then minCut == -1 else minCut >= 0 && Smallest(minCut, AllSizes(tries))
    ensures nIter > 0 ==> IsCutSize(EdgesOf(adjacency, |adjacency|), |adjacency|, minCut)
  {
    minCut, tries := -1, [];
    for i := 0 to nIter
      invariant |tries| == i && AllExplore(tries, EdgesOf(adjacency, |adjacency|), |adjacency|)
      invariant if i == 0 then minCut == -1 else minCut >= 0 && Smallest(minCut, AllSizes(tries))
      invariant i > 0 ==> IsCutSize(EdgesOf(adjacency, |adjacency|), |adjacency|, minCut)
    {
      var graph := new MinCutGraph(adjacency);
      var candidate;
      ghost var t;
      candidate, t := SearchCut(graph);
      SmallestSoFar(tries, minCut, t, candidate);
      if minCut == -1 || minCut > candidate {
        minCut := candidate;
      }
      tries := tries + [t];
    }
  }
}
