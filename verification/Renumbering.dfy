/** Renumbering after a contraction: live vertices, then live edges, are moved down in
    place and everything that names them follows. */
module Renumbering {
  import opened Cuts
  import opened Contraction

  // ---- vertices ---------------------------------------------------------------------

  /** The new number of a live vertex: how many live ones come before it. */
  function Rank(vs: seq<Vertex>, x: int): nat
    requires 0 <= x <= |vs|
  {
    LiveCount(vs[..x])
  }

  lemma RankNext(vs: seq<Vertex>, x: int)
    requires 0 <= x < |vs|
    ensures Rank(vs, x + 1) == Rank(vs, x) + if vs[x].gone then 0 else 1
  {
    assert vs[..x + 1][..x] == vs[..x];
  }

  lemma {:induction false} RankGrows(vs: seq<Vertex>, x: int, y: int)
    requires 0 <= x <= y <= |vs|
    ensures Rank(vs, x) <= Rank(vs, y) <= y
    ensures x < y && !vs[x].gone ==> Rank(vs, x) < Rank(vs, y)
    decreases y
  {
    if y > 0 {
      RankNext(vs, y - 1);
      RankGrows(vs, if x < y then x else y - 1, y - 1);
    }
  }

  /** The number that the vertex x has when the loop has reached i. */
  function NumberAt(vs0: seq<Vertex>, i: int, x: int): int
    requires 0 <= i <= |vs0| && 0 <= x < |vs0|
  {
    if x < i then Rank(vs0, x) else x
  }

  /** x names a vertex when the loop has reached i: a new number, or an old one ahead. */
  predicate Names(vs: seq<Vertex>, i: int, nextId: int, x: int) {
    0 <= x < |vs| && (x < nextId || (i <= x && !vs[x].gone))
  }

  /** The loop over the vertices before it treats i. */
  ghost predicate Vertices(vs0: seq<Vertex>, es0: seq<Edge>, vs: seq<Vertex>, es: seq<Edge>, i: int, nextId: int) {
    && Consistent(vs0, es0) && |vs| == |vs0| && |es| == |es0|
    && 0 <= i <= |vs0| && nextId == Rank(vs0, i) <= i
    && (forall x :: 0 <= x < nextId ==> !vs[x].gone)
    && (forall x :: i <= x < |vs| ==> vs[x] == vs0[x])
    && (forall k :: 0 <= k < |es| ==> es[k].gone == es0[k].gone)
    && (forall k :: 0 <= k < |es| && !es[k].gone ==>
          es[k].a == NumberAt(vs0, i, es0[k].a) && es[k].b == NumberAt(vs0, i, es0[k].b))
    && (forall x, k :: Names(vs, i, nextId, x) ==> (k in vs[x].edges <==> Incident(es, k, x)))
  }

  function Rename(e: Edge, x: int, y: int): Edge {
    if e.a == x then e.(a := y) else e.(b := y)
  }

  lemma VerticesSkip(vs0: seq<Vertex>, es0: seq<Edge>, vs: seq<Vertex>, es: seq<Edge>, i: int, nextId: int)
    requires Vertices(vs0, es0, vs, es, i, nextId) && i < |vs| && vs[i].gone
    ensures Vertices(vs0, es0, vs, es, i + 1, nextId)
  {
    RankNext(vs0, i);
    forall k | 0 <= k < |es| && !es[k].gone ensures es0[k].a != i && es0[k].b != i {
      assert Live(vs0, es0[k].a) && Live(vs0, es0[k].b);
    }
  }

  /** In the live edge k an end numbered i is the vertex i: no new number reaches it. */
  lemma OnlyItself(vs0: seq<Vertex>, es0: seq<Edge>, vs: seq<Vertex>, es: seq<Edge>, i: int, nextId: int, k: int)
    requires Vertices(vs0, es0, vs, es, i, nextId) && i < |vs| && !vs[i].gone && 0 <= k < |es| && !es[k].gone
    ensures es[k].a == i <==> es0[k].a == i
    ensures es[k].b == i <==> es0[k].b == i
    ensures es0[k].a != i ==> es[k].a != nextId
    ensures es0[k].b != i ==> es[k].b != nextId
  {
    assert Live(vs0, es0[k].a) && Live(vs0, es0[k].b);
    RankGrows(vs0, if es0[k].a < i then es0[k].a else i, i);
    RankGrows(vs0, if es0[k].b < i then es0[k].b else i, i);
  }

  ghost predicate RenamedEdges(es: seq<Edge>, es': seq<Edge>, incident: set<int>, i: int, nextId: int) {
    && |es'| == |es|
    && forall k :: 0 <= k < |es| ==> es'[k] == if k in incident then Rename(es[k], i, nextId) else es[k]
  }

  lemma RenamedEnds(vs0: seq<Vertex>, es0: seq<Edge>, vs: seq<Vertex>, es: seq<Edge>, i: int, nextId: int,
                    es': seq<Edge>, k: int)
    requires Vertices(vs0, es0, vs, es, i, nextId) && i < |vs| && !vs[i].gone
    requires RenamedEdges(es, es', vs[i].edges, i, nextId) && 0 <= k < |es|
    ensures es'[k].gone == es0[k].gone
    ensures !es[k].gone ==> es'[k].a == NumberAt(vs0, i + 1, es0[k].a) && es'[k].b == NumberAt(vs0, i + 1, es0[k].b)
  {
    assert Names(vs, i, nextId, i);
    assert k in vs[i].edges <==> Incident(es, k, i);
    if !es[k].gone {
      OnlyItself(vs0, es0, vs, es, i, nextId, k);
    }
  }

  lemma RenamedSets(vs0: seq<Vertex>, es0: seq<Edge>, vs: seq<Vertex>, es: seq<Edge>, i: int, nextId: int,
                    es': seq<Edge>, x: int, k: int)
    requires Vertices(vs0, es0, vs, es, i, nextId) && i < |vs| && !vs[i].gone
    requires RenamedEdges(es, es', vs[i].edges, i, nextId)
    requires Names(vs[nextId := vs[i]], i + 1, nextId + 1, x)
    ensures k in vs[nextId := vs[i]][x].edges <==> Incident(es', k, x)
  {
    assert Names(vs, i, nextId, i);
    assert k in vs[i].edges <==> Incident(es, k, i);
    if 0 <= k < |es| && !es[k].gone {
      OnlyItself(vs0, es0, vs, es, i, nextId, k);
    }
    if x != nextId {
      assert Names(vs, i, nextId, x);
      assert k in vs[x].edges <==> Incident(es, k, x);
    }
  }

  lemma VerticesStep(vs0: seq<Vertex>, es0: seq<Edge>, vs: seq<Vertex>, es: seq<Edge>, i: int, nextId: int,
                     es': seq<Edge>)
    requires Vertices(vs0, es0, vs, es, i, nextId) && i < |vs| && !vs[i].gone
    requires RenamedEdges(es, es', vs[i].edges, i, nextId)
    ensures Vertices(vs0, es0, vs[nextId := vs[i]], es', i + 1, nextId + 1)
  {
    RankNext(vs0, i);
    forall k | 0 <= k < |es'|
      ensures es'[k].gone == es0[k].gone
      ensures !es'[k].gone ==> es'[k].a == NumberAt(vs0, i + 1, es0[k].a) && es'[k].b == NumberAt(vs0, i + 1, es0[k].b)
    {
      RenamedEnds(vs0, es0, vs, es, i, nextId, es', k);
    }
    var vs' := vs[nextId := vs[i]];
    forall x, k | Names(vs', i + 1, nextId + 1, x) ensures k in vs'[x].edges <==> Incident(es', k, x) {
      RenamedSets(vs0, es0, vs, es, i, nextId, es', x, k);
    }
  }

  // ---- edges ------------------------------------------------------------------------

  function LiveEdges(es: seq<Edge>): seq<Edge> {
    if es == [] then []
    else LiveEdges(es[..|es| - 1]) + if es[|es| - 1].gone then [] else [es[|es| - 1]]
  }

  lemma LiveEdgesNext(es: seq<Edge>, i: int)
    requires 0 <= i < |es|
    ensures LiveEdges(es[..i + 1]) == LiveEdges(es[..i]) + if es[i].gone then [] else [es[i]]
  {
    assert es[..i + 1][..i] == es[..i];
  }

  predicate NamesEdge(i: int, nextId: int, k: int) { 0 <= k < nextId || i <= k }

  /** The loop over the edges before it treats i; every vertex is live by now. */
  ghost predicate Edges(es0: seq<Edge>, vs: seq<Vertex>, es: seq<Edge>, i: int, nextId: int) {
    && |es| == |es0| && 0 <= nextId <= i <= |es|
    && es[..nextId] == LiveEdges(es0[..i])
    && (forall k :: i <= k < |es| ==> es[k] == es0[k])
    && (forall k :: NamesEdge(i, nextId, k) && k < |es| && !es[k].gone ==> 
          0 <= es[k].a < |vs| && 0 <= es[k].b < |vs| && es[k].a != es[k].b)
    && (forall x :: 0 <= x < |vs| ==> !vs[x].gone)
    && (forall x, k :: 0 <= x < |vs| ==> (k in vs[x].edges <==> NamesEdge(i, nextId, k) && Incident(es, k, x)))
  }

  /** The vertex after one of its edges has changed number. */
  function Renumber(v: Vertex, i: int, nextId: int): Vertex {
    v.(edges := v.edges - {i} + {nextId})
  }

  lemma EdgesStep(es0: seq<Edge>, vs: seq<Vertex>, es: seq<Edge>, i: int, nextId: int)
    requires Edges(es0, vs, es, i, nextId) && i < |es| && !es[i].gone
    ensures var e := es[i];
            0 <= e.a < |vs| && 0 <= e.b < |vs| && e.a != e.b &&
            Edges(es0, vs[e.a := Renumber(vs[e.a], i, nextId)][e.b := Renumber(vs[e.b], i, nextId)],
                  es[nextId := e], i + 1, nextId + 1)
  {
    var e := es[i];
    assert NamesEdge(i, nextId, i);
    LiveEdgesNext(es0, i);
    var es' := es[nextId := e];
    assert es'[..nextId + 1] == es[..nextId] + [e];
    var vs' := vs[e.a := Renumber(vs[e.a], i, nextId)][e.b := Renumber(vs[e.b], i, nextId)];
    forall k | NamesEdge(i + 1, nextId + 1, k) && k < |es'| && !es'[k].gone
      ensures 0 <= es'[k].a < |vs'| && 0 <= es'[k].b < |vs'| && es'[k].a != es'[k].b
    {
      assert k == nextId || NamesEdge(i, nextId, k);
    }
    forall x, k | 0 <= x < |vs'|
      ensures k in vs'[x].edges <==> NamesEdge(i + 1, nextId + 1, k) && Incident(es', k, x)
    {
      assert k in vs[x].edges <==> NamesEdge(i, nextId, k) && Incident(es, k, x);
    }
  }

  lemma EdgesSkip(es0: seq<Edge>, vs: seq<Vertex>, es: seq<Edge>, i: int, nextId: int)
    requires Edges(es0, vs, es, i, nextId) && i < |es| && es[i].gone
    ensures Edges(es0, vs, es, i + 1, nextId)
  {
    LiveEdgesNext(es0, i);
    forall x, k | 0 <= x < |vs|
      ensures k in vs[x].edges <==> NamesEdge(i + 1, nextId, k) && Incident(es, k, x)
    {
      assert k in vs[x].edges <==> NamesEdge(i, nextId, k) && Incident(es, k, x);
    }
  }

  // ---- the whole renumbering ----------------------------------------------------------

  function PairOf(e: Edge): Pair { (e.a, e.b) }

  function Pairs(es: seq<Edge>): (r: seq<Pair>)
    ensures |r| == |es|
  {
    seq(|es|, i requires 0 <= i < |es| => PairOf(es[i]))
  }

  /** The live edges of a merged and renumbered graph are the contraction of the original. */
  lemma {:induction false} LiveEdgesAreContraction(orig: seq<Pair>, es: seq<Edge>, f: seq<int>)
    requires |orig| == |es|
    requires forall k :: 0 <= k < |es| ==> 0 <= orig[k].0 < |f| && 0 <= orig[k].1 < |f|
    requires forall k :: 0 <= k < |es| ==> (es[k].gone <==> f[orig[k].0] == f[orig[k].1])
    requires forall k :: 0 <= k < |es| && !es[k].gone ==> es[k].a == f[orig[k].0] && es[k].b == f[orig[k].1]
    ensures Pairs(LiveEdges(es)) == Contract(orig, f)
  {
    if es != [] {
      var n := |es| - 1;
      LiveEdgesAreContraction(orig[..n], es[..n], f);
      assert Pairs(LiveEdges(es)) == Pairs(LiveEdges(es[..n])) + if es[n].gone then [] else [PairOf(es[n])];
    }
  }

  /** The map from the original vertices to the new ones. */
  function Numbering(rep: seq<int>, vs: seq<Vertex>): (f: seq<int>)
    requires forall v :: 0 <= v < |rep| ==> 0 <= rep[v] < |vs|
    ensures |f| == |rep|
  {
    seq(|rep|, v requires 0 <= v < |rep| => Rank(vs, rep[v]))
  }

  lemma {:induction false} RankOnto(vs: seq<Vertex>, w: int) returns (x: int)
    requires 0 <= w < LiveCount(vs)
    ensures Live(vs, x) && Rank(vs, x) == w
  {
    var k := |vs| - 1;
    if !vs[k].gone && w == LiveCount(vs[..k]) {
      x := k;
    } else {
      x := RankOnto(vs[..k], w);
      assert vs[..k][..x] == vs[..x];
    }
  }

  lemma NumberingOnto(orig: seq<Pair>, n: nat, rep: seq<int>, vs: seq<Vertex>, es: seq<Edge>)
    requires Merged(orig, n, rep, vs, es)
    ensures Onto(Numbering(rep, vs), n, LiveCount(vs))
    ensures forall v, w :: 0 <= v < n && 0 <= w < n && Numbering(rep, vs)[v] == Numbering(rep, vs)[w] ==>
              rep[v] == rep[w]
  {
    var f := Numbering(rep, vs);
    assert vs[..|vs|] == vs;
    forall v | 0 <= v < n ensures 0 <= f[v] < LiveCount(vs) {
      assert Live(vs, rep[v]);
      RankGrows(vs, rep[v], |vs|);
    }
    forall w | 0 <= w < LiveCount(vs) ensures w in f {
      var x := RankOnto(vs, w);
      assert rep[x] == x;
      assert f[x] == w;
    }
    forall v, w | 0 <= v < n && 0 <= w < n && f[v] == f[w] ensures rep[v] == rep[w] {
      assert Live(vs, rep[v]) && Live(vs, rep[w]);
      if rep[v] < rep[w] { RankGrows(vs, rep[v], rep[w]); } else { RankGrows(vs, rep[w], rep[v]); }
    }
  }
}
