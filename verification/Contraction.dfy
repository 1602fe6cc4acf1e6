/** The state of a graph during a contraction: edges and vertices that can be annulled,
    and the set of incident edges kept at each vertex. */
module Contraction {
  import opened Cuts

  datatype Edge = Edge(a: int, b: int, gone: bool)
  datatype Vertex = Vertex(edges: set<int>, gone: bool)

  predicate Live(vs: seq<Vertex>, x: int) { 0 <= x < |vs| && !vs[x].gone }

  /** The edge k is alive and x is one of its ends. */
  predicate Incident(es: seq<Edge>, k: int, x: int) {
    0 <= k < |es| && !es[k].gone && (es[k].a == x || es[k].b == x)
  }

  /** Incidence sets agree with the ends of the edges, as the program's own check demands,
      and conversely. */
  ghost predicate Consistent(vs: seq<Vertex>, es: seq<Edge>) {
    && (forall k :: 0 <= k < |es| && !es[k].gone ==> Live(vs, es[k].a) && Live(vs, es[k].b) && es[k].a != es[k].b)
    && (forall x, k :: Live(vs, x) ==> (k in vs[x].edges <==> Incident(es, k, x)))
  }

  /** Where the contraction stands: rep gives, for each original vertex, the live vertex
      it has been merged into. An edge is gone when its two ends have been merged. */
  ghost predicate Merged(orig: seq<Pair>, n: nat, rep: seq<int>, vs: seq<Vertex>, es: seq<Edge>) {
    && Multigraph(orig, n) && |rep| == n == |vs| && |es| == |orig|
    && (forall v :: 0 <= v < n ==> Live(vs, rep[v]))
    && (forall x :: Live(vs, x) ==> rep[x] == x)
    && (forall k :: 0 <= k < |es| ==> (es[k].gone <==> rep[orig[k].0] == rep[orig[k].1]))
    && (forall k :: 0 <= k < |es| && !es[k].gone ==> es[k].a == rep[orig[k].0] && es[k].b == rep[orig[k].1])
    && Consistent(vs, es)
  }

  // ---- merged vertices are joined by edges ----------------------------------------------

  /** Some of the vertices that have been merged into w, but not all. */
  ghost predicate PartOf(s: set<int>, rep: seq<int>, w: int) {
    && (forall v :: v in s ==> 0 <= v < |rep| && rep[v] == w) && (exists v :: v in s)
    && exists v :: 0 <= v < |rep| && rep[v] == w && v !in s
  }

  predicate LeadsOut(es: seq<Pair>, k: int, s: set<int>, rep: seq<int>, w: int) {
    && 0 <= k < |es| && 0 <= es[k].0 < |rep| && 0 <= es[k].1 < |rep|
    && rep[es[k].0] == w && rep[es[k].1] == w && Crosses(es[k], s)
  }

  /** Vertices are only merged along edges: those merged into one make a connected part. */
  ghost predicate Joined(es: seq<Pair>, rep: seq<int>) {
    forall s, w :: PartOf(s, rep, w) ==> exists k :: LeadsOut(es, k, s, rep, w)
  }

  lemma JoinedStart(es: seq<Pair>, rep: seq<int>)
    requires forall v :: 0 <= v < |rep| ==> rep[v] == v
    ensures Joined(es, rep)
  {
    forall s, w ensures !PartOf(s, rep, w) {}
  }

  /** The ends of the edge k are merged. */
  lemma JoinedStep(es: seq<Pair>, rep: seq<int>, k: nat, n1: int, n2: int)
    requires Joined(es, rep) && k < |es| && 0 <= es[k].0 < |rep| && 0 <= es[k].1 < |rep|
    requires rep[es[k].0] == n1 && rep[es[k].1] == n2 && n1 != n2
    ensures Joined(es, MergeInto(rep, n1, n2))
  {
    var r := MergeInto(rep, n1, n2);
    forall s, w | PartOf(s, r, w) ensures exists j :: LeadsOut(es, j, s, r, w) {
      if w != n1 {
        assert PartOf(s, rep, w);
        var j :| LeadsOut(es, j, s, rep, w);
        assert LeadsOut(es, j, s, r, w);
      } else {
        JoinedPart(es, rep, k, n1, n2, s);
      }
    }
  }

  lemma JoinedPart(es: seq<Pair>, rep: seq<int>, k: nat, n1: int, n2: int, s: set<int>)
    requires Joined(es, rep) && k < |es| && 0 <= es[k].0 < |rep| && 0 <= es[k].1 < |rep|
    requires rep[es[k].0] == n1 && rep[es[k].1] == n2 && n1 != n2 && PartOf(s, MergeInto(rep, n1, n2), n1)
    ensures exists j :: LeadsOut(es, j, s, MergeInto(rep, n1, n2), n1)
  {
    var r := MergeInto(rep, n1, n2);
    var s1, s2 := set v | v in s && 0 <= v < |rep| && rep[v] == n1, set v | v in s && 0 <= v < |rep| && rep[v] == n2;
    assert s == s1 + s2;
    if PartOf(s1, rep, n1) {
      var j :| LeadsOut(es, j, s1, rep, n1);
      assert LeadsOut(es, j, s, r, n1);
    } else if PartOf(s2, rep, n2) {
      var j :| LeadsOut(es, j, s2, rep, n2);
      assert LeadsOut(es, j, s, r, n1);
    } else {
      assert LeadsOut(es, k, s, r, n1);
    }
  }

  /** What counts is which vertices are merged, not into what. */
  lemma JoinedRenamed(es: seq<Pair>, rep: seq<int>, f: seq<int>)
    requires Joined(es, rep) && |f| == |rep|
    requires forall u, v :: 0 <= u < |rep| && 0 <= v < |rep| ==> (rep[u] == rep[v] <==> f[u] == f[v])
    ensures Joined(es, f)
  {
    forall s, w | PartOf(s, f, w) ensures exists k :: LeadsOut(es, k, s, f, w) {
      var v :| v in s;
      assert PartOf(s, rep, rep[v]);
      var k :| LeadsOut(es, k, s, rep, rep[v]);
      assert LeadsOut(es, k, s, f, w);
    }
  }

  // ---- merging the two ends of an edge ----------------------------------------------

  /** What happens to an edge of the annulled vertex n2: it goes if it leads to n1, and is
      redirected to n1 otherwise. */
  function Redirect(e: Edge, n1: int, n2: int): Edge {
    if e.a == n1 || e.b == n1 then e.(gone := true)
    else if e.a == n2 then e.(a := n1)
    else e.(b := n1)
  }

  /** The loop over the edges of n2 after it has treated those in done. */
  ghost predicate Redirecting(vs0: seq<Vertex>, es0: seq<Edge>, vs: seq<Vertex>, es: seq<Edge>,
                              n1: int, n2: int, done: set<int>) {
    && Consistent(vs0, es0) && Live(vs0, n1) && Live(vs0, n2) && n1 != n2
    && done <= vs0[n2].edges
    && |es| == |es0| && |vs| == |vs0|
    && (forall k :: 0 <= k < |es| ==> es[k] == if k in done then Redirect(es0[k], n1, n2) else es0[k])
    && vs == vs0[n2 := vs0[n2].(gone := true)]
                [n1 := vs0[n1].(edges := (vs0[n1].edges - done) + (done - vs0[n1].edges))]
  }

  function MergeInto(rep: seq<int>, n1: int, n2: int): (r: seq<int>)
    ensures |r| == |rep|
  {
    seq(|rep|, v requires 0 <= v < |rep| => if rep[v] == n2 then n1 else rep[v])
  }

  lemma RedirectedConsistent(vs0: seq<Vertex>, es0: seq<Edge>, vs: seq<Vertex>, es: seq<Edge>, n1: int, n2: int)
    requires Live(vs0, n2) && Redirecting(vs0, es0, vs, es, n1, n2, vs0[n2].edges)
    ensures Consistent(vs, es)
  {
    forall k | 0 <= k < |es|
      ensures !es[k].gone ==> Live(vs, es[k].a) && Live(vs, es[k].b) && es[k].a != es[k].b
    {
      assert k in vs0[n2].edges <==> Incident(es0, k, n2);
      assert k in vs0[n1].edges <==> Incident(es0, k, n1);
    }
    forall x, k | Live(vs, x) ensures k in vs[x].edges <==> Incident(es, k, x) {
      assert k in vs0[x].edges <==> Incident(es0, k, x);
      assert k in vs0[n2].edges <==> Incident(es0, k, n2);
      assert k in vs0[n1].edges <==> Incident(es0, k, n1);
    }
  }

  lemma MergeStep(orig: seq<Pair>, n: nat, rep: seq<int>, vs0: seq<Vertex>, es0: seq<Edge>,
                  vs: seq<Vertex>, es: seq<Edge>, n1: int, n2: int)
    requires Merged(orig, n, rep, vs0, es0) && Live(vs0, n2)
    requires Redirecting(vs0, es0, vs, es, n1, n2, vs0[n2].edges)
    ensures Merged(orig, n, MergeInto(rep, n1, n2), vs, es)
  {
    RedirectedConsistent(vs0, es0, vs, es, n1, n2);
  }

  // ---- counting the live vertices ---------------------------------------------------

  function LiveCount(vs: seq<Vertex>): nat {
    if vs == [] then 0
    else LiveCount(vs[..|vs| - 1]) + if vs[|vs| - 1].gone then 0 else 1
  }

  lemma {:induction false} OneLess(vs: seq<Vertex>, vs': seq<Vertex>, x: int)
    requires |vs'| == |vs| && Live(vs, x) && vs'[x].gone
    requires forall y :: 0 <= y < |vs| && y != x ==> vs'[y].gone == vs[y].gone
    ensures LiveCount(vs') == LiveCount(vs) - 1
  {
    var k := |vs| - 1;
    if x == k {
      SameCount(vs[..k], vs'[..k]);
    } else {
      OneLess(vs[..k], vs'[..k], x);
    }
  }

  lemma {:induction false} SameCount(vs: seq<Vertex>, vs': seq<Vertex>)
    requires |vs'| == |vs| && forall y :: 0 <= y < |vs| ==> vs'[y].gone == vs[y].gone
    ensures LiveCount(vs') == LiveCount(vs)
  {
    if vs != [] {
      SameCount(vs[..|vs| - 1], vs'[..|vs| - 1]);
    }
  }

  lemma {:induction false} TwoLive(vs: seq<Vertex>) returns (x: int, y: int)
    requires LiveCount(vs) >= 2
    ensures Live(vs, x) && Live(vs, y) && x != y
  {
    var k := |vs| - 1;
    if vs[k].gone {
      x, y := TwoLive(vs[..k]);
    } else {
      x := k;
      y := OneLive(vs[..k]);
    }
  }

  lemma {:induction false} OneLive(vs: seq<Vertex>) returns (x: int)
    requires LiveCount(vs) >= 1
    ensures Live(vs, x)
  {
    var k := |vs| - 1;
    if vs[k].gone {
      x := OneLive(vs[..k]);
    } else {
      x := k;
    }
  }

  /** While a connected graph has two live vertices it has a live edge, so the search for
      a random one can succeed. */
  lemma LiveEdgeExists(orig: seq<Pair>, n: nat, rep: seq<int>, vs: seq<Vertex>, es: seq<Edge>) returns (k: int)
    requires Merged(orig, n, rep, vs, es) && Connected(orig, n) && LiveCount(vs) >= 2
    ensures 0 <= k < |es| && !es[k].gone
  {
    var x, y := TwoLive(vs);
    var s := Preimage(rep, {x});
    assert rep[x] == x && rep[y] == y;
    assert x in s && y !in s;
    assert CutSide(s, n);
    k := SomeEdgeCrosses(orig, s);
  }
}
