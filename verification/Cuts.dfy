/** Cuts of a multigraph given as a list of pairs, and what contracting it does to them. */
module Cuts {

  type Pair = (int, int)

  /** The vertices are 0 .. n-1 and no edge is a loop. */
  ghost predicate Multigraph(es: seq<Pair>, n: nat) {
    forall i :: 0 <= i < |es| ==> 0 <= es[i].0 < n && 0 <= es[i].1 < n && es[i].0 != es[i].1
  }

  predicate Crosses(e: Pair, s: set<int>) { (e.0 in s) != (e.1 in s) }

  /** Number of edges with one end in s. */
  function Crossing(es: seq<Pair>, s: set<int>): nat {
    if es == [] then 0
    else Crossing(es[..|es| - 1], s) + if Crosses(es[|es| - 1], s) then 1 else 0
  }

  /** A side of a cut: neither empty nor everything. */
  ghost predicate CutSide(s: set<int>, n: nat) {
    && (forall v :: v in s ==> 0 <= v < n)
    && (exists v :: v in s) && exists v :: 0 <= v < n && v !in s
  }

  ghost predicate IsCutSize(es: seq<Pair>, n: nat, c: nat) {
    exists s :: CutSide(s, n) && Crossing(es, s) == c
  }

  ghost predicate Connected(es: seq<Pair>, n: nat) {
    forall s :: CutSide(s, n) ==> Crossing(es, s) > 0
  }

  // ---- contraction ------------------------------------------------------------------

  /** f sends the n old vertices onto the m new ones. */
  ghost predicate Onto(f: seq<int>, n: nat, m: nat) {
    && |f| == n && (forall v :: 0 <= v < n ==> 0 <= f[v] < m)
    && forall w :: 0 <= w < m ==> w in f
  }

  /** The edges with distinct images, renamed, in the same order. */
  function Contract(es: seq<Pair>, f: seq<int>): seq<Pair>
    requires forall i :: 0 <= i < |es| ==> 0 <= es[i].0 < |f| && 0 <= es[i].1 < |f|
  {
    if es == [] then []
    else
      var e := es[|es| - 1];
      Contract(es[..|es| - 1], f) + if f[e.0] == f[e.1] then [] else [(f[e.0], f[e.1])]
  }

  function Preimage(f: seq<int>, s: set<int>): set<int> { set v | 0 <= v < |f| && f[v] in s }

  /** A cut of the contracted graph is a cut of the original one, of the same size. */
  lemma {:induction false} CrossingContracted(es: seq<Pair>, n: nat, f: seq<int>, m: nat, s: set<int>)
    requires Multigraph(es, n) && |f| == n
    ensures Crossing(Contract(es, f), s) == Crossing(es, Preimage(f, s))
  {
    if es != [] {
      var k := |es| - 1;
      var e := es[k];
      CrossingContracted(es[..k], n, f, m, s);
      var front := Contract(es[..k], f);
      assert Crosses(e, Preimage(f, s)) <==> (f[e.0] in s) != (f[e.1] in s);
      if f[e.0] != f[e.1] {
        assert (front + [(f[e.0], f[e.1])])[..|front|] == front;
      } else {
        assert front + [] == front;
      }
    }
  }

  lemma PreimageIsSide(f: seq<int>, n: nat, m: nat, s: set<int>)
    requires Onto(f, n, m) && CutSide(s, m)
    ensures CutSide(Preimage(f, s), n)
  {
    var w :| w in s;
    assert w in f;
    var v :| 0 <= v < |f| && f[v] == w;
    assert v in Preimage(f, s);
    var w' :| 0 <= w' < m && w' !in s;
    assert w' in f;
    var v' :| 0 <= v' < |f| && f[v'] == w';
    assert v' !in Preimage(f, s);
  }

  ghost predicate KeepsCuts(es: seq<Pair>, n: nat, es': seq<Pair>, m: nat) {
    && (Connected(es, n) ==> Connected(es', m))
    && forall c: nat :: IsCutSize(es', m, c) ==> IsCutSize(es, n, c)
  }

  /** So contraction makes no new cut: it keeps the graph connected, and every cut size
      found in the contracted graph is one of the original. */
  lemma ContractionKeepsCuts(es: seq<Pair>, n: nat, f: seq<int>, m: nat)
    requires Multigraph(es, n) && Onto(f, n, m)
    ensures Multigraph(Contract(es, f), m) && KeepsCuts(es, n, Contract(es, f), m)
  {
    var es' := Contract(es, f);
    forall s | CutSide(s, m)
      ensures CutSide(Preimage(f, s), n) && Crossing(es', s) == Crossing(es, Preimage(f, s))
    {
      PreimageIsSide(f, n, m, s);
      CrossingContracted(es, n, f, m, s);
    }
  }

  lemma {:induction false} AllCross(es: seq<Pair>, s: set<int>)
    requires forall i :: 0 <= i < |es| ==> Crosses(es[i], s)
    ensures Crossing(es, s) == |es|
  {
    if es != [] {
      AllCross(es[..|es| - 1], s);
    }
  }

  /** With two vertices left, the number of edges is the size of the only cut. */
  lemma TwoVertices(es: seq<Pair>)
    requires Multigraph(es, 2)
    ensures IsCutSize(es, 2, |es|)
  {
    var s := {0};
    AllCross(es, s);
    assert 0 in s && 1 !in s;
    assert CutSide(s, 2);
  }

  lemma {:induction false} SomeEdgeCrosses(es: seq<Pair>, s: set<int>) returns (i: nat)
    requires Crossing(es, s) > 0
    ensures i < |es| && Crosses(es[i], s)
  {
    if Crosses(es[|es| - 1], s) {
      i := |es| - 1;
    } else {
      i := SomeEdgeCrosses(es[..|es| - 1], s);
    }
  }
}
