/** Small facts about finite sets of integers. */
module FiniteSets {

  lemma SomeMember(s: set<int>)
    requires s != {}
    ensures exists x :: x in s
  {
    assert (forall x :: x !in s) ==> s == {};
  }

  /** The numbers 0 .. n-1. */
  function Below(n: nat): set<int> { if n == 0 then {} else Below(n - 1) + {n - 1} }

  lemma {:induction false} BelowSize(n: nat)
    ensures |Below(n)| == n && forall x :: x in Below(n) <==> 0 <= x < n
  {
    if n > 0 {
      BelowSize(n - 1);
    }
  }

  function Elements(s: seq<int>): set<int> { set x | x in s }

  lemma {:induction false} DistinctSize(s: seq<int>)
    requires forall i, j :: 0 <= i < j < |s| ==> s[i] != s[j]
    ensures |Elements(s)| == |s|
  {
    if s != [] {
      DistinctSize(s[1..]);
      assert s[0] !in s[1..];
      assert Elements(s) == Elements(s[1..]) + {s[0]};
    }
  }

  lemma SubsetSize<T>(a: set<T>, b: set<T>)
    requires a <= b
    ensures |a| <= |b| && (|a| == |b| ==> a == b)
  {
    assert b == a + (b - a);
    assert |b| == |a| + |b - a|;
  }

  /** Distinct numbers below n: there are at most n, and n of them are all the numbers. */
  lemma DistinctBelow(s: seq<int>, n: nat)
    requires forall i :: 0 <= i < |s| ==> 0 <= s[i] < n
    requires forall i, j :: 0 <= i < j < |s| ==> s[i] != s[j]
    ensures |s| <= n
    ensures |s| == n ==> forall x :: 0 <= x < n ==> x in s
  {
    DistinctSize(s);
    BelowSize(n);
    SubsetSize(Elements(s), Below(n));
    if |s| == n {
      forall x | 0 <= x < n ensures x in s { assert x in Below(n); }
    }
  }
}
