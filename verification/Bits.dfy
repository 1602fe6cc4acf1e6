/** Binary prefixes: `false` is the character '0' and `true` is '1'. `p <= a` says
    that the prefix p begins a. `Less` is the order in which both SQLite and Python
    sort such text. */
module Bits {

  type Bits = seq<bool>

  function Zeros(k: nat): (z: Bits)
    ensures |z| == k && true !in z
  {
    seq(k, _ => false)
  }

  /** One block lies inside the other. */
  predicate Overlap(p: Bits, q: Bits) { p <= q || q <= p }

  lemma PrefixesOverlap(p: Bits, q: Bits, a: Bits)
    requires p <= a && q <= a
    ensures Overlap(p, q)
  {
    assert p == a[..|p|] && q == a[..|q|];
  }

  lemma LongerHasHalf(p: Bits, a: Bits)
    ensures p <= a && p != a ==> p + [false] <= a || p + [true] <= a
  {
    if p <= a && p != a {
      var d := a[|p|];
      assert a[..|p| + 1] == p + [d];
      assert p + [d] == if d then p + [true] else p + [false];
    }
  }

  predicate Less(a: Bits, b: Bits) {
    if b == [] then false
    else if a == [] then true
    else if a[0] != b[0] then b[0]
    else Less(a[1..], b[1..])
  }

  lemma {:induction false} LessTotal(a: Bits, b: Bits)
    ensures Less(a, b) || a == b || Less(b, a)
    ensures !(Less(a, b) && Less(b, a))
  {
    if a != [] && b != [] && a[0] == b[0] {
      LessTotal(a[1..], b[1..]);
      assert a == [a[0]] + a[1..] && b == [b[0]] + b[1..];
    }
  }

  lemma {:induction false} LessTransitive(a: Bits, b: Bits, c: Bits)
    requires Less(a, b) && Less(b, c)
    ensures Less(a, c)
  {
    if a != [] && a[0] == b[0] == c[0] {
      LessTransitive(a[1..], b[1..], c[1..]);
    }
  }

  lemma LessNotAfter(a: Bits, b: Bits, c: Bits)
    ensures Less(a, b) && !Less(c, b) ==> Less(a, c)
  {
    LessTotal(b, c);
    if Less(a, b) && Less(b, c) {
      LessTransitive(a, b, c);
    }
  }

  /** A prefix sorts before everything it begins, and whatever sorts between a prefix
      and a string it begins is begun by that prefix too. */
  lemma {:induction false} PrefixInterval(p: Bits, q: Bits, a: Bits)
    requires p <= a
    ensures !Less(a, p)
    ensures !Less(q, p) && !Less(a, q) ==> p <= q
  {
    if p != [] {
      assert p[0] == a[0];
      if q != [] && q[0] == p[0] {
        PrefixInterval(p[1..], q[1..], a[1..]);
        assert p == [p[0]] + p[1..] && q == [q[0]] + q[1..];
      } else {
        PrefixInterval(p[1..], [], a[1..]);
      }
    }
  }

  /** The two halves of a block are sorted one after the other. */
  lemma {:induction false} HalvesOrdered(p: Bits, a: Bits, b: Bits)
    requires p + [false] <= a && p + [true] <= b
    ensures Less(a, b)
  {
    assert a[..|p| + 1] == p + [false] && b[..|p| + 1] == p + [true];
    if p != [] {
      assert a[0] == (p + [false])[0] == p[0] && b[0] == (p + [true])[0] == p[0];
      assert (p + [false])[1..] == p[1..] + [false] && (p + [true])[1..] == p[1..] + [true];
      HalvesOrdered(p[1..], a[1..], b[1..]);
    } else {
      assert a[0] == (p + [false])[0] && b[0] == (p + [true])[0];
    }
  }

  /** Among prefixes of one length, two siblings are neighbours. */
  lemma {:induction false} SiblingsAdjacent(q: Bits, x: Bits)
    requires |x| == |q| + 1
    ensures !(Less(q + [false], x) && Less(x, q + [true]))
  {
    if q == [] {
      assert x == [x[0]];
    } else {
      assert (q + [false])[1..] == q[1..] + [false] && (q + [true])[1..] == q[1..] + [true];
      assert (q + [false])[0] == q[0] == (q + [true])[0];
      SiblingsAdjacent(q[1..], x[1..]);
    }
  }
}
