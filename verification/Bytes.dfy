/** Byte strings: big-endian integers and the order in which Python compares bytes. */
module Bytes {

  type Byte = x: int | 0 <= x < 256
  type Octets = seq<Byte>

  function Pow256(k: nat): (r: nat)
    ensures r >= 1
  {
    if k == 0 then 1 else 256 * Pow256(k - 1)
  }

  function BigEndian(v: nat, k: nat): (b: Octets)
    ensures |b| == k
  {
    if k == 0 then [] else BigEndian(v / 256, k - 1) + [v % 256]
  }

  function ValueOf(b: Octets): nat {
    if b == [] then 0 else ValueOf(b[..|b| - 1]) * 256 + b[|b| - 1]
  }

  lemma {:induction false} BigEndianValue(v: nat, k: nat)
    requires v < Pow256(k)
    ensures ValueOf(BigEndian(v, k)) == v
  {
    if k > 0 {
      BigEndianValue(v / 256, k - 1);
      assert BigEndian(v, k)[..k - 1] == BigEndian(v / 256, k - 1);
    }
  }

  lemma {:induction false} ValueBigEndian(b: Octets)
    ensures ValueOf(b) < Pow256(|b|) && BigEndian(ValueOf(b), |b|) == b
  {
    if b != [] {
      ValueBigEndian(b[..|b| - 1]);
      var v := ValueOf(b[..|b| - 1]);
      assert (v * 256 + b[|b| - 1]) / 256 == v;
      assert b == b[..|b| - 1] + [b[|b| - 1]];
    }
  }

  /** Comparison of Python bytes. */
  predicate Less(a: Octets, b: Octets) {
    if b == [] then false
    else if a == [] then true
    else if a[0] != b[0] then a[0] < b[0]
    else Less(a[1..], b[1..])
  }

  /** a and b differ at i, where a is smaller, and agree before. */
  predicate DifferAt(a: Octets, b: Octets, i: nat) {
    i < |a| && i < |b| && a[..i] == b[..i] && a[i] < b[i]
  }

  lemma {:induction false} DifferenceDecides(a: Octets, b: Octets, i: nat, s: Octets, t: Octets)
    requires DifferAt(a, b, i)
    ensures Less(a + s, b + t) && !Less(b + t, a + s)
  {
    assert (a + s)[0] == a[0] && (b + t)[0] == b[0];
    if i > 0 {
      assert a[0] == a[..i][0] == b[..i][0] == b[0];
      assert a[1..][..i - 1] == a[..i][1..] && b[1..][..i - 1] == b[..i][1..];
      assert (a + s)[1..] == a[1..] + s && (b + t)[1..] == b[1..] + t;
      DifferenceDecides(a[1..], b[1..], i - 1, s, t);
    }
  }

  /** Big-endian strings of one length are ordered as their values. */
  lemma {:induction false} BigEndianOrder(u: nat, v: nat, k: nat) returns (i: nat)
    requires u < v < Pow256(k)
    ensures DifferAt(BigEndian(u, k), BigEndian(v, k), i)
  {
    var a, b := BigEndian(u / 256, k - 1), BigEndian(v / 256, k - 1);
    if u / 256 == v / 256 {
      i := k - 1;
      assert BigEndian(u, k)[..i] == a && BigEndian(v, k)[..i] == b;
    } else {
      i := BigEndianOrder(u / 256, v / 256, k - 1);
      assert BigEndian(u, k)[..i] == a[..i] && BigEndian(v, k)[..i] == b[..i];
    }
  }

  lemma ScaledUp(f: nat, p: nat, r: nat, v: nat)
    requires v == f * (256 * p) + r
    ensures v / 256 == f * p + r / 256 && v % 256 == r % 256
  {
    assert v == 256 * (f * p) + r;
  }

  lemma ScaledBound(f: nat, top: nat, p: nat, r: nat)
    requires f < top && r < p
    ensures f * p + r < top * p
  {
    assert (f + 1) * p <= top * p;
    assert (f + 1) * p == f * p + p;
  }

  /** The first byte holds the multiples of 256^k. */
  lemma {:induction false} FirstByte(f: Byte, r: nat, k: nat)
    requires r < Pow256(k)
    ensures f * Pow256(k) + r < Pow256(k + 1)
    ensures BigEndian(f * Pow256(k) + r, k + 1) == [f] + BigEndian(r, k)
  {
    ScaledBound(f, 256, Pow256(k), r);
    var v := f * Pow256(k) + r;
    assert BigEndian(v, k + 1) == BigEndian(v / 256, k) + [v % 256];
    if k == 0 {
      assert BigEndian(v / 256, 0) == [];
    } else {
      var p := Pow256(k - 1);
      ScaledUp(f, p, r, v);
      FirstByte(f, r / 256, k - 1);
      assert BigEndian(v / 256, k) == [f] + BigEndian(r / 256, k - 1);
    }
  }

  /** Reading the first byte and the rest apart. */
  lemma {:induction false} FirstByteValue(w: Octets)
    requires w != []
    ensures ValueOf(w) == w[0] * Pow256(|w| - 1) + ValueOf(w[1..])
  {
    var k := |w| - 1;
    if k > 0 {
      var front := w[..k];
      FirstByteValue(front);
      assert front[1..] == w[1..][..k - 1];
      ScaleByte(w[0], Pow256(k - 1));
    }
  }

  lemma ScaleByte(f: nat, p: nat)
    ensures f * (256 * p) == 256 * (f * p)
  {
  }
}
