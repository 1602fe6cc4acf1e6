/** The integer serialization of the version numbers: one to eight bytes, the three
    first bits giving the number of bytes. */
module IntegerCode {
  import opened Bytes
  import opened Wrappers

  /** How many integers are coded with n + 1 bytes: 32 << 8 * n. */
  function ClassSize(n: nat): nat {
    if n == 0 then 32 else 256 * ClassSize(n - 1)
  }

  lemma {:induction false} ClassSizeIs(n: nat)
    ensures ClassSize(n) == 32 * Pow256(n)
  {
    if n > 0 {
      ClassSizeIs(n - 1);
    }
  }

  /** The least integer coded with n + 1 bytes. */
  function ClassBase(n: nat): nat {
    if n == 0 then 0 else ClassBase(n - 1) + ClassSize(n - 1)
  }

  const CLASSES: nat := 8
  const LIMIT: nat := 0x2020202020202020

  lemma LimitIsEightClasses(k: nat)
    requires k == CLASSES
    ensures ClassBase(k) == LIMIT
  {
    assert ClassSize(2) == 0x20_0000 && ClassSize(4) == 0x20_0000_0000 && ClassSize(6) == 0x20_0000_0000_0000;
    assert ClassBase(2) == 0x2020 && ClassBase(4) == 0x2020_2020 && ClassBase(6) == 0x2020_2020_2020;
  }

  lemma {:induction false} BasesGrow(m: nat, n: nat)
    requires m <= n
    ensures ClassBase(m) <= ClassBase(n)
  {
    if m < n {
      BasesGrow(m, n - 1);
    }
  }

  lemma {:induction false} ClassExists(v: nat, k: nat) returns (n: nat)
    requires v < ClassBase(k)
    ensures n < k && ClassBase(n) <= v < ClassBase(n + 1)
  {
    if v < ClassBase(k - 1) {
      n := ClassExists(v, k - 1);
    } else {
      n := k - 1;
    }
  }

  predicate InClass(v: nat, n: nat) {
    n < CLASSES && ClassBase(n) <= v < ClassBase(n + 1)
  }

  lemma SomeClass(v: nat)
    requires v < LIMIT
    ensures exists n: nat :: InClass(v, n)
  {
    var k := CLASSES;
    LimitIsEightClasses(k);
    var n := ClassExists(v, k);
    assert InClass(v, n);
  }

  /** The number of bytes that follow the first one in the code of v. */
  ghost function ClassOf(v: nat): (n: nat)
    requires v < LIMIT
    ensures InClass(v, n)
  {
    SomeClass(v);
    var n: nat :| InClass(v, n);
    n
  }

  lemma ClassIsUnique(v: nat, n: nat)
    requires InClass(v, n)
    ensures v < LIMIT && n == ClassOf(v)
  {
    var k := CLASSES;
    BasesGrow(n + 1, k);
    LimitIsEightClasses(k);
    ClassesDisjoint(v, n, ClassOf(v));
  }

  lemma ClassesDisjoint(v: nat, n: nat, m: nat)
    requires ClassBase(n) <= v < ClassBase(n + 1) && ClassBase(m) <= v < ClassBase(m + 1)
    ensures n == m
  {
    if n < m { BasesGrow(n + 1, m); } else if m < n { BasesGrow(m + 1, n); }
  }

  /** n * ClassSize(n), the value of the three first bits n followed by zeros. */
  function Offset(n: nat): nat {
    if n == 0 then 0 else 256 * Offset(n - 1) + ClassSize(n)
  }

  lemma {:induction false} OffsetIsProduct(n: nat)
    ensures Offset(n) == n * ClassSize(n)
  {
    if n > 0 {
      OffsetIsProduct(n - 1);
      ClassSizeIs(n - 1);
    }
  }

  /** The codeword of the i-th integer of the class n. */
  function Codeword(n: nat, i: nat): (b: Octets)
    ensures |b| == n + 1
  {
    BigEndian(i + Offset(n), n + 1)
  }

  ghost function Packed(v: nat): (b: Octets)
    requires v < LIMIT
    ensures |b| == ClassOf(v) + 1
  {
    Codeword(ClassOf(v), v - ClassBase(ClassOf(v)))
  }

  /** The loop of `packInteger`; None is the OverflowError. */
  method PackInteger(v: nat) returns (r: Option<Octets>)
    ensures r == if v < LIMIT then Some(Packed(v)) else None
  {
    var i := v;
    for n := 0 to CLASSES
      invariant i >= 0 && v == ClassBase(n) + i
    {
      var x := ClassSize(n);
      if i < x {
        CodewordIsPacked(n, i, v);
        OffsetIsProduct(n);
        return Some(BigEndian(i + n * x, n + 1));
      }
      i := i - x;
    }
    ghost var k := CLASSES;
    LimitIsEightClasses(k);
    return None;
  }

  /** `unpackInteger`: Error is the IndexError on the empty string, Truncated is None. */
  datatype Unpacked = Error | Truncated | Value(value: int, length: nat)

  function UnpackInteger(x: Octets): Unpacked {
    if x == [] then Error else
    var n := x[0] / 32;
    if |x| < n + 1 then Truncated
    else Value(ValueOf(x[..n + 1]) - Offset(n) + ClassBase(n), n + 1)
  }

  /** The first byte of a codeword of the class n is in 32n .. 32n + 31. */
  lemma CodewordBytes(n: nat, i: nat) returns (f: Byte, r: nat)
    requires n < CLASSES && i < ClassSize(n)
    ensures 32 * n <= f < 32 * n + 32 && r < Pow256(n)
    ensures i + Offset(n) == f * Pow256(n) + r < Pow256(n + 1)
    ensures Codeword(n, i) == [f] + BigEndian(r, n)
  {
    ClassSizeIs(n);
    var q: nat;
    q, r := Quotient(i, Pow256(n), 32);
    f := 32 * n + q;
    Regroup(n, q, Pow256(n));
    OffsetIsProduct(n);
    FirstByte(f, r, n);
  }

  lemma Quotient(i: nat, p: nat, top: nat) returns (q: nat, r: nat)
    requires i < top * p
    ensures i == q * p + r && q < top && r < p
  {
    q, r := i / p, i % p;
    assert q >= top ==> q * p >= top * p;
  }

  lemma Regroup(n: nat, q: nat, p: nat)
    ensures (32 * n + q) * p == n * (32 * p) + q * p
  {
  }

  lemma CodewordShape(n: nat, i: nat)
    requires n < CLASSES && i < ClassSize(n)
    ensures i + Offset(n) < Pow256(n + 1)
    ensures Codeword(n, i)[0] / 32 == n
    ensures ValueOf(Codeword(n, i)) == i + Offset(n)
  {
    CodewordFirst(n, i);
    CodewordValue(n, i);
  }

  lemma CodewordFirst(n: nat, i: nat)
    requires n < CLASSES && i < ClassSize(n)
    ensures i + Offset(n) < Pow256(n + 1) && Codeword(n, i)[0] / 32 == n
  {
    var f, r := CodewordBytes(n, i);
    assert Codeword(n, i)[0] == ([f] + BigEndian(r, n))[0] == f;
  }

  lemma CodewordValue(n: nat, i: nat)
    requires i + Offset(n) < Pow256(n + 1)
    ensures ValueOf(Codeword(n, i)) == i + Offset(n)
  {
    BigEndianValue(i + Offset(n), n + 1);
  }

  /** Decoding reads back the integer and the exact length, whatever follows. */
  lemma UnpackPacked(v: nat, rest: Octets)
    requires v < LIMIT
    ensures UnpackInteger(Packed(v) + rest) == Value(v, |Packed(v)|)
  {
    var n := ClassOf(v);
    var x := Packed(v) + rest;
    CodewordShape(n, v - ClassBase(n));
    assert x[0] == Packed(v)[0] && x[..n + 1] == Packed(v);
  }

  /** Every complete codeword is the packing of the integer it decodes to. */
  lemma PackedUnpack(x: Octets)
    requires UnpackInteger(x).Value?
    ensures var Value(v, length) := UnpackInteger(x);
            0 <= v < LIMIT && x[..length] == Packed(v)
  {
    var n := x[0] / 32;
    var w := x[..n + 1];
    var i := CompleteCodeword(w, n);
    CodewordIsPacked(n, i, ClassBase(n) + i);
  }

  lemma CompleteCodeword(w: Octets, n: nat) returns (i: nat)
    requires |w| == n + 1 && w[0] / 32 == n
    ensures n < CLASSES && i < ClassSize(n) && ValueOf(w) == i + Offset(n) && w == Codeword(n, i)
  {
    i := IndexInClass(w, n);
    ValueBigEndian(w);
  }

  lemma CodewordIsPacked(n: nat, i: nat, v: nat)
    requires n < CLASSES && i < ClassSize(n) && v == ClassBase(n) + i
    ensures v < LIMIT && Packed(v) == Codeword(n, i)
  {
    ClassIsUnique(v, n);
  }

  lemma IndexInClass(w: Octets, n: nat) returns (i: nat)
    requires |w| == n + 1 && w[0] / 32 == n
    ensures i < ClassSize(n) && ValueOf(w) == i + Offset(n)
  {
    var q, r, p := w[0] - 32 * n, ValueOf(w[1..]), Pow256(n);
    ValueBigEndian(w[1..]);
    ScaledBound(q, 32, p, r);
    i := q * p + r;
    assert ValueOf(w) == w[0] * p + r by { FirstByteValue(w); }
    Regroup(n, q, p);
    OffsetIsProduct(n);
    ClassSizeIs(n);
  }

  /** No codeword begins another. */
  lemma PrefixFreeCode(u: nat, v: nat)
    requires u < LIMIT && v < LIMIT && Packed(u) <= Packed(v)
    ensures u == v
  {
    UnpackPacked(u, Packed(v)[|Packed(u)|..]);
    UnpackPacked(v, []);
    assert Packed(v) == Packed(u) + Packed(v)[|Packed(u)|..];
    assert Packed(v) + [] == Packed(v);
  }

  lemma ClassesGrow(u: nat, v: nat)
    requires u <= v < LIMIT
    ensures ClassOf(u) <= ClassOf(v)
  {
    var n, m := ClassOf(u), ClassOf(v);
    assert InClass(u, n) && InClass(v, m);
    if m < n {
      BasesGrow(m + 1, n);
    }
  }

  /** Comparing codewords bytewise, with anything after them, compares the integers. */
  lemma OrderPreserved(u: nat, v: nat, s: Octets, t: Octets)
    requires u < v < LIMIT
    ensures Less(Packed(u) + s, Packed(v) + t) && !Less(Packed(v) + t, Packed(u) + s)
  {
    var n, m := ClassOf(u), ClassOf(v);
    ClassesGrow(u, v);
    assert InClass(u, n) && InClass(v, m);
    var i: nat, j: nat := u - ClassBase(n), v - ClassBase(m);
    if n == m {
      SameClassOrder(n, i, j, s, t);
    } else {
      ShorterFirst(n, i, m, j, s, t);
    }
  }

  lemma SameClassOrder(n: nat, i: nat, j: nat, s: Octets, t: Octets)
    requires n < CLASSES && i < j < ClassSize(n)
    ensures Less(Codeword(n, i) + s, Codeword(n, j) + t) && !Less(Codeword(n, j) + t, Codeword(n, i) + s)
  {
    CodewordFirst(n, j);
    SameLengthOrder(n, i, j, s, t);
  }

  lemma SameLengthOrder(n: nat, i: nat, j: nat, s: Octets, t: Octets)
    requires i < j && j + Offset(n) < Pow256(n + 1)
    ensures Less(Codeword(n, i) + s, Codeword(n, j) + t) && !Less(Codeword(n, j) + t, Codeword(n, i) + s)
  {
    var k := BigEndianOrder(i + Offset(n), j + Offset(n), n + 1);
    DifferenceDecides(Codeword(n, i), Codeword(n, j), k, s, t);
  }

  lemma ShorterFirst(n: nat, i: nat, m: nat, j: nat, s: Octets, t: Octets)
    requires n < m < CLASSES && i < ClassSize(n) && j < ClassSize(m)
    ensures Less(Codeword(n, i) + s, Codeword(m, j) + t) && !Less(Codeword(m, j) + t, Codeword(n, i) + s)
  {
    CodewordShape(n, i);
    CodewordShape(m, j);
    DifferenceDecides(Codeword(n, i), Codeword(m, j), 0, s, t);
  }

  /** The protocol number and the rest of a handshake, as `Peer.decode` splits it:
      a number that cannot be read counts as 0 and takes no byte. */
  ghost function SplitProtocol(x: Octets): (int, Octets) {
    match UnpackInteger(x)
    case Value(v, length) => if length <= |x| then (v, x[length..]) else (0, x)
    case _ => (0, x)
  }

  /** Repacking the number in front of the rest rebuilds the original message exactly
      when the number could be read. */
  lemma RepackRebuilds(x: Octets)
    requires x != []
    ensures 0 <= SplitProtocol(x).0 < LIMIT
    ensures Packed(SplitProtocol(x).0) + SplitProtocol(x).1 == x <==> !UnpackInteger(x).Truncated?
  {
    if UnpackInteger(x).Value? {
      PackedUnpack(x);
    } else {
      assert |Packed(0) + x| == |Packed(0)| + |x| > |x|;
    }
  }

  /** A lone byte that announces a second one: the message put back together is longer. */
  lemma TruncatedNotRebuilt()
    ensures UnpackInteger([32]).Truncated?
    ensures Packed(SplitProtocol([32]).0) + SplitProtocol([32]).1 != [32]
  {
    RepackRebuilds([32]);
  }
}
