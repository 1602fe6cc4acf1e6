/** The formats of the Babel control protocol: packed records, structures, arrays and
    zero-terminated strings, with their encoders and decoders. */
module Codec {
  import opened Bytes
  import opened Wrappers

  /** The fields of a packed record: unsigned B, H, I, signed i, and a fixed count of bytes. */
  datatype Prim = U8 | U16 | U32 | I32 | Raw(count: nat)

  datatype Format =
    | Packed(prims: seq<Prim>)
    | Struct(fields: seq<Format>)
    | Array(item: Format)
    | Str

  datatype Scalar = Num(n: int) | Chars(b: Octets)

  datatype Value =
    | Record(scalars: seq<Scalar>)
    | Tuple(fields: seq<Value>)
    | List(items: seq<Value>)
    | Text(chars: Octets)

  // ---- packed records ---------------------------------------------------------------

  function Size(p: Prim): nat {
    match p case U8 => 1 case U16 => 2 case U32 => 4 case I32 => 4 case Raw(n) => n
  }

  function TotalSize(ps: seq<Prim>): nat {
    if ps == [] then 0 else Size(ps[0]) + TotalSize(ps[1..])
  }

  function Limit(p: Prim): nat {
    match p case U8 => 0x100 case U16 => 0x1_0000 case U32 => 0x1_0000_0000 case I32 => 0x1_0000_0000 case Raw(n) => 0
  }

  /** `struct.pack`: integers must be in range; bytes are cut or padded to the count. */
  function EncodePrim(p: Prim, x: Scalar): (r: Option<Octets>)
    ensures r.Some? ==> |r.value| == Size(p)
  {
    match p
    case Raw(n) =>
      if !x.Chars? then None
      else if n <= |x.b| then Some(x.b[..n])
      else Some(x.b + seq(n - |x.b|, _ => 0))
    case I32 =>
      if x.Num? && -0x8000_0000 <= x.n < 0x8000_0000 then
        Some(BigEndian(if x.n < 0 then x.n + 0x1_0000_0000 else x.n, 4))
      else None
    case _ =>
      if x.Num? && 0 <= x.n < Limit(p) then Some(BigEndian(x.n, Size(p))) else None
  }

  function DecodePrim(p: Prim, b: Octets): Scalar
    requires |b| == Size(p)
  {
    match p
    case Raw(_) => Chars(b)
    case I32 => Num(if ValueOf(b) < 0x8000_0000 then ValueOf(b) else ValueOf(b) - 0x1_0000_0000)
    case _ => Num(ValueOf(b))
  }

  /** The scalars that a decoder can produce. */
  predicate CanonicalPrim(p: Prim, x: Scalar) {
    match p
    case Raw(n) => x.Chars? && |x.b| == n
    case I32 => x.Num? && -0x8000_0000 <= x.n < 0x8000_0000
    case _ => x.Num? && 0 <= x.n < Limit(p)
  }

  function EncodePrims(ps: seq<Prim>, xs: seq<Scalar>): (r: Option<Octets>)
    ensures r.Some? ==> |r.value| == TotalSize(ps)
  {
    if |ps| != |xs| then None
    else if ps == [] then Some([])
    else
      var head, tail := EncodePrim(ps[0], xs[0]), EncodePrims(ps[1..], xs[1..]);
      if head.Some? && tail.Some? then Some(head.value + tail.value) else None
  }

  function DecodePrims(ps: seq<Prim>, b: Octets): (xs: seq<Scalar>)
    requires |b| == TotalSize(ps)
    ensures |xs| == |ps|
  {
    if ps == [] then []
    else [DecodePrim(ps[0], b[..Size(ps[0])])] + DecodePrims(ps[1..], b[Size(ps[0])..])
  }

  predicate CanonicalPrims(ps: seq<Prim>, xs: seq<Scalar>) {
    |ps| == |xs| && forall i :: 0 <= i < |ps| ==> CanonicalPrim(ps[i], xs[i])
  }

  lemma SizesOfIntegers()
    ensures Pow256(1) == 0x100 && Pow256(2) == 0x1_0000 && Pow256(4) == 0x1_0000_0000
  {
    assert Pow256(3) == 0x100_0000;
  }

  lemma PrimRoundTrip(p: Prim, x: Scalar)
    requires EncodePrim(p, x).Some? && CanonicalPrim(p, x)
    ensures DecodePrim(p, EncodePrim(p, x).value) == x
  {
    SizesOfIntegers();
    if p.I32? {
      BigEndianValue(if x.n < 0 then x.n + 0x1_0000_0000 else x.n, 4);
    } else if !p.Raw? {
      BigEndianValue(x.n, Size(p));
    }
  }

  lemma {:induction false} PrimsRoundTrip(ps: seq<Prim>, xs: seq<Scalar>)
    requires EncodePrims(ps, xs).Some? && CanonicalPrims(ps, xs)
    ensures DecodePrims(ps, EncodePrims(ps, xs).value) == xs
  {
    if ps != [] {
      var e := EncodePrims(ps, xs).value;
      var head, tail := EncodePrim(ps[0], xs[0]).value, EncodePrims(ps[1..], xs[1..]).value;
      assert e[..Size(ps[0])] == head && e[Size(ps[0])..] == tail;
      PrimRoundTrip(ps[0], xs[0]);
      PrimsRoundTrip(ps[1..], xs[1..]);
    }
  }

  lemma PrimDecodedCanonical(p: Prim, b: Octets)
    requires |b| == Size(p)
    ensures CanonicalPrim(p, DecodePrim(p, b))
  {
    SizesOfIntegers();
    ValueBigEndian(b);
  }

  lemma {:induction false} PrimsDecodedCanonical(ps: seq<Prim>, b: Octets)
    requires |b| == TotalSize(ps)
    ensures CanonicalPrims(ps, DecodePrims(ps, b))
  {
    if ps != [] {
      PrimDecodedCanonical(ps[0], b[..Size(ps[0])]);
      PrimsDecodedCanonical(ps[1..], b[Size(ps[0])..]);
    }
  }

  // ---- encoding ---------------------------------------------------------------------

  /** None is an exception of the encoder. */
  function Encode(f: Format, v: Value): Option<Octets>
    decreases f, 0, 0
  {
    match f
    case Packed(ps) => if v.Record? then EncodePrims(ps, v.scalars) else None
    case Struct(fs) => if v.Tuple? then EncodeFields(fs, v.fields) else None
    case Array(item) =>
      if !v.List? || |v.items| >= 0x1_0000 then None else
      var items := EncodeItems(item, v.items);
      if items.Some? then Some(BigEndian(|v.items|, 2) + items.value) else None
    case Str => if v.Text? then Some(v.chars + [0]) else None
  }

  /** As `zip` does, the encoder stops at the shorter of the two lists. */
  function EncodeFields(fs: seq<Format>, vs: seq<Value>): Option<Octets>
    decreases fs, 0, 0
  {
    if fs == [] || vs == [] then Some([])
    else
      var head, tail := Encode(fs[0], vs[0]), EncodeFields(fs[1..], vs[1..]);
      if head.Some? && tail.Some? then Some(head.value + tail.value) else None
  }

  function EncodeItems(item: Format, vs: seq<Value>): Option<Octets>
    decreases item, 1, |vs|
  {
    if vs == [] then Some([])
    else
      var head, tail := Encode(item, vs[0]), EncodeItems(item, vs[1..]);
      if head.Some? && tail.Some? then Some(head.value + tail.value) else None
  }

  // ---- decoding ---------------------------------------------------------------------

  /** Position of the first zero byte from o on, or |b|. */
  function Index0(b: Octets, o: nat): (i: nat)
    requires o <= |b|
    ensures o <= i <= |b| && 0 !in b[o..i] && (i < |b| ==> b[i] == 0)
    decreases |b| - o
  {
    if o == |b| || b[o] == 0 then o else
    var i := Index0(b, o + 1);
    assert b[o..i] == [b[o]] + b[o + 1..i];
    i
  }

  /** The new offset and the value; None is an exception of the decoder. */
  function Decode(f: Format, b: Octets, o: nat): (r: Option<(nat, Value)>)
    ensures r.Some? ==> o <= r.value.0 <= |b|
    decreases f, 0, 0
  {
    match f
    case Packed(ps) =>
      var end := o + TotalSize(ps);
      if end <= |b| then Some((end, Record(DecodePrims(ps, b[o..end])))) else None
    case Struct(fs) =>
      var r := DecodeFields(fs, b, o);
      if r.Some? then Some((r.value.0, Tuple(r.value.1))) else None
    case Array(item) =>
      if o + 2 > |b| then None else
      var r := DecodeItems(item, ValueOf(b[o..o + 2]), b, o + 2);
      if r.Some? then Some((r.value.0, List(r.value.1))) else None
    case Str =>
      if o > |b| || Index0(b, o) == |b| then None
      else Some((Index0(b, o) + 1, Text(b[o..Index0(b, o)])))
  }

  function DecodeFields(fs: seq<Format>, b: Octets, o: nat): (r: Option<(nat, seq<Value>)>)
    ensures r.Some? ==> o <= r.value.0 && (r.value.0 <= |b| || r.value.0 == o) && |r.value.1| == |fs|
    decreases fs, 0, 0
  {
    if fs == [] then if o <= |b| then Some((o, [])) else None else
    var head := Decode(fs[0], b, o);
    if head.None? then None else
    var tail := DecodeFields(fs[1..], b, head.value.0);
    if tail.None? then None else Some((tail.value.0, [head.value.1] + tail.value.1))
  }

  function DecodeItems(item: Format, n: nat, b: Octets, o: nat): (r: Option<(nat, seq<Value>)>)
    requires o <= |b|
    ensures r.Some? ==> o <= r.value.0 <= |b| && |r.value.1| == n
    decreases item, 1, n
  {
    if n == 0 then Some((o, [])) else
    var head := Decode(item, b, o);
    if head.None? then None else
    var tail := DecodeItems(item, n - 1, b, head.value.0);
    if tail.None? then None else Some((tail.value.0, [head.value.1] + tail.value.1))
  }

  // ---- round trip -------------------------------------------------------------------

  /** The values that a decoder can produce: exact counts and no zero inside strings. */
  predicate Canonical(f: Format, v: Value)
    decreases f, 0, 0
  {
    match f
    case Packed(ps) => v.Record? && CanonicalPrims(ps, v.scalars)
    case Struct(fs) => v.Tuple? && CanonicalFields(fs, v.fields)
    case Array(item) => v.List? && |v.items| < 0x1_0000 && CanonicalItems(item, v.items)
    case Str => v.Text? && 0 !in v.chars
  }

  predicate CanonicalFields(fs: seq<Format>, vs: seq<Value>)
    decreases fs, 0, 0
  {
    if fs == [] || vs == [] then fs == [] && vs == []
    else Canonical(fs[0], vs[0]) && CanonicalFields(fs[1..], vs[1..])
  }

  predicate CanonicalItems(item: Format, vs: seq<Value>)
    decreases item, 1, |vs|
  {
    vs == [] || (Canonical(item, vs[0]) && CanonicalItems(item, vs[1..]))
  }

  /** Bytes from o on are e followed by something. */
  predicate Holds(b: Octets, o: nat, e: Octets) {
    o + |e| <= |b| && b[o..o + |e|] == e
  }

  lemma HoldsParts(b: Octets, o: nat, x: Octets, y: Octets)
    requires Holds(b, o, x + y)
    ensures Holds(b, o, x) && Holds(b, o + |x|, y)
  {
    var w := b[o..o + |x + y|];
    assert b[o..o + |x|] == w[..|x|] == x;
    assert b[o + |x|..o + |x| + |y|] == w[|x|..] == y;
  }

  /** Decoding what was encoded, wherever it stands and whatever follows it, gives the
      value back and stops exactly at its end. */
  lemma {:induction false} DecodeEncoded(f: Format, v: Value, b: Octets, o: nat)
    requires Canonical(f, v) && Encode(f, v).Some? && Holds(b, o, Encode(f, v).value)
    ensures Decode(f, b, o) == Some((o + |Encode(f, v).value|, v))
    decreases f, 0, 0
  {
    var e := Encode(f, v).value;
    match f
    case Packed(ps) => PrimsRoundTrip(ps, v.scalars);
    case Struct(fs) => DecodeEncodedFields(fs, v.fields, b, o);
    case Array(item) => DecodeEncodedArray(item, v.items, b, o);
    case Str => StringFound(b, o, v.chars);
  }

  lemma {:induction false} DecodeEncodedArray(item: Format, vs: seq<Value>, b: Octets, o: nat)
    requires CanonicalItems(item, vs) && |vs| < 0x1_0000 && EncodeItems(item, vs).Some?
    requires Holds(b, o, BigEndian(|vs|, 2) + EncodeItems(item, vs).value)
    ensures Decode(Array(item), b, o) == Some((o + 2 + |EncodeItems(item, vs).value|, List(vs)))
    decreases item, 2, 0
  {
    HoldsParts(b, o, BigEndian(|vs|, 2), EncodeItems(item, vs).value);
    CountDecoded(b, o, |vs|);
    DecodeEncodedItems(item, vs, b, o + 2);
  }

  lemma CountDecoded(b: Octets, o: nat, n: nat)
    requires n < 0x1_0000 && Holds(b, o, BigEndian(n, 2))
    ensures o + 2 <= |b| && ValueOf(b[o..o + 2]) == n
  {
    SizesOfIntegers();
    BigEndianValue(n, 2);
  }

  lemma StringFound(b: Octets, o: nat, chars: Octets)
    requires Holds(b, o, chars + [0]) && 0 !in chars
    ensures Index0(b, o) == o + |chars| && b[o..o + |chars|] == chars
  {
    HoldsParts(b, o, chars, [0]);
    var z := o + |chars|;
    assert b[z] == b[z..z + 1][0];
    FirstZero(b, o, z);
  }

  lemma {:induction false} FirstZero(b: Octets, o: nat, z: nat)
    requires o <= z < |b| && 0 !in b[o..z] && b[z] == 0
    ensures Index0(b, o) == z
    decreases z - o
  {
    if o < z {
      assert b[o] == b[o..z][0];
      assert b[o + 1..z] == b[o..z][1..];
      FirstZero(b, o + 1, z);
    }
  }

  lemma {:induction false} DecodeEncodedFields(fs: seq<Format>, vs: seq<Value>, b: Octets, o: nat)
    requires CanonicalFields(fs, vs) && EncodeFields(fs, vs).Some? && Holds(b, o, EncodeFields(fs, vs).value)
    ensures DecodeFields(fs, b, o) == Some((o + |EncodeFields(fs, vs).value|, vs))
    decreases fs, 0, 0
  {
    if fs != [] {
      var first, rest := vs[0], vs[1..];
      var head, tail := Encode(fs[0], first).value, EncodeFields(fs[1..], rest).value;
      var m, e := o + |head|, o + |head| + |tail|;
      assert EncodeFields(fs, vs).value == head + tail && vs == [first] + rest;
      HoldsParts(b, o, head, tail);
      OneFieldDecoded(fs[0], first, b, o, m);
      DecodeEncodedFields(fs[1..], rest, b, m);
      assert DecodeFields(fs[1..], b, m) == Some((e, rest));
      DecodeOneField(fs, first, rest, b, o, m, e);
    }
  }

  lemma OneFieldDecoded(f: Format, v: Value, b: Octets, o: nat, m: nat)
    requires Canonical(f, v) && Encode(f, v).Some? && Holds(b, o, Encode(f, v).value)
    requires m == o + |Encode(f, v).value|
    ensures Decode(f, b, o) == Some((m, v))
    decreases f, 1, 0
  {
    DecodeEncoded(f, v, b, o);
  }

  lemma DecodeOneField(fs: seq<Format>, first: Value, rest: seq<Value>, b: Octets, o: nat, m: nat, e: nat)
    requires fs != [] && o <= m <= |b| && Decode(fs[0], b, o) == Some((m, first))
    requires DecodeFields(fs[1..], b, m) == Some((e, rest))
    ensures DecodeFields(fs, b, o) == Some((e, [first] + rest))
  {
  }

  lemma {:induction false} DecodeEncodedItems(item: Format, vs: seq<Value>, b: Octets, o: nat)
    requires CanonicalItems(item, vs) && EncodeItems(item, vs).Some? && Holds(b, o, EncodeItems(item, vs).value)
    ensures DecodeItems(item, |vs|, b, o) == Some((o + |EncodeItems(item, vs).value|, vs))
    decreases item, 1, |vs|
  {
    if vs != [] {
      var first, rest := vs[0], vs[1..];
      var head, tail := Encode(item, first).value, EncodeItems(item, rest).value;
      var m, e := o + |head|, o + |head| + |tail|;
      assert EncodeItems(item, vs).value == head + tail && vs == [first] + rest;
      HoldsParts(b, o, head, tail);
      DecodeEncoded(item, first, b, o);
      assert Decode(item, b, o) == Some((m, first));
      DecodeEncodedItems(item, rest, b, m);
      assert DecodeItems(item, |rest|, b, m) == Some((e, rest));
      DecodeOneMore(item, first, rest, b, o, m, e);
    }
  }

  lemma DecodeOneMore(item: Format, first: Value, rest: seq<Value>, b: Octets, o: nat, m: nat, e: nat)
    requires o <= m <= |b| && Decode(item, b, o) == Some((m, first))
             && DecodeItems(item, |rest|, b, m) == Some((e, rest))
    ensures DecodeItems(item, |rest| + 1, b, o) == Some((e, [first] + rest))
  {
  }

  /** Every decoded value is canonical, whatever the bytes. */
  lemma {:induction false} DecodedCanonical(f: Format, b: Octets, o: nat)
    requires Decode(f, b, o).Some?
    ensures Canonical(f, Decode(f, b, o).value.1)
    decreases f, 0, 0
  {
    match f
    case Packed(ps) => PrimsDecodedCanonical(ps, b[o..o + TotalSize(ps)]);
    case Struct(fs) => DecodedFieldsCanonical(fs, b, o);
    case Array(item) =>
      ValueBigEndian(b[o..o + 2]);
      SizesOfIntegers();
      DecodedItemsCanonical(item, ValueOf(b[o..o + 2]), b, o + 2);
    case Str =>
  }

  lemma {:induction false} DecodedFieldsCanonical(fs: seq<Format>, b: Octets, o: nat)
    requires DecodeFields(fs, b, o).Some?
    ensures CanonicalFields(fs, DecodeFields(fs, b, o).value.1)
    decreases fs, 0, 0
  {
    if fs != [] {
      DecodedCanonical(fs[0], b, o);
      DecodedFieldsCanonical(fs[1..], b, Decode(fs[0], b, o).value.0);
    }
  }

  lemma {:induction false} DecodedItemsCanonical(item: Format, n: nat, b: Octets, o: nat)
    requires o <= |b| && DecodeItems(item, n, b, o).Some?
    ensures CanonicalItems(item, DecodeItems(item, n, b, o).value.1)
    decreases item, 1, n
  {
    if n > 0 {
      DecodedCanonical(item, b, o);
      DecodedItemsCanonical(item, n - 1, b, Decode(item, b, o).value.0);
    }
  }

  /** The round trip of any value that encodes: between any bytes p and s it comes back,
      with the right end offset, exactly when it is canonical. */
  lemma RoundTrip(f: Format, v: Value, p: Octets, s: Octets)
    requires Encode(f, v).Some?
    ensures Canonical(f, v) <==>
            Decode(f, p + Encode(f, v).value + s, |p|) == Some((|p| + |Encode(f, v).value|, v))
  {
    var e := Encode(f, v).value;
    var b := p + e + s;
    assert b[|p|..|p| + |e|] == e;
    if Canonical(f, v) {
      DecodeEncoded(f, v, b, |p|);
    } else if Decode(f, b, |p|).Some? {
      DecodedCanonical(f, b, |p|);
    }
  }

  /** A string with a zero byte comes back cut there. */
  lemma ZeroByteLost()
    ensures Encode(Str, Text([97, 0, 98])) == Some([97, 0, 98, 0])
    ensures Decode(Str, [97, 0, 98, 0], 0) == Some((2, Text([97])))
  {
    var chars: Octets, b: Octets := [97, 0, 98], [97, 0, 98, 0];
    assert chars + [0] == b;
    assert Index0(b, 1) == 1 && Index0(b, 0) == Index0(b, 1);
    assert b[0..1] == [97];
  }

  /** The layout of a multiplier for a link: the address, its interface in four bytes and the
      multiplier in two, the most significant byte first; and that of an array of two bytes. */
  lemma KnownLayout(a: Octets)
    requires |a| == 16
    ensures EncodePrims([Raw(16), U32, U16], [Chars(a), Num(0x0102_0304), Num(0x0506)]) ==
            Some(a + [1, 2, 3, 4, 5, 6])
    ensures Encode(Array(Packed([U8])), List([Record([Num(7)]), Record([Num(9)])])) == Some([0, 2, 7, 9])
  {
    KnownBytes();
    SizesOfIntegers();
    PrimsCons(U16, [], Num(0x0506), []);
    PrimsCons(U32, [U16], Num(0x0102_0304), [Num(0x0506)]);
    PrimsCons(Raw(16), [U32, U16], Chars(a), [Num(0x0102_0304), Num(0x0506)]);
    assert [U32] + [U16] == [U32, U16] && [Raw(16)] + [U32, U16] == [Raw(16), U32, U16];
    assert [Num(0x0102_0304)] + [Num(0x0506)] == [Num(0x0102_0304), Num(0x0506)];
    assert [Chars(a)] + [Num(0x0102_0304), Num(0x0506)] == [Chars(a), Num(0x0102_0304), Num(0x0506)];
    assert a[..16] == a && EncodePrims([], []) == Some([]);
    assert a + ([1, 2, 3, 4] + ([5, 6] + [])) == a + [1, 2, 3, 4, 5, 6];
    PrimsCons(U8, [], Num(7), []);
    PrimsCons(U8, [], Num(9), []);
    ItemsCons(Packed([U8]), Record([Num(9)]), []);
    ItemsCons(Packed([U8]), Record([Num(7)]), [Record([Num(9)])]);
    assert [0, 2] + (([7] + []) + (([9] + []) + [])) == [0, 2, 7, 9];
  }

  lemma KnownBytes()
    ensures BigEndian(0x0102_0304, 4) == [1, 2, 3, 4] && BigEndian(0x0506, 2) == [5, 6]
    ensures BigEndian(2, 2) == [0, 2] && BigEndian(7, 1) == [7] && BigEndian(9, 1) == [9]
  {
  }

  lemma PrimsCons(p: Prim, ps: seq<Prim>, x: Scalar, xs: seq<Scalar>)
    requires |ps| == |xs| && EncodePrim(p, x).Some? && EncodePrims(ps, xs).Some?
    ensures EncodePrims([p] + ps, [x] + xs) == Some(EncodePrim(p, x).value + EncodePrims(ps, xs).value)
    ensures [p] + [] == [p] && [x] + [] == [x]
  {
    assert ([p] + ps)[1..] == ps && ([x] + xs)[1..] == xs;
  }

  lemma ItemsCons(item: Format, v: Value, vs: seq<Value>)
    requires Encode(item, v).Some? && EncodeItems(item, vs).Some?
    ensures EncodeItems(item, [v] + vs) == Some(Encode(item, v).value + EncodeItems(item, vs).value)
    ensures [v] + [] == [v]
  {
    assert ([v] + vs)[1..] == vs;
  }
}
