/** The byte buffer of the Babel control socket, with the encoders that append to it and
    the decoders that walk over it. */
module BabelBuffer {
  import opened Bytes
  import opened Codec
  import opened Wrappers

  const HEADER_SIZE: nat := 6

  /** `header.pack`: a 16-bit packet type and a 32-bit size. */
  function Header(id: nat, size: nat): (h: Octets)
    ensures |h| == HEADER_SIZE
  {
    BigEndian(id, 2) + BigEndian(size, 4)
  }

  predicate HeaderFits(id: nat, size: nat) { id < 0x1_0000 && size < 0x1_0000_0000 }

  class Buffer {
    var buf: Octets
    var r: nat        // everything before has been read or sent
    var w: int        // the end of what the reader waits for

    ghost predicate Valid()
      reads this
    {
      r < |buf| || r == 0
    }

    /** The bytes not read, or not sent, yet. */
    function Pending(): (p: Octets)
      requires Valid()
      reads this
    {
      buf[r..]
    }

    constructor ()
      ensures Valid() && buf == [] && r == 0 && w == 0
    {
      buf, r, w := [], 0, 0;
    }

    method Append(value: Octets)
      requires Valid()
      modifies this`buf
      ensures Valid() && buf == old(buf) + value && Pending() == old(Pending()) + value
    {
      buf := buf + value;
    }

    method Seek(r: nat)
      requires Valid() && this.r <= r <= |buf|
      modifies this
      ensures Valid() && Pending() == old(buf)[r..]
    {
      var n := |buf|;
      if r < n {
        this.r := r;
      } else {
        w := w - n;
        buf := [];
        this.r := 0;
      }
    }

    function Ready(): (b: bool)
      requires Valid()
      reads this
      ensures b <==> w - r <= |Pending()|
    {
      w <= |buf|
    }

    method Want(n: nat)
      requires Valid()
      modifies this`w
      ensures Valid() && w == r + n
    {
      w := r + n;
    }

    /** `unpack_from(header)` on enough bytes. */
    method UnpackHeader() returns (id: nat, size: nat)
      requires Valid() && |Pending()| >= HEADER_SIZE
      modifies this
      ensures Valid() && Pending() == old(Pending())[HEADER_SIZE..]
      ensures id == ValueOf(old(Pending())[..2]) && size == ValueOf(old(Pending())[2..6])
    {
      var o := r;
      id := ValueOf(buf[o..o + 2]);
      size := ValueOf(buf[o + 2..o + 6]);
      assert Pending()[..2] == buf[o..o + 2] && Pending()[2..6] == buf[o + 2..o + 6];
      Seek(o + HEADER_SIZE);
    }

    /** Run a decoder at the read position; nothing moves when it raises an exception. */
    method DecodeValue(f: Format) returns (v: Option<Value>)
      requires Valid()
      modifies this
      ensures Valid()
      ensures v.Some? <==> Decode(f, old(buf), old(r)).Some?
      ensures v.Some? ==> v.value == Decode(f, old(buf), old(r)).value.1
      ensures v.Some? ==> Pending() == old(buf)[Decode(f, old(buf), old(r)).value.0..]
      ensures v.None? ==> buf == old(buf) && r == old(r) && w == old(w)
    {
      var x := RunDecoder(f, buf, r);
      if x.None? {
        return None;
      }
      Seek(x.value.0);
      return Some(x.value.1);
    }

    /** One `send`: the socket takes the n first pending bytes. */
    method Send(n: nat) returns (sent: Octets)
      requires Valid() && n <= |Pending()|
      modifies this
      ensures Valid() && old(Pending()) == sent + Pending() && |sent| == n
    {
      sent := buf[r..r + n];
      assert buf[r..] == buf[r..r + n] + buf[r + n..];
      Seek(r + n);
    }

    method PackHeader(offset: nat, id: nat, size: nat)
      requires Valid() && r <= offset && offset + HEADER_SIZE <= |buf|
      modifies this`buf
      ensures Valid() && buf == old(buf)[..offset] + Header(id, size) + old(buf)[offset + HEADER_SIZE..]
    {
      buf := buf[..offset] + Header(id, size) + buf[offset + HEADER_SIZE..];
    }

    // ---- encoders: append to the buffer, stop at the first exception ---------------

    method RunEncoder(f: Format, v: Value) returns (ok: bool)
      requires Valid()
      modifies this`buf
      ensures Valid() && ok == Encode(f, v).Some? && old(buf) <= buf
      ensures ok ==> buf == old(buf) + Encode(f, v).value
      decreases f, 0, 0
    {
      match f {
        case Packed(ps) =>
          if !v.Record? { return false; }
          var e := EncodePrims(ps, v.scalars);
          if e.None? { return false; }
          Append(e.value);
          return true;
        case Struct(fs) =>
          if !v.Tuple? { return false; }
          ok := RunFields(fs, v.fields);
        case Array(item) =>
          if !v.List? || |v.items| >= 0x1_0000 { return false; }
          Append(BigEndian(|v.items|, 2));
          ok := RunItems(item, v.items);
        case Str =>
          if !v.Text? { return false; }
          Append(v.chars + [0]);
          return true;
      }
    }

    method RunFields(fs: seq<Format>, vs: seq<Value>) returns (ok: bool)
      requires Valid()
      modifies this`buf
      ensures Valid() && ok == EncodeFields(fs, vs).Some? && old(buf) <= buf
      ensures ok ==> buf == old(buf) + EncodeFields(fs, vs).value
      decreases fs, 0, 0
    {
      ghost var done: Octets := [];
      ContinuesStart(EncodeFields(fs, vs));
      assert fs[0..] == fs && vs[0..] == vs;
      var i := 0;
      while i < |fs| && i < |vs|
        invariant Valid() && i <= |fs| && i <= |vs|
        invariant buf == old(buf) + done
        invariant Continues(EncodeFields(fs, vs), done, EncodeFields(fs[i..], vs[i..]))
      {
        ok := RunEncoder(fs[i], vs[i]);
        assert fs[i..][1..] == fs[i + 1..] && vs[i..][1..] == vs[i + 1..];
        if !ok { return false; }
        ghost var head := Encode(fs[i], vs[i]).value;
        ContinuesStep(EncodeFields(fs, vs), done, head, EncodeFields(fs[i + 1..], vs[i + 1..]));
        done := done + head;
        i := i + 1;
      }
      return true;
    }

    method RunItems(item: Format, vs: seq<Value>) returns (ok: bool)
      requires Valid()
      modifies this`buf
      ensures Valid() && ok == EncodeItems(item, vs).Some? && old(buf) <= buf
      ensures ok ==> buf == old(buf) + EncodeItems(item, vs).value
      decreases item, 1, 0
    {
      ghost var done: Octets := [];
      ContinuesStart(EncodeItems(item, vs));
      assert vs[0..] == vs;
      var i := 0;
      while i < |vs|
        invariant Valid() && i <= |vs|
        invariant buf == old(buf) + done
        invariant Continues(EncodeItems(item, vs), done, EncodeItems(item, vs[i..]))
      {
        ok := RunEncoder(item, vs[i]);
        assert vs[i..][1..] == vs[i + 1..];
        if !ok { return false; }
        ghost var head := Encode(item, vs[i]).value;
        ContinuesStep(EncodeItems(item, vs), done, head, EncodeItems(item, vs[i + 1..]));
        done := done + head;
        i := i + 1;
      }
      return true;
    }
  }

  /** The whole encoding is what has been appended followed by the rest. */
  ghost predicate Continues(whole: Option<Octets>, done: Octets, rest: Option<Octets>) {
    whole == if rest.Some? then Some(done + rest.value) else None
  }

  lemma ContinuesStart(whole: Option<Octets>)
    ensures Continues(whole, [], whole)
  {
    assert whole.Some? ==> [] + whole.value == whole.value;
  }

  lemma ContinuesStep(whole: Option<Octets>, done: Octets, head: Octets, tail: Option<Octets>)
    requires Continues(whole, done, if tail.Some? then Some(head + tail.value) else None)
    ensures Continues(whole, done + head, tail)
  {
    assert tail.Some? ==> done + (head + tail.value) == done + head + tail.value;
  }

  // ---- decoders: an offset that advances and a list that grows ----------------------

  method RunDecoder(f: Format, b: Octets, o: nat) returns (r: Option<(nat, Value)>)
    ensures r == Decode(f, b, o)
    decreases f, 0, 0
  {
    match f {
      case Packed(ps) =>
        var end := o + TotalSize(ps);
        if end > |b| { return None; }
        return Some((end, Record(DecodePrims(ps, b[o..end]))));
      case Struct(fs) =>
        var x := RunDecodeFields(fs, b, o);
        return if x.None? then None else Some((x.value.0, Tuple(x.value.1)));
      case Array(item) =>
        if o + 2 > |b| { return None; }
        var x := RunDecodeItems(item, ValueOf(b[o..o + 2]), b, o + 2);
        return if x.None? then None else Some((x.value.0, List(x.value.1)));
      case Str =>
        if o > |b| || Index0(b, o) == |b| { return None; }
        return Some((Index0(b, o) + 1, Text(b[o..Index0(b, o)])));
    }
  }

  /** The whole decoding is the list decoded so far followed by that of the rest. */
  ghost predicate Extends(whole: Option<(nat, seq<Value>)>, done: seq<Value>, rest: Option<(nat, seq<Value>)>) {
    whole == if rest.Some? then Some((rest.value.0, done + rest.value.1)) else None
  }

  lemma ExtendsStart(whole: Option<(nat, seq<Value>)>)
    ensures Extends(whole, [], whole)
  {
    assert whole.Some? ==> [] + whole.value.1 == whole.value.1;
  }

  lemma ExtendsStep(whole: Option<(nat, seq<Value>)>, done: seq<Value>, head: Value, tail: Option<(nat, seq<Value>)>)
    requires Extends(whole, done, if tail.Some? then Some((tail.value.0, [head] + tail.value.1)) else None)
    ensures Extends(whole, done + [head], tail)
  {
    assert tail.Some? ==> done + ([head] + tail.value.1) == done + [head] + tail.value.1;
  }

  method RunDecodeFields(fs: seq<Format>, b: Octets, o: nat) returns (r: Option<(nat, seq<Value>)>)
    ensures r == DecodeFields(fs, b, o)
    decreases fs, 0, 0
  {
    var offset: nat, values: seq<Value> := o, [];
    ExtendsStart(DecodeFields(fs, b, o));
    assert fs[0..] == fs;
    var i := 0;
    while i < |fs|
      invariant i <= |fs|
      invariant Extends(DecodeFields(fs, b, o), values, DecodeFields(fs[i..], b, offset))
    {
      var x := RunDecoder(fs[i], b, offset);
      assert fs[i..][1..] == fs[i + 1..];
      if x.None? { return None; }
      ExtendsStep(DecodeFields(fs, b, o), values, x.value.1, DecodeFields(fs[i + 1..], b, x.value.0));
      offset, values := x.value.0, values + [x.value.1];
      i := i + 1;
    }
    assert fs[i..] == [];
    assert values + [] == values;
    return if offset <= |b| then Some((offset, values)) else None;
  }

  method RunDecodeItems(item: Format, n: nat, b: Octets, o: nat) returns (r: Option<(nat, seq<Value>)>)
    requires o <= |b|
    ensures r == DecodeItems(item, n, b, o)
    decreases item, 1, 0
  {
    var offset: nat, values: seq<Value> := o, [];
    ExtendsStart(DecodeItems(item, n, b, o));
    for i := 0 to n
      invariant offset <= |b|
      invariant Extends(DecodeItems(item, n, b, o), values, DecodeItems(item, n - i, b, offset))
    {
      var x := RunDecoder(item, b, offset);
      if x.None? { return None; }
      ExtendsStep(DecodeItems(item, n, b, o), values, x.value.1, DecodeItems(item, n - i - 1, b, x.value.0));
      offset, values := x.value.0, values + [x.value.1];
    }
    assert values + [] == values;
    return Some((offset, values));
  }
}
