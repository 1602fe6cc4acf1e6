/** Framing on the Babel control socket: packets written into a buffer and sent piece by
    piece; bytes received in any chunks and cut back into packets. */
module BabelStream {
  import opened Bytes
  import opened Codec
  import opened BabelBuffer
  import opened Wrappers

  datatype Message = Message(id: nat, value: Value)

  /** The format of the packets of each type, on which both ends agree. */
  type Formats = map<nat, Format>

  predicate WellFormed(fs: Formats, m: Message) {
    && m.id in fs && Encode(fs[m.id], m.value).Some?
    && HeaderFits(m.id, |Encode(fs[m.id], m.value).value|) && Canonical(fs[m.id], m.value)
  }

  predicate AllWellFormed(fs: Formats, ms: seq<Message>) {
    forall i :: 0 <= i < |ms| ==> WellFormed(fs, ms[i])
  }

  function Payload(fs: Formats, m: Message): Octets
    requires WellFormed(fs, m)
  {
    Encode(fs[m.id], m.value).value
  }

  function Wire(fs: Formats, m: Message): Octets
    requires WellFormed(fs, m)
  {
    Header(m.id, |Payload(fs, m)|) + Payload(fs, m)
  }

  function Stream(fs: Formats, ms: seq<Message>): Octets
    requires AllWellFormed(fs, ms)
  {
    if ms == [] then [] else Wire(fs, ms[0]) + Stream(fs, ms[1..])
  }

  lemma HeaderRead(id: nat, size: nat)
    requires HeaderFits(id, size)
    ensures ValueOf(Header(id, size)[..2]) == id && ValueOf(Header(id, size)[2..6]) == size
  {
    SizesOfIntegers();
    assert Header(id, size)[..2] == BigEndian(id, 2) && Header(id, size)[2..6] == BigEndian(size, 4);
    BigEndianValue(id, 2);
    BigEndianValue(size, 4);
  }

  lemma {:induction false} StreamSplit(fs: Formats, ms: seq<Message>, k: nat)
    requires AllWellFormed(fs, ms) && k <= |ms|
    ensures Stream(fs, ms) == Stream(fs, ms[..k]) + Stream(fs, ms[k..])
  {
    if k == 0 {
      assert ms[..0] == [] && ms[0..] == ms;
    } else {
      StreamSplit(fs, ms[1..], k - 1);
      Slices(ms, k);
      assert Stream(fs, ms[..k]) == Wire(fs, ms[0]) + Stream(fs, ms[1..][..k - 1]);
      Joined(Wire(fs, ms[0]), Stream(fs, ms[1..][..k - 1]), Stream(fs, ms[k..]));
    }
  }

  lemma Joined(a: Octets, b: Octets, c: Octets)
    ensures a + (b + c) == (a + b) + c
  {
  }

  lemma Slices(ms: seq<Message>, k: nat)
    requires 0 < k <= |ms|
    ensures ms[..k][0] == ms[0] && ms[..k][1..] == ms[1..][..k - 1] && ms[1..][k - 1..] == ms[k..]
  {
  }

  lemma StreamNext(fs: Formats, ms: seq<Message>, k: nat)
    requires AllWellFormed(fs, ms) && k < |ms|
    ensures Stream(fs, ms[..k + 1]) == Stream(fs, ms[..k]) + Wire(fs, ms[k])
    ensures Stream(fs, ms) == Stream(fs, ms[..k]) + Wire(fs, ms[k]) + Stream(fs, ms[k + 1..])
  {
    StreamSplit(fs, ms[..k + 1], k);
    assert ms[..k + 1][..k] == ms[..k] && ms[..k + 1][k..] == [ms[k]];
    assert Stream(fs, [ms[k]]) == Wire(fs, ms[k]) + Stream(fs, []);
    StreamSplit(fs, ms, k + 1);
  }

  lemma StreamAppend(fs: Formats, ms: seq<Message>, m: Message, sent: Octets, pending: Octets)
    requires AllWellFormed(fs, ms) && WellFormed(fs, m) && sent + pending == Stream(fs, ms)
    ensures AllWellFormed(fs, ms + [m])
    ensures sent + (pending + Header(m.id, |Payload(fs, m)|) + Payload(fs, m)) == Stream(fs, ms + [m])
  {
    var all := ms + [m];
    StreamNext(fs, all, |ms|);
    assert all[..|ms|] == ms && all[..|ms| + 1] == all;
    Regroup(sent, pending, Header(m.id, |Payload(fs, m)|), Payload(fs, m));
  }

  lemma Regroup(a: Octets, b: Octets, c: Octets, d: Octets)
    ensures a + (b + c + d) == (a + b) + (c + d)
  {
  }

  // ---- writing ----------------------------------------------------------------------

  /** `Packet.write`: room for the header is left first and filled in at the end. */
  method WritePacket(buffer: Buffer, id: nat, request: Format, args: Value) returns (ok: bool)
    requires buffer.Valid()
    modifies buffer
    ensures buffer.Valid() && old(buffer.Pending()) <= buffer.Pending()
    ensures ok <==> Encode(request, args).Some? && HeaderFits(id, |Encode(request, args).value|)
    ensures ok ==> buffer.Pending() == old(buffer.Pending())
                                       + Header(id, |Encode(request, args).value|) + Encode(request, args).value
  {
    var offset := |buffer.buf|;
    buffer.Append(seq(HEADER_SIZE, _ => 0));
    ok := buffer.RunEncoder(request, args);
    if !ok {
      return;
    }
    var size := |buffer.buf| - HEADER_SIZE - offset;
    if !HeaderFits(id, size) {
      return false;
    }
    ghost var e := Encode(request, args).value;
    assert buffer.buf[..offset] == old(buffer.buf) && buffer.buf[offset + HEADER_SIZE..] == e;
    buffer.PackHeader(offset, id, size);
  }

  /** The sending side of a connection. */
  class Writer {
    const formats: Formats
    const writeBuffer: Buffer
    ghost var written: seq<Message>
    ghost var sent: Octets

    /** Bytes sent plus bytes pending are the bytes written. */
    ghost predicate Valid()
      reads this, writeBuffer
    {
      writeBuffer.Valid() && AllWellFormed(formats, written) && sent + writeBuffer.Pending() == Stream(formats, written)
    }

    constructor (formats: Formats)
      ensures Valid() && fresh(writeBuffer) && this.formats == formats && written == [] && sent == []
    {
      this.formats := formats;
      writeBuffer := new Buffer();
      written, sent := [], [];
    }

    method SendPacket(m: Message)
      requires Valid() && WellFormed(formats, m)
      modifies this, writeBuffer
      ensures Valid() && written == old(written) + [m] && sent == old(sent)
    {
      StreamAppend(formats, written, m, sent, writeBuffer.Pending());
      var _ := WritePacket(writeBuffer, m.id, formats[m.id], m.value);
      written := written + [m];
    }

    /** `_write`, when the socket takes n bytes. */
    method Write(n: nat) returns (bytes: Octets)
      requires Valid() && n <= |writeBuffer.Pending()|
      modifies this, writeBuffer
      ensures Valid() && written == old(written) && sent == old(sent) + bytes && |bytes| == n
      ensures old(writeBuffer.Pending()) == bytes + writeBuffer.Pending()
    {
      bytes := writeBuffer.Send(n);
      sent := sent + bytes;
    }
  }

  // ---- reading ----------------------------------------------------------------------

  /** Where the reader stands in the stream of ms after the bytes `received`: k packets
      are delivered; `decoder` is set when the header of the next one has been read. */
  ghost predicate At(fs: Formats, ms: seq<Message>, k: nat, received: Octets, pending: Octets,
                     decoder: Option<Format>, wanted: int)
  {
    && AllWellFormed(fs, ms) && k <= |ms| && received <= Stream(fs, ms)
    && match decoder
       case None => received == Stream(fs, ms[..k]) + pending && wanted == HEADER_SIZE
       case Some(f) =>
         && k < |ms| && f == fs[ms[k].id] && wanted == |Payload(fs, ms[k])|
         && received == Stream(fs, ms[..k]) + Header(ms[k].id, |Payload(fs, ms[k])|) + pending
  }

  lemma ChunkReceived(fs: Formats, ms: seq<Message>, k: nat, received: Octets, pending: Octets,
                      decoder: Option<Format>, wanted: int, d: Octets)
    requires At(fs, ms, k, received, pending, decoder, wanted) && received + d <= Stream(fs, ms)
    ensures At(fs, ms, k, received + d, pending + d, decoder, wanted)
  {
  }

  lemma HeaderStep(fs: Formats, ms: seq<Message>, k: nat, received: Octets, pending: Octets)
    requires At(fs, ms, k, received, pending, None, HEADER_SIZE) && |pending| >= HEADER_SIZE
    ensures k < |ms| && ms[k].id in fs
    ensures ValueOf(pending[..2]) == ms[k].id && ValueOf(pending[2..6]) == |Payload(fs, ms[k])|
    ensures At(fs, ms, k, received, pending[HEADER_SIZE..], Some(fs[ms[k].id]), |Payload(fs, ms[k])|)
  {
    assert ms[..|ms|] == ms;
    HeaderReceived(fs, ms, k, received, pending);
    var h := Header(ms[k].id, |Payload(fs, ms[k])|);
    HeaderRead(ms[k].id, |Payload(fs, ms[k])|);
    assert pending[..2] == h[..2] && pending[2..6] == h[2..6];
  }

  lemma HeaderReceived(fs: Formats, ms: seq<Message>, k: nat, received: Octets, pending: Octets)
    requires At(fs, ms, k, received, pending, None, HEADER_SIZE) && |pending| >= HEADER_SIZE && k < |ms|
    ensures pending[..HEADER_SIZE] == Header(ms[k].id, |Payload(fs, ms[k])|)
    ensures received == Stream(fs, ms[..k]) + Header(ms[k].id, |Payload(fs, ms[k])|) + pending[HEADER_SIZE..]
  {
    StreamNext(fs, ms, k);
    var done, e, rest := Stream(fs, ms[..k]), Payload(fs, ms[k]), Stream(fs, ms[k + 1..]);
    FirstBytes(done, pending, Header(ms[k].id, |e|), e, rest);
  }

  lemma FirstBytes(done: Octets, pending: Octets, h: Octets, e: Octets, rest: Octets)
    requires done + pending <= done + (h + e) + rest && |h| <= |pending|
    ensures pending[..|h|] == h && done + pending == done + h + pending[|h|..]
  {
    assert done + (h + e) + rest == done + ([] + h) + (e + rest);
    assert done + [] + pending == done + pending && done + ([] + h) == done + h;
    NextBytes(done, [], pending, h, e + rest);
  }

  lemma PayloadStep(fs: Formats, ms: seq<Message>, k: nat, received: Octets, b: Octets, r: nat)
    requires r <= |b| && AllWellFormed(fs, ms) && k < |ms|
    requires At(fs, ms, k, received, b[r..], Some(fs[ms[k].id]), |Payload(fs, ms[k])|)
    requires |b[r..]| >= |Payload(fs, ms[k])|
    ensures Decode(fs[ms[k].id], b, r) == Some((r + |Payload(fs, ms[k])|, ms[k].value))
    ensures At(fs, ms, k + 1, received, b[r + |Payload(fs, ms[k])|..], None, HEADER_SIZE)
  {
    var e := Payload(fs, ms[k]);
    PayloadReceived(fs, ms, k, received, b[r..]);
    assert b[r..r + |e|] == b[r..][..|e|];
    DecodeEncoded(fs[ms[k].id], ms[k].value, b, r);
    assert b[r + |e|..] == b[r..][|e|..];
  }

  lemma PayloadReceived(fs: Formats, ms: seq<Message>, k: nat, received: Octets, pending: Octets)
    requires AllWellFormed(fs, ms) && k < |ms|
    requires At(fs, ms, k, received, pending, Some(fs[ms[k].id]), |Payload(fs, ms[k])|)
    requires |pending| >= |Payload(fs, ms[k])|
    ensures pending[..|Payload(fs, ms[k])|] == Payload(fs, ms[k])
    ensures At(fs, ms, k + 1, received, pending[|Payload(fs, ms[k])|..], None, HEADER_SIZE)
  {
    StreamNext(fs, ms, k);
    var e := Payload(fs, ms[k]);
    NextBytes(Stream(fs, ms[..k]), Header(ms[k].id, |e|), pending, e, Stream(fs, ms[k + 1..]));
  }

  /** What comes next in the stream is what the first pending bytes are. */
  lemma NextBytes(done: Octets, h: Octets, pending: Octets, e: Octets, rest: Octets)
    requires done + h + pending <= done + (h + e) + rest && |e| <= |pending|
    ensures pending[..|e|] == e && pending == e + pending[|e|..]
    ensures done + h + pending == done + (h + e) + pending[|e|..]
  {
    var n := |done + h|;
    var whole := done + (h + e) + rest;
    assert whole[n..] == e + rest;
    assert pending == (done + h + pending)[n..] == whole[n..n + |pending|];
    assert pending[..|e|] == whole[n..][..|e|];
  }

  /** A reader that waits has delivered exactly the packets it has wholly received. */
  lemma WaitingMeansDelivered(fs: Formats, ms: seq<Message>, k: nat, received: Octets, pending: Octets,
                              decoder: Option<Format>, wanted: int)
    requires At(fs, ms, k, received, pending, decoder, wanted) && |pending| < wanted
    ensures forall j: nat :: j <= |ms| ==> (|Stream(fs, ms[..j])| <= |received| <==> j <= k)
  {
    forall j: nat | j <= |ms| ensures |Stream(fs, ms[..j])| <= |received| <==> j <= k {
      if k < j {
        StreamGrows(fs, ms, k + 1, j);
        StreamNext(fs, ms, k);
      } else {
        StreamGrows(fs, ms, j, k);
      }
    }
  }

  lemma StreamGrows(fs: Formats, ms: seq<Message>, i: nat, j: nat)
    requires AllWellFormed(fs, ms) && i <= j <= |ms|
    ensures |Stream(fs, ms[..i])| <= |Stream(fs, ms[..j])|
  {
    StreamSplit(fs, ms[..j], i);
    assert ms[..j][..i] == ms[..i];
  }

  /** The receiving side of a connection. */
  class Reader {
    const responses: Formats
    const readBuffer: Buffer
    var decoder: Option<Format>       // `_decode`
    var delivered: seq<Message>       // the packets given to the handlers, in order
    ghost var received: Octets

    ghost predicate Valid(ms: seq<Message>)
      reads this, readBuffer
    {
      && readBuffer.Valid()
      && At(responses, ms, |delivered|, received, readBuffer.Pending(), decoder, readBuffer.w - readBuffer.r)
      && delivered == ms[..|delivered|]
      && (decoder.Some? ==> packetType == ms[|delivered|].id)
    }

    var packetType: nat               // the type read in the last header

    constructor (responses: Formats)
      ensures received == [] && delivered == [] && fresh(readBuffer) && this.responses == responses
      ensures forall ms :: AllWellFormed(responses, ms) ==> Valid(ms)
    {
      this.responses := responses;
      var b := new Buffer();
      b.Want(HEADER_SIZE);
      readBuffer := b;
      decoder, delivered, received, packetType := None, [], [], 0;
    }

    /** `_read`, on the chunk d of the stream of ms. */
    method Read(d: Octets, ghost ms: seq<Message>)
      requires Valid(ms) && received + d <= Stream(responses, ms)
      modifies this, readBuffer
      ensures Valid(ms) && received == old(received) + d && !readBuffer.Ready()
      ensures forall j: nat :: j <= |ms| ==>
                (|Stream(responses, ms[..j])| <= |received| <==> j <= |delivered|)
    {
      ChunkReceived(responses, ms, |delivered|, received, readBuffer.Pending(), decoder,
                    readBuffer.w - readBuffer.r, d);
      readBuffer.Append(d);
      received := received + d;
      Drain(ms);
      WaitingMeansDelivered(responses, ms, |delivered|, received, readBuffer.Pending(), decoder,
                            readBuffer.w - readBuffer.r);
    }

    /** The loop of `_read`: it goes on until more bytes are needed, and ends. */
    method Drain(ghost ms: seq<Message>)
      requires Valid(ms)
      modifies this, readBuffer
      ensures Valid(ms) && received == old(received) && !readBuffer.Ready()
    {
      while readBuffer.Ready()
        invariant Valid(ms) && received == old(received)
        decreases |readBuffer.Pending()|, decoder.Some?
      {
        Step(ms);
      }
    }

    /** One turn of the loop of `_read`. */
    method Step(ghost ms: seq<Message>)
      requires Valid(ms) && readBuffer.Ready()
      modifies this, readBuffer
      ensures Valid(ms) && received == old(received)
      ensures old(decoder).None? ==> |readBuffer.Pending()| < |old(readBuffer.Pending())|
      ensures old(decoder).Some? ==> |readBuffer.Pending()| <= |old(readBuffer.Pending())| && decoder.None?
    {
      if decoder.Some? {
        ReadPayload(ms);
      } else {
        ReadHeader(ms);
      }
    }

    method ReadPayload(ghost ms: seq<Message>)
      requires Valid(ms) && readBuffer.Ready() && decoder.Some?
      modifies this, readBuffer
      ensures Valid(ms) && received == old(received) && |delivered| == |old(delivered)| + 1
      ensures |readBuffer.Pending()| <= |old(readBuffer.Pending())| && decoder.None?
    {
      ghost var k := |delivered|;
      assert ms[..k + 1] == ms[..k] + [ms[k]];
      var value := TakePayload(ms);
      decoder := None;
      readBuffer.Want(HEADER_SIZE);
      delivered := delivered + [Message(packetType, value)];
      assert delivered == ms[..k + 1];
    }

    method TakePayload(ghost ms: seq<Message>) returns (value: Value)
      requires Valid(ms) && readBuffer.Ready() && decoder.Some?
      modifies readBuffer
      ensures readBuffer.Valid() && |readBuffer.Pending()| <= |old(readBuffer.Pending())|
      ensures |delivered| < |ms| && value == ms[|delivered|].value
      ensures At(responses, ms, |delivered| + 1, received, readBuffer.Pending(), None, HEADER_SIZE)
    {
      PayloadStep(responses, ms, |delivered|, received, readBuffer.buf, readBuffer.r);
      var packet := readBuffer.DecodeValue(decoder.value);
      value := packet.value;
    }

    method ReadHeader(ghost ms: seq<Message>)
      requires Valid(ms) && readBuffer.Ready() && decoder.None?
      modifies this, readBuffer
      ensures Valid(ms) && received == old(received) && delivered == old(delivered)
      ensures |readBuffer.Pending()| < |old(readBuffer.Pending())| && decoder.Some?
    {
      HeaderStep(responses, ms, |delivered|, received, readBuffer.Pending());
      var size: nat;
      packetType, size := readBuffer.UnpackHeader();
      decoder := Some(responses[packetType]);
      readBuffer.Want(size);
    }
  }

  /** Where the reader stands does not depend on what is written later. */
  lemma AtMore(fs: Formats, ms: seq<Message>, k: nat, received: Octets, pending: Octets,
               decoder: Option<Format>, wanted: int, m: Message)
    requires At(fs, ms, k, received, pending, decoder, wanted) && WellFormed(fs, m)
    ensures At(fs, ms + [m], k, received, pending, decoder, wanted)
  {
    var all := ms + [m];
    assert forall i :: 0 <= i < |all| ==> WellFormed(fs, all[i]);
    StreamSplit(fs, all, |ms|);
    assert all[..|ms|] == ms && all[..k] == ms[..k];
  }

  /** A reader that waits and has received all that was written has delivered it all. */
  lemma AllDelivered(fs: Formats, ms: seq<Message>, k: nat, received: Octets, pending: Octets,
                     decoder: Option<Format>, wanted: int)
    requires At(fs, ms, k, received, pending, decoder, wanted) && |pending| < wanted && received == Stream(fs, ms)
    ensures k == |ms|
  {
    WaitingMeansDelivered(fs, ms, k, received, pending, decoder, wanted);
    assert ms[..|ms|] == ms;
    assert |Stream(fs, ms[..|ms|])| <= |received|;
  }
}
