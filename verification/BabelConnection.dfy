/** The two ends of a control connection: whatever is written at one end comes out at the other
    one, in order, however the bytes are sent and received. */
module BabelConnection {
  import opened Bytes
  import opened BabelStream

  /** What is done at one end or the other: a packet is written, the socket takes up to n
      bytes, up to n of the bytes sent arrive. */
  datatype Action = SendPacket(m: Message) | Write(n: nat) | Read(n: nat)

  /** The connection at one moment. */
  datatype Moment = Moment(written: seq<Message>, sent: Octets, pending: Octets,
                           received: Octets, delivered: seq<Message>)

  function Min(a: nat, b: nat): nat { if a <= b then a else b }

  ghost predicate Moved(t: Moment, a: Action, t': Moment) {
    match a
    case SendPacket(m) =>
      t'.written == t.written + [m] && t'.sent == t.sent && t'.received == t.received && t'.delivered == t.delivered
    case Write(n) =>
      && t'.written == t.written && t'.received == t.received && t'.delivered == t.delivered
      && t'.sent == t.sent + t.pending[..Min(n, |t.pending|)]
    case Read(n) =>
      && t'.written == t.written && t'.sent == t.sent && |t.received| <= |t.sent|
      && t'.received == t.sent[..|t.received| + Min(n, |t.sent| - |t.received|)]
  }

  /** What has been delivered begins what was written: exactly the packets that have wholly
      arrived, and all of them once all bytes have. */
  ghost predicate InOrder(fs: Formats, t: Moment) {
    && AllWellFormed(fs, t.written) && t.received <= t.sent && t.sent + t.pending == Stream(fs, t.written)
    && t.delivered <= t.written
    && (forall j: nat :: j <= |t.written| ==>
          (|Stream(fs, t.written[..j])| <= |t.received| <==> j <= |t.delivered|))
    && (t.received == t.sent && t.pending == [] ==> t.delivered == t.written)
  }

  /** The moments before and after each of the first k actions. */
  ghost predicate History(fs: Formats, actions: seq<Action>, k: nat, moments: seq<Moment>) {
    && k <= |actions| && |moments| == k + 1
    && (forall i :: 0 <= i < k ==> Moved(moments[i], actions[i], moments[i + 1]))
    && (forall i :: 0 <= i <= k ==> InOrder(fs, moments[i]))
  }

  lemma HistoryNext(fs: Formats, actions: seq<Action>, k: nat, moments: seq<Moment>, t: Moment)
    requires History(fs, actions, k, moments) && k < |actions|
    requires Moved(moments[k], actions[k], t) && InOrder(fs, t)
    ensures History(fs, actions, k + 1, moments + [t])
  {
  }

  class Connection {
    const writer: Writer
    const reader: Reader
    var network: Octets               // the bytes sent that have not arrived yet

    ghost predicate Valid()
      reads this, writer, writer.writeBuffer, reader, reader.readBuffer
    {
      && writer.writeBuffer != reader.readBuffer && writer.formats == reader.responses
      && writer.Valid() && reader.Valid(writer.written)
      && !reader.readBuffer.Ready() && reader.received + network == writer.sent
    }

    ghost function Now(): Moment
      requires Valid()
      reads this, writer, writer.writeBuffer, reader, reader.readBuffer
    {
      Moment(writer.written, writer.sent, writer.writeBuffer.Pending(), reader.received, reader.delivered)
    }

    constructor (formats: Formats)
      ensures Valid() && writer.formats == formats && Now() == Moment([], [], [], [], [])
      ensures fresh(writer) && fresh(writer.writeBuffer) && fresh(reader) && fresh(reader.readBuffer)
    {
      writer := new Writer(formats);
      reader := new Reader(formats);
      network := [];
    }

    method SendPacket(m: Message)
      requires Valid() && WellFormed(writer.formats, m)
      modifies writer, writer.writeBuffer
      ensures Valid() && Moved(old(Now()), Action.SendPacket(m), Now())
    {
      AtMore(reader.responses, writer.written, |reader.delivered|, reader.received, reader.readBuffer.Pending(),
             reader.decoder, reader.readBuffer.w - reader.readBuffer.r, m);
      writer.SendPacket(m);
    }

    method Write(n: nat)
      requires Valid()
      modifies this, writer, writer.writeBuffer
      ensures Valid() && Moved(old(Now()), Action.Write(n), Now())
    {
      var bytes := writer.Write(Min(n, |writer.writeBuffer.Pending()|));
      network := network + bytes;
    }

    method Read(n: nat)
      requires Valid()
      modifies this, reader, reader.readBuffer
      ensures Valid() && Moved(old(Now()), Action.Read(n), Now())
    {
      var k := Min(n, |network|);
      var d, rest := network[..k], network[k..];
      Arrived(writer.sent, writer.writeBuffer.Pending(), reader.received, network, n);
      reader.Read(d, writer.written);
      network := rest;
    }

    /** Every moment of a connection is in order. */
    lemma NowInOrder()
      requires Valid()
      ensures InOrder(writer.formats, Now())
    {
      var ms, t := writer.written, Now();
      var r := reader.readBuffer;
      WaitingMeansDelivered(writer.formats, ms, |reader.delivered|, reader.received, r.Pending(), reader.decoder,
        r.w - r.r);
      if t.received == t.sent && t.pending == [] {
        assert t.sent + t.pending == t.sent;
        AllDelivered(writer.formats, ms, |reader.delivered|, reader.received, r.Pending(), reader.decoder, r.w - r.r);
      }
    }

    method Do(a: Action)
      requires Valid() && (a.SendPacket? ==> WellFormed(writer.formats, a.m))
      modifies this, writer, writer.writeBuffer, reader, reader.readBuffer
      ensures Valid() && Moved(old(Now()), a, Now())
    {
      match a
      case SendPacket(m) => SendPacket(m);
      case Write(n) => Write(n);
      case Read(n) => Read(n);
    }

    /** End to end: packets are written, sent and received in any interleaving, by pieces of
        any size. At each moment, before and after each action, what has been delivered is
        in order. */
    method Run(actions: seq<Action>) returns (ghost moments: seq<Moment>)
      requires Valid() && forall i :: 0 <= i < |actions| && actions[i].SendPacket? ==>
                 WellFormed(writer.formats, actions[i].m)
      modifies this, writer, writer.writeBuffer, reader, reader.readBuffer
      ensures Valid() && History(writer.formats, actions, |actions|, moments)
      ensures moments[0] == old(Now()) && moments[|actions|] == Now()
    {
      ghost var fs, t := writer.formats, Now();
      moments := [t];
      NowInOrder();
      for k := 0 to |actions|
        invariant Valid() && History(fs, actions, k, moments)
        invariant moments[0] == old(Now()) && moments[k] == Now()
      {
        Do(actions[k]);
        NowInOrder();
        t := Now();
        HistoryNext(fs, actions, k, moments, t);
        moments := moments + [t];
      }
    }
  }

  lemma Arrived(sent: Octets, pending: Octets, received: Octets, network: Octets, n: nat)
    requires received + network == sent
    ensures var k := Min(n, |network|);
            && received + network[..k] == sent[..|received| + Min(n, |sent| - |received|)]
            && received + network[..k] + network[k..] == sent
            && received + network[..k] <= sent + pending
  {
  }
}
