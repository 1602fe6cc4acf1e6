/** The UDP sessions between two peers. Secrets are numbers in the order in which the
    code compares them; a datagram carries the secret that signed it, which stands for
    its HMAC: only who knows the secret can make it. */
module PeerSession {
  import opened Wrappers

  type Payload = seq<int>

  datatype Datagram = Datagram(key: nat, seqno: nat, payload: Payload)

  const SEQNO_LIMIT: nat := 0x1_0000_0000

  /** One end of a session: the secret, the last sequence numbers accepted and used.
      Until a first secret is shared the end is not open. */
  datatype End = End(key: nat, i: nat, j: nat, open: bool)

  function Restarted(secret: nat): End { End(secret, 2, 2, true) }

  function Accept(e: End, secret: nat): End {
    if secret <= e.key then e else Restarted(secret)
  }

  function NextDatagram(e: End, payload: Payload): Datagram { Datagram(e.key, e.j + 1, payload) }

  predicate Fresh(e: End, d: Datagram) {
    d.seqno > 2 && e.open && d.key == e.key && e.i < d.seqno
  }

  /** What `decode` finds: a handshake, the payload of a valid message, or nothing. */
  datatype Decoded = Handshake | Valid(payload: Payload) | Ignored

  class Peer {
    var key: nat
    var i: nat
    var j: nat
    var open: bool

    ghost function View(): End
      reads this
    {
      End(key, i, j, open)
    }

    method Hello(newSecret: nat)
      modifies this
      ensures View() == Restarted(newSecret)
    {
      key := newSecret;
      i, j := 2, 2;
      open := true;
    }

    /** False is NewSessionError. */
    method NewSession(secret: nat) returns (ok: bool)
      modifies this
      ensures View() == Accept(old(View()), secret) && ok == (secret > old(key))
    {
      if secret <= key {
        return false;
      }
      key := secret;
      i, j := 2, 2;
      open := true;
      return true;
    }

    method Decode(d: Datagram) returns (r: Decoded)
      modifies this`i
      ensures View() == if Fresh(old(View()), d) then old(View()).(i := d.seqno) else old(View())
      ensures r == if d.seqno <= 2 then Handshake else if Fresh(old(View()), d) then Valid(d.payload) else Ignored
    {
      if d.seqno <= 2 {
        return Handshake;
      }
      if open && d.key == key && i < d.seqno {
        i := d.seqno;
        return Valid(d.payload);
      }
      return Ignored;
    }

    /** None is the exception of `struct.pack` when the sequence number is too large. */
    method Encode(payload: Payload) returns (r: Option<Datagram>)
      requires open
      modifies this`j
      ensures View() == old(View()).(j := old(j) + 1)
      ensures r == if old(j) + 1 < SEQNO_LIMIT then Some(NextDatagram(old(View()), payload)) else None
    {
      j := j + 1;
      if j >= SEQNO_LIMIT {
        return None;
      }
      return Some(Datagram(key, j, payload));
    }
  }

  // ---- two ends and a network that loses, repeats and reorders -------------------------

  datatype Side = Left | Right

  function Other(s: Side): Side { if s == Left then Right else Left }

  /** One end with everything it has said and accepted. */
  datatype Node = Node(end: End, hellos: set<nat>, sent: seq<Datagram>, got: seq<Datagram>)

  /** `drawn` is greater than every secret drawn so far. */
  datatype System = System(left: Node, right: Node, drawn: nat) {
    function At(x: Side): Node { if x == Left then left else right }

    function With(x: Side, n: Node): System {
      if x == Left then this.(left := n) else this.(right := n)
    }
  }

  datatype Event =
    | SayHello(side: Side)
    | HearHello(side: Side, secret: nat)
    | Say(side: Side, payload: Payload)
    | Hear(side: Side, d: Datagram)

  /** A datagram can only be heard if the other end sent it, but at any later time and
      any number of times. */
  predicate Possible(s: System, e: Event) {
    match e
    case SayHello(x) => true
    case HearHello(x, k) => k in s.At(Other(x)).hellos
    case Say(x, _) => s.At(x).end.open && s.At(x).end.j + 1 < SEQNO_LIMIT
    case Hear(x, d) => d in s.At(Other(x)).sent
  }

  function Apply(s: System, e: Event): System
    requires Possible(s, e)
  {
    var n := s.At(e.side);
    match e
    case SayHello(x) =>
      s.With(x, n.(end := Restarted(s.drawn), hellos := n.hellos + {s.drawn})).(drawn := s.drawn + 1)
    case HearHello(x, k) => s.With(x, n.(end := Accept(n.end, k)))
    case Say(x, p) =>
      s.With(x, n.(end := n.end.(j := n.end.j + 1), sent := n.sent + [NextDatagram(n.end, p)]))
    case Hear(x, d) =>
      if Fresh(n.end, d) then s.With(x, n.(end := n.end.(i := d.seqno), got := n.got + [d])) else s
  }

  /** Lexicographic order on secrets and sequence numbers. */
  predicate Before(k: nat, i: nat, k': nat, i': nat) { k < k' || (k == k' && i < i') }

  ghost predicate Increasing(ds: seq<Datagram>) {
    forall a, b :: 0 <= a < b < |ds| ==> Before(ds[a].key, ds[a].seqno, ds[b].key, ds[b].seqno)
  }

  ghost predicate UpTo(ds: seq<Datagram>, k: nat, i: nat) {
    forall a :: 0 <= a < |ds| ==> !Before(k, i, ds[a].key, ds[a].seqno)
  }

  ghost predicate NodeInvariant(n: Node, drawn: nat) {
    && n.end.key < drawn && (forall k :: k in n.hellos ==> k < drawn) && (n.end.key >= 2 ==> n.end.open)
    && Increasing(n.sent) && UpTo(n.sent, n.end.key, n.end.j)
    && Increasing(n.got) && UpTo(n.got, n.end.key, n.end.i)
  }

  ghost predicate GotFromOther(s: System, x: Side)
  {
    forall a :: 0 <= a < |s.At(x).got| ==> s.At(x).got[a] in s.At(Other(x)).sent
  }

  ghost predicate Invariant(s: System) {
    && s.drawn >= 2 && NodeInvariant(s.At(Left), s.drawn) && NodeInvariant(s.At(Right), s.drawn)
    && GotFromOther(s, Left) && GotFromOther(s, Right)
  }

  /** Each change of session and each accepted message moves (secret, sequence number)
      strictly forward; nothing else moves it. */
  lemma StepAdvances(s: System, e: Event)
    requires Invariant(s) && Possible(s, e)
    ensures var was, now := s.At(e.side).end, Apply(s, e).At(e.side).end;
            && (Before(was.key, was.i, now.key, now.i) || (was.key == now.key && was.i == now.i))
            && (e.SayHello? || (e.HearHello? && e.secret > was.key) || (e.Hear? && Fresh(was, e.d))
                <==> Before(was.key, was.i, now.key, now.i))
            && Apply(s, e).At(Other(e.side)) == s.At(Other(e.side))
  {
  }

  lemma NodeStep(s: System, e: Event)
    requires Invariant(s) && Possible(s, e)
    ensures NodeInvariant(Apply(s, e).At(e.side), Apply(s, e).drawn)
  {
    var n := s.At(e.side);
    match e
    case Say(x, p) =>
      var d := NextDatagram(n.end, p);
      assert forall a :: 0 <= a < |n.sent| ==> Before(n.sent[a].key, n.sent[a].seqno, d.key, d.seqno);
    case Hear(x, d) =>
      if Fresh(n.end, d) {
        assert forall a :: 0 <= a < |n.got| ==> Before(n.got[a].key, n.got[a].seqno, d.key, d.seqno);
      }
    case SayHello(x) =>
    case HearHello(x, k) =>
  }

  lemma StepInvariant(s: System, e: Event)
    requires Invariant(s) && Possible(s, e)
    ensures Invariant(Apply(s, e))
  {
    NodeStep(s, e);
    var t := Apply(s, e);
    assert s.At(Other(e.side)) == t.At(Other(e.side));
    assert NodeInvariant(s.At(Other(e.side)), t.drawn);
    forall x ensures GotFromOther(t, x) {
      assert s.At(x).got <= t.At(x).got && s.At(Other(x)).sent <= t.At(Other(x)).sent;
    }
  }

  const START: System := System(Node(End(0, 2, 2, false), {}, [], []), Node(End(1, 2, 2, false), {}, [], []), 2)

  ghost predicate IsRun(ss: seq<System>, es: seq<Event>) {
    && |ss| == |es| + 1
    && ss[0] == START
    && forall i {:trigger es[i]} :: 0 <= i < |es| ==> Possible(ss[i], es[i]) && ss[i + 1] == Apply(ss[i], es[i])
  }

  lemma {:induction false} RunInvariant(ss: seq<System>, es: seq<Event>, i: nat)
    requires IsRun(ss, es) && i < |ss|
    ensures Invariant(ss[i])
  {
    if i > 0 {
      RunInvariant(ss, es, i - 1);
      StepInvariant(ss[i - 1], es[i - 1]);
    }
  }

  /** The positions of the elements of xs among those of ys, in order. */
  ghost predicate Positions(xs: seq<Datagram>, ys: seq<Datagram>, at: seq<nat>) {
    && |at| == |xs|
    && (forall a :: 0 <= a < |xs| ==> at[a] < |ys| && ys[at[a]] == xs[a])
    && forall a, b :: 0 <= a < b < |xs| ==> at[a] < at[b]
  }

  lemma {:induction false} InOrder(xs: seq<Datagram>, ys: seq<Datagram>) returns (at: seq<nat>)
    requires Increasing(xs) && Increasing(ys) && forall a :: 0 <= a < |xs| ==> xs[a] in ys
    ensures Positions(xs, ys, at)
  {
    at := [];
    if xs != [] {
      var n := |xs| - 1;
      at := InOrder(xs[..n], ys);
      var p: nat :| p < |ys| && ys[p] == xs[n];
      forall a | 0 <= a < n ensures at[a] < p {
        assert ys[at[a]] == xs[a];
        assert Before(xs[a].key, xs[a].seqno, xs[n].key, xs[n].seqno);
      }
      at := at + [p];
    }
  }

  /** In every run, under loss, duplication and reordering, what one end has accepted is
      an in-order subsequence of what the other end sent: nothing twice, nothing else. */
  lemma AcceptedInOrder(ss: seq<System>, es: seq<Event>, i: nat, x: Side) returns (at: seq<nat>)
    requires IsRun(ss, es) && i < |ss|
    ensures Positions(ss[i].At(x).got, ss[i].At(Other(x)).sent, at)
  {
    RunInvariant(ss, es, i);
    at := InOrder(ss[i].At(x).got, ss[i].At(Other(x)).sent);
  }

  ghost predicate NoHello(es: seq<Event>, j: nat, m: nat) {
    forall k :: j <= k < m && k < |es| ==> !es[k].SayHello?
  }

  /** As long as nobody says hello, the end that has the greatest secret keeps it, whatever
      it hears. */
  lemma {:induction false} GreatestKept(ss: seq<System>, es: seq<Event>, j: nat, m: nat, x: Side)
    requires IsRun(ss, es) && j <= m < |ss| && NoHello(es, j, m)
    requires ss[j].At(x).end.key == ss[j].drawn - 1
    ensures ss[m].drawn == ss[j].drawn && ss[m].At(x).end.key == ss[j].drawn - 1
  {
    if j < m {
      GreatestKept(ss, es, j, m - 1, x);
      RunInvariant(ss, es, m - 1);
      KeptAtStep(ss[m - 1], es[m - 1], x);
    }
  }

  lemma KeptAtStep(s: System, e: Event, x: Side)
    requires Invariant(s) && Possible(s, e) && !e.SayHello? && s.At(x).end.key == s.drawn - 1
    ensures Apply(s, e).drawn == s.drawn && Apply(s, e).At(x).end.key == s.drawn - 1
  {
    if e.HearHello? {
      assert e.secret in s.At(Other(e.side)).hellos && e.secret < s.drawn by {
        assert NodeInvariant(s.At(Left), s.drawn) && NodeInvariant(s.At(Right), s.drawn);
      }
    }
  }

  /** The last hello of a run wins: once the other end has heard it, and until someone says
      hello again, both ends have its secret, whatever else was sent, lost, repeated, or
      heard late. */
  lemma LastHelloWins(ss: seq<System>, es: seq<Event>, j: nat, h: nat, m: nat, x: Side)
    requires IsRun(ss, es) && j < h < m < |ss| && NoHello(es, j + 1, m)
    requires es[j] == SayHello(x) && es[h] == HearHello(Other(x), ss[j].drawn)
    ensures forall y :: ss[m].At(y).end.key == ss[j].drawn && ss[m].At(y).end.open
  {
    var y := Other(x);
    assert ss[j + 1] == Apply(ss[j], es[j]) && ss[h + 1] == Apply(ss[h], es[h]);
    GreatestKept(ss, es, j + 1, h, x);
    RunInvariant(ss, es, h);
    GreatestKept(ss, es, j + 1, m, x);
    GreatestKept(ss, es, h + 1, m, y);
    RunInvariant(ss, es, m);
    RunInvariant(ss, es, j);
    forall z ensures ss[m].At(z).end.key == ss[j].drawn && ss[m].At(z).end.open {
      assert z == x || z == y;
    }
  }

  lemma {:induction false} DrawnGrows(ss: seq<System>, es: seq<Event>, i: nat, j: nat)
    requires IsRun(ss, es) && i <= j < |ss|
    ensures ss[i].drawn <= ss[j].drawn
  {
    if i < j {
      DrawnGrows(ss, es, i, j - 1);
      assert ss[j] == Apply(ss[j - 1], es[j - 1]);
    }
  }

  /** Two hellos that cross on the way, in any run: whichever end spoke first, and whatever
      else is heard and in which order, as soon as the end that spoke first has heard the
      other both have the larger secret. */
  lemma CrossingHellos(ss: seq<System>, es: seq<Event>, i: nat, j: nat, h: nat, m: nat, first: Side)
    requires IsRun(ss, es) && i < j < h < m < |ss| && NoHello(es, j + 1, m)
    requires es[i] == SayHello(first) && es[j] == SayHello(Other(first))
    requires es[h] == HearHello(first, ss[j].drawn)
    ensures ss[i].drawn < ss[j].drawn
    ensures forall y :: ss[m].At(y).end.key == ss[j].drawn && ss[m].At(y).end.open
  {
    assert ss[i + 1] == Apply(ss[i], es[i]);
    DrawnGrows(ss, es, i + 1, j);
    LastHelloWins(ss, es, j, h, m, Other(first));
  }
}
