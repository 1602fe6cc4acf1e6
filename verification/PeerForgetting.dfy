/** Peers that are forgotten, because their certificate has expired or is revoked, and made again
    later by the same process: which datagrams can then be accepted once more. */
module PeerForgetting {
  import opened PeerSession

  /** What happens between the two ends; one of them may also forget the other one. */
  datatype Action = Exchange(e: Event) | Forget(side: Side)

  /** The secret that an end has without a session: it is drawn once, when the process starts. */
  function First(x: Side): nat { if x == Left then 0 else 1 }

  function Forgotten(s: System, x: Side): System { s.With(x, s.At(x).(end := End(First(x), 2, 2, false))) }

  predicate Can(s: System, a: Action) { a.Exchange? ==> Possible(s, a.e) }

  function Do(s: System, a: Action): System
    requires Can(s, a)
  {
    match a
    case Exchange(e) => Apply(s, e)
    case Forget(x) => Forgotten(s, x)
  }

  predicate CanAll(s: System, acts: seq<Action>)
    decreases |acts|
  {
    acts == [] || (Can(s, acts[0]) && CanAll(Do(s, acts[0]), acts[1..]))
  }

  function After(s: System, acts: seq<Action>): System
    requires CanAll(s, acts)
    decreases |acts|
  {
    if acts == [] then s else After(Do(s, acts[0]), acts[1..])
  }

  /** A secret comes from one end only, and a session of one's own is not heard of again. */
  ghost predicate Apart(s: System) {
    && (forall x, k :: k in s.At(x).hellos ==> 2 <= k < s.drawn)
    && s.At(Left).hellos !! s.At(Right).hellos
  }

  ghost predicate Known(s: System, x: Side) {
    var n := s.At(x);
    && n.end.key < s.drawn
    && (n.end.open ==> n.end.key in n.hellos + s.At(Other(x)).hellos)
    && (forall d :: d in n.got ==> d.key in n.hellos + s.At(Other(x)).hellos && d.seqno > 2)
    && (forall d :: d in n.got ==> d in s.At(Other(x)).sent)
    && (forall d :: d in n.got && d.key in n.hellos ==> Spent(n.end, d))
  }

  /** As long as its session is not replaced, d will not be accepted. */
  predicate Spent(e: End, d: Datagram) { e.key == d.key ==> d.seqno <= e.i }

  ghost predicate Kept(s: System) { s.drawn >= 2 && Apart(s) && Known(s, Left) && Known(s, Right) }

  function SideOf(a: Action): Side { if a.Exchange? then a.e.side else a.side }

  lemma ActorKnown(s: System, a: Action)
    requires Kept(s) && Can(s, a)
    ensures Known(Do(s, a), SideOf(a))
  {
    var x, t := SideOf(a), Do(s, a);
    assert Known(s, x) && t.At(Other(x)) == s.At(Other(x));
  }

  lemma OtherKnown(s: System, a: Action)
    requires Kept(s) && Can(s, a)
    ensures Known(Do(s, a), Other(SideOf(a)))
  {
    var x, t := SideOf(a), Do(s, a);
    assert Known(s, Other(x)) && t.At(Other(x)) == s.At(Other(x));
    assert s.At(x).hellos <= t.At(x).hellos && s.At(x).sent <= t.At(x).sent;
  }

  lemma DoKeeps(s: System, a: Action)
    requires Kept(s) && Can(s, a)
    ensures Kept(Do(s, a))
  {
    ActorKnown(s, a);
    OtherKnown(s, a);
  }

  lemma {:induction false} RunKeeps(s: System, acts: seq<Action>)
    requires Kept(s) && CanAll(s, acts)
    ensures Kept(After(s, acts))
    decreases |acts|
  {
    if acts != [] {
      DoKeeps(s, acts[0]);
      RunKeeps(Do(s, acts[0]), acts[1..]);
    }
  }

  /** A datagram of a session that x has opened itself stays spent for x. */
  lemma {:induction false} SpentForGood(s: System, acts: seq<Action>, x: Side, d: Datagram)
    requires Kept(s) && CanAll(s, acts) && d.key in s.At(x).hellos && Spent(s.At(x).end, d)
    ensures d.key in After(s, acts).At(x).hellos && Spent(After(s, acts).At(x).end, d)
    decreases |acts|
  {
    if acts != [] {
      DoKeeps(s, acts[0]);
      SpentForGood(Do(s, acts[0]), acts[1..], x, d);
    }
  }

  /** d, which can be heard at any time, is accepted by x after these actions. */
  predicate AcceptedAfter(s: System, acts: seq<Action>, x: Side, d: Datagram) {
    CanAll(s, acts) && Fresh(After(s, acts).At(x).end, d)
  }

  /** After any run in which ends may forget each other, a datagram accepted by x can be accepted
      again later exactly when the other end had opened its session. */
  lemma AcceptedAgainIff(acts: seq<Action>, x: Side, d: Datagram)
    requires CanAll(START, acts) && d in After(START, acts).At(x).got
    ensures var s := After(START, acts);
            (exists more :: AcceptedAfter(s, more, x, d)) <==>
            d.key in s.At(Other(x)).hellos
  {
    RunKeeps(START, acts);
    var s := After(START, acts);
    assert Known(s, x);
    if d.key in s.At(Other(x)).hellos {
      ReplayAfterForget(s, x, d);
      assert AcceptedAfter(s, Replay(x, d.key), x, d);
    } else {
      forall more | CanAll(s, more) ensures !AcceptedAfter(s, more, x, d) {
        SpentForGood(s, more, x, d);
      }
    }
  }

  /** x forgets the other end and hears the old hello once more. */
  function Replay(x: Side, k: nat): seq<Action> { [Forget(x), Exchange(HearHello(x, k))] }

  lemma ReplayAfterForget(s: System, x: Side, d: Datagram)
    requires d.key in s.At(Other(x)).hellos && d.key >= 2 && d.seqno > 2
    ensures CanAll(s, Replay(x, d.key)) && Fresh(After(s, Replay(x, d.key)).At(x).end, d)
  {
    var acts := Replay(x, d.key);
    var s1 := Do(s, acts[0]);
    assert acts[1..] == [acts[1]] && acts[1..][1..] == [];
    var s2 := Do(s1, acts[1]);
    assert s1.At(x).end == End(First(x), 2, 2, false) && s2.At(x).end == Restarted(d.key);
    assert CanAll(s2, []) && After(s2, []) == s2;
    assert CanAll(s1, acts[1..]) && After(s1, acts[1..]) == s2;
    assert After(s, acts) == s2;
  }

  predicate Remembers(x: Side, acts: seq<Action>) { forall i :: 0 <= i < |acts| ==> acts[i] != Forget(x) }

  /** As long as x forgets nothing, what it has just accepted is never accepted again. */
  lemma {:induction false} NeverTwiceRemembering(s: System, acts: seq<Action>, x: Side, d: Datagram)
    requires Kept(s) && CanAll(s, acts) && Remembers(x, acts)
    requires !Before(s.At(x).end.key, s.At(x).end.i, d.key, d.seqno)
    ensures !Fresh(After(s, acts).At(x).end, d)
    decreases |acts|
  {
    if acts != [] {
      DoKeeps(s, acts[0]);
      forall i | 0 <= i < |acts[1..]| ensures acts[1..][i] != Forget(x) {
        assert acts[1..][i] == acts[i + 1];
      }
      NeverTwiceRemembering(Do(s, acts[0]), acts[1..], x, d);
    }
  }

  /** A message is accepted, its sender forgotten, its hello heard again, and the message too. */
  lemma AcceptedTwice()
    ensures var d := Datagram(2, 3, []);
            var acts := [Exchange(SayHello(Right)), Exchange(HearHello(Left, 2)), Exchange(Say(Right, [])),
                         Exchange(Hear(Left, d)), Forget(Left), Exchange(HearHello(Left, 2)), Exchange(Hear(Left, d))];
            CanAll(START, acts) && After(START, acts).At(Left).got == [d, d]
  {
    var d := Datagram(2, 3, []);
    var acts := [Exchange(SayHello(Right)), Exchange(HearHello(Left, 2)), Exchange(Say(Right, [])),
                 Exchange(Hear(Left, d)), Forget(Left), Exchange(HearHello(Left, 2)), Exchange(Hear(Left, d))];
    var s1 := Do(START, acts[0]);
    var s2 := Do(s1, acts[1]);
    var s3 := Do(s2, acts[2]);
    assert s3.At(Right).sent == [d];
    var s4 := Do(s3, acts[3]);
    var s5 := Do(s4, acts[4]);
    var s6 := Do(s5, acts[5]);
    var s7 := Do(s6, acts[6]);
    assert s7.At(Left).got == [d, d];
    LastOf(s6, acts, 6, s7);
    LastOf(s5, acts, 5, s7);
    LastOf(s4, acts, 4, s7);
    LastOf(s3, acts, 3, s7);
    LastOf(s2, acts, 2, s7);
    LastOf(s1, acts, 1, s7);
    LastOf(START, acts, 0, s7);
    assert acts[0..] == acts;
  }

  lemma LastOf(s: System, acts: seq<Action>, i: nat, last: System)
    requires i < |acts| && Can(s, acts[i])
    requires var t := Do(s, acts[i]);
             if i + 1 == |acts| then t == last else CanAll(t, acts[i + 1..]) && After(t, acts[i + 1..]) == last
    ensures CanAll(s, acts[i..]) && After(s, acts[i..]) == last
  {
    assert acts[i..][1..] == acts[i + 1..];
  }
}
