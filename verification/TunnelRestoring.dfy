/** What babeld has once tunnels have been killed, or not: whether the cost multiplier of every
    link is what it was before any lock. */
module TunnelRestoring {
  import opened Bits
  import opened TunnelKilling
  import opened Wrappers

  /** The multipliers that babeld gives to links by itself. */
  type Base = Link -> nat

  /** The peer at the other end of a link: distinct tunnels have distinct links. */
  type Ends = Link -> Bits

  /** The multiplier of a link once babeld has obeyed the orders. */
  function Cost(base: Base, orders: seq<Order>, l: Link): nat {
    if orders == [] then base(l)
    else if orders[|orders| - 1].link == l then orders[|orders| - 1].cost
    else Cost(base, orders[..|orders| - 1], l)
  }

  // ---- the orders for one tunnel -----------------------------------------------------------

  /** Each link has its own multiplier, but for one that is locked, and then that is what the
      account says to restore. */
  ghost predicate Fair(base: Base, orders: seq<Order>) {
    var a := AccountOf(orders);
    && (forall l :: !(a.Owing? && a.link == l) ==> Cost(base, orders, l) == base(l))
    && (a.Owing? ==> a.cost == base(a.link))
  }

  ghost predicate FairAt(base: Base, orders: seq<Order>, n: nat)
    requires n <= |orders|
  {
    Fair(base, orders[..n])
  }

  /** The i-th order, if it is a lock, recorded the multiplier that the link had. */
  predicate Current(base: Base, orders: seq<Order>, i: nat)
    requires i < |orders|
  {
    orders[i].why.SoftLock? ==> orders[i].why.recorded == Cost(base, orders[..i], orders[i].link)
  }

  /** Orders that make sense put every link back, each time, exactly when each lock recorded
      what was current. */
  lemma {:induction false} FairIff(base: Base, orders: seq<Order>)
    requires AccountOf(orders) != Broken
    ensures (forall n: nat :: n <= |orders| ==> FairAt(base, orders, n)) <==>
            (forall i: nat :: i < |orders| ==> Current(base, orders, i))
  {
    if orders == [] {
      assert orders[..0] == [];
      assert FairAt(base, orders, 0);
    } else {
      var n := |orders| - 1;
      var rest := orders[..n];
      FairIff(base, rest);
      forall i: nat | i <= n ensures FairAt(base, orders, i) <==> FairAt(base, rest, i) {
        assert rest[..i] == orders[..i];
      }
      forall i: nat | i < n ensures Current(base, orders, i) <==> Current(base, rest, i) {
        assert rest[..i] == orders[..i];
      }
      assert rest[..n] == rest && orders[..|orders|] == orders;
      if Fair(base, rest) {
        FairNext(base, orders);
      }
      assert FairAt(base, rest, n) <==> Fair(base, rest);
      assert FairAt(base, orders, |orders|) <==> Fair(base, orders);
    }
  }

  lemma FairNext(base: Base, orders: seq<Order>)
    requires orders != [] && AccountOf(orders) != Broken && Fair(base, orders[..|orders| - 1])
    ensures Fair(base, orders) <==> Current(base, orders, |orders| - 1)
  {
  }

  // ---- all the tunnels of a node -----------------------------------------------------------

  predicate Holds(s: System, p: Bits, l: Link) {
    p in s.killing && s.killing[p].state != Waiting && s.killing[p].link == l
  }

  /** Each link has its own multiplier, but for those that a killer has locked, and then that
      is what the killer will restore. */
  ghost predicate PutBack(base: Base, s: System) {
    forall l ::
      && (forall p :: Holds(s, p, l) ==> s.killing[p].cost == base(l))
      && ((forall p :: !Holds(s, p, l)) ==> Cost(base, s.sent, l) == base(l))
  }

  ghost predicate Apart(ends: Ends, sent: seq<Order>) {
    forall o :: o in sent ==> ends(o.link) == o.peer
  }

  ghost predicate AllFair(base: Base, s: System) {
    forall p :: Fair(base, Of(s.sent, p))
  }

  /** Only the orders for the peer at its end matter to a link. */
  lemma {:induction false} CostOfLink(base: Base, ends: Ends, sent: seq<Order>, l: Link, p: Bits)
    requires Apart(ends, sent)
    ensures Cost(base, Of(sent, p), l) == if p == ends(l) then Cost(base, sent, l) else base(l)
  {
    if sent != [] {
      var o, rest := sent[|sent| - 1], sent[..|sent| - 1];
      CostOfLink(base, ends, rest, l, p);
      assert o in sent;
      if o.peer == p {
        assert Of(sent, p) == Of(rest, p) + [o];
        assert Of(sent, p)[..|Of(sent, p)| - 1] == Of(rest, p);
      } else {
        assert Of(sent, p) == Of(rest, p);
      }
    }
  }

  lemma {:induction false} OfMember(sent: seq<Order>, o: Order)
    ensures o in sent <==> o in Of(sent, o.peer)
    ensures forall p :: o in Of(sent, p) ==> p == o.peer
  {
    if sent != [] {
      OfMember(sent[..|sent| - 1], o);
      assert sent == sent[..|sent| - 1] + [sent[|sent| - 1]];
    }
  }

  lemma HolderAtEnd(ends: Ends, s: System, period: nat, slack: nat, p: Bits, l: Link)
    requires Sound(s, period, slack) && Apart(ends, s.sent) && Holds(s, p, l)
    ensures ends(l) == p
  {
    var o :| o in Of(s.sent, p) && o.link == l;
    OfMember(s.sent, o);
  }

  /** Every link is put back when the orders for each tunnel put back every link. */
  lemma PutBackIsFair(base: Base, ends: Ends, s: System, period: nat, slack: nat)
    requires Sound(s, period, slack) && Apart(ends, s.sent)
    ensures PutBack(base, s) <==> AllFair(base, s)
  {
    if PutBack(base, s) {
      forall p ensures Fair(base, Of(s.sent, p)) {
        FairOfPutBack(base, ends, s, period, slack, p);
      }
    }
    if AllFair(base, s) {
      forall l
        ensures forall p :: Holds(s, p, l) ==> s.killing[p].cost == base(l)
        ensures (forall p :: !Holds(s, p, l)) ==> Cost(base, s.sent, l) == base(l)
      {
        assert Fair(base, Of(s.sent, ends(l)));
        CostOfLink(base, ends, s.sent, l, ends(l));
        forall p | Holds(s, p, l) ensures s.killing[p].cost == base(l) {
          HolderAtEnd(ends, s, period, slack, p, l);
        }
        assert !Holds(s, ends(l), l) ==> Cost(base, s.sent, l) == base(l);
      }
    }
  }

  lemma FairOfPutBack(base: Base, ends: Ends, s: System, period: nat, slack: nat, p: Bits)
    requires Sound(s, period, slack) && Apart(ends, s.sent) && PutBack(base, s)
    ensures Fair(base, Of(s.sent, p))
  {
    var a := AccountOf(Of(s.sent, p));
    forall l | !(a.Owing? && a.link == l) ensures Cost(base, Of(s.sent, p), l) == base(l) {
      CostOfLink(base, ends, s.sent, l, p);
      forall q | Holds(s, q, l) ensures ends(l) == q { HolderAtEnd(ends, s, period, slack, q, l); }
      assert !Holds(s, p, l);
    }
    if a.Owing? {
      assert Holds(s, p, a.link);
    }
  }

  // ---- runs of a node and of babeld --------------------------------------------------------

  /** `asked` are the orders sent when a dump was asked for that has not come yet; `removed`
      are the killers that the latest dump removed after they had locked. */
  datatype Node = Node(system: System, dump: Dump, asked: Option<seq<Order>>, removed: map<Bits, Killer>)

  const NEW_NODE: Node := Node(System(map[], []), Dump(map[], None, {}, map[]), None, map[])

  /** seen are the orders that babeld had obeyed when it answered. */
  datatype Action =
    | Ask
    | Arrive(dump: Dump, t: nat, now: nat, seen: seq<Order>)
    | Start(peer: Bits, client: bool, now: nat)
    | Stop(peer: Bits, now: nat)

  /** babeld obeys in order, and a dump shows the multipliers of that moment. */
  ghost predicate Truthful(base: Base, ends: Ends, d: Dump, asked: seq<Order>, seen: seq<Order>, sent: seq<Order>) {
    && (forall p :: Of(asked, p) <= Of(seen, p) <= Of(sent, p))
    && (forall p :: p in d.neighbours ==> ends(d.neighbours[p].link) == p)
    && (forall p :: p in d.neighbours ==> d.neighbours[p].cost == Cost(base, seen, d.neighbours[p].link))
  }

  function RemovedAt(s: System, t: nat): map<Bits, Killer> {
    map p | p in s.killing && GoneAt(s.killing[p], t) && s.killing[p].state != Waiting :: s.killing[p]
  }

  /** A dump is asked for once the one before was treated; killings start with the latest. */
  ghost predicate Does(base: Base, ends: Ends, n: Node, a: Action, n': Node, period: nat, slack: nat) {
    match a
    case Ask => n.asked.None? && n' == n.(asked := Some(n.system.sent))
    case Arrive(d, t, now, seen) =>
      && n.asked.Some? && Truthful(base, ends, d, n.asked.value, seen, n.system.sent)
      && Next(n.system, DumpArrived(d, t, now), period, slack, n'.system)
      && n'.dump == d && n'.asked.None? && n'.removed == RemovedAt(n.system, t)
    case Start(p, client, now) =>
      Next(n.system, Begin(p, client, n.dump, now), period, slack, n'.system) && n' == n.(system := n'.system)
    case Stop(p, now) =>
      Next(n.system, Abort(p, now), period, slack, n'.system) && n' == n.(system := n'.system)
  }

  /** The latest dump still shows another multiplier than the one restored since. */
  predicate Stale(n: Node, p: Bits) {
    && p in n.dump.neighbours && p in n.removed
    && n.removed[p].link == n.dump.neighbours[p].link && n.removed[p].cost != n.dump.neighbours[p].cost
  }

  predicate LocksStale(n: Node, a: Action) { a.Start? && Stale(n, a.peer) }

  // ---- what every run keeps ----------------------------------------------------------------

  predicate Idle(s: System, p: Bits) { p !in s.killing || s.killing[p].state == Waiting }

  /** Since then, nothing was told about p but by the killer that it has, for its link. */
  ghost predicate AtMostLocked(s: System, p: Bits, before: seq<Order>) {
    var orders := Of(s.sent, p);
    || orders == Of(before, p)
    || (!Idle(s, p) && exists o :: orders == Of(before, p) + [o] && o.link == s.killing[p].link)
  }

  /** What babeld has for the link of a neighbour of the latest dump. */
  function Known(n: Node, p: Bits): nat
    requires p in n.dump.neighbours
  {
    if Stale(n, p) then n.removed[p].cost else n.dump.neighbours[p].cost
  }

  ghost predicate KnownAt(base: Base, n: Node, p: Bits) {
    p in n.dump.neighbours && Idle(n.system, p) ==>
      Cost(base, Of(n.system.sent, p), n.dump.neighbours[p].link) == Known(n, p)
  }

  ghost predicate Kept(base: Base, ends: Ends, n: Node, period: nat, slack: nat) {
    && Sound(n.system, period, slack) && Apart(ends, n.system.sent)
    && (forall p :: p in n.dump.neighbours ==> ends(n.dump.neighbours[p].link) == p)
    && (forall p :: KnownAt(base, n, p))
    && (n.asked.Some? ==> forall p :: AtMostLocked(n.system, p, n.asked.value))
  }

  /** What the dump shows of an idle tunnel is what babeld still has. */
  lemma SeenIsCurrent(base: Base, ends: Ends, n: Node, d: Dump, seen: seq<Order>, p: Bits, period: nat, slack: nat)
    requires Kept(base, ends, n, period, slack) && n.asked.Some? && p in d.neighbours
    requires Truthful(base, ends, d, n.asked.value, seen, n.system.sent)
    requires var l := d.neighbours[p].link; Idle(n.system, p) || n.system.killing[p].link != l
    ensures d.neighbours[p].cost == Cost(base, Of(n.system.sent, p), d.neighbours[p].link)
  {
    var l, orders := d.neighbours[p].link, Of(n.system.sent, p);
    SeenApart(ends, seen, n.system.sent);
    CostOfLink(base, ends, seen, l, p);
    assert AtMostLocked(n.system, p, n.asked.value);
    SameCost(base, Of(n.asked.value, p), Of(seen, p), orders, l);
  }

  /** One order for another link more or less changes nothing. */
  lemma SameCost(base: Base, asked: seq<Order>, seen: seq<Order>, orders: seq<Order>, l: Link)
    requires asked <= seen <= orders
    requires orders == asked || exists o :: orders == asked + [o] && o.link != l
    ensures Cost(base, seen, l) == Cost(base, orders, l)
  {
    if |seen| == |orders| {
      assert seen == orders;
    } else {
      var o :| orders == asked + [o] && o.link != l;
      assert seen == asked;
      OneMore(base, asked, o, l);
    }
  }

  lemma OneMore(base: Base, orders: seq<Order>, o: Order, l: Link)
    ensures Cost(base, orders + [o], l) == if o.link == l then o.cost else Cost(base, orders, l)
  {
    assert (orders + [o])[..|orders|] == orders;
  }

  lemma SeenApart(ends: Ends, seen: seq<Order>, sent: seq<Order>)
    requires Apart(ends, sent) && forall p :: Of(seen, p) <= Of(sent, p)
    ensures Apart(ends, seen)
  {
    forall o | o in seen ensures ends(o.link) == o.peer {
      OfMember(seen, o);
      OfMember(sent, o);
    }
  }

  lemma OrdersApart(ends: Ends, s: System, s': System)
    requires Apart(ends, s.sent)
    requires forall p, o :: o in Of(s'.sent, p) && o !in Of(s.sent, p) ==> ends(o.link) == p
    ensures Apart(ends, s'.sent)
  {
    forall o | o in s'.sent ensures ends(o.link) == o.peer {
      OfMember(s'.sent, o);
      OfMember(s.sent, o);
    }
  }

  /** The link of a killer that has locked is one of its peer. */
  lemma KillerAtEnd(ends: Ends, s: System, period: nat, slack: nat, p: Bits)
    requires Sound(s, period, slack) && Apart(ends, s.sent) && !Idle(s, p)
    ensures ends(s.killing[p].link) == p
  {
    HolderAtEnd(ends, s, period, slack, p, s.killing[p].link);
  }

  lemma ArriveKeeps(base: Base, ends: Ends, n: Node, a: Action, n': Node, period: nat, slack: nat)
    requires Kept(base, ends, n, period, slack) && a.Arrive? && Does(base, ends, n, a, n', period, slack)
    ensures Kept(base, ends, n', period, slack)
  {
    var s, s', d := n.system, n'.system, a.dump;
    NextSound(s, DumpArrived(d, a.t, a.now), period, slack, s');
    forall p, o | o in Of(s'.sent, p) && o !in Of(s.sent, p) ensures ends(o.link) == p {
      assert o in DumpOrders(s.killing[p], d, a.t, a.now, period);
      OrderOfDump(s.killing[p], d, a.t, a.now, period, o);
      if !Idle(s, p) {
        KillerAtEnd(ends, s, period, slack, p);
      }
    }
    OrdersApart(ends, s, s');
    forall p ensures KnownAt(base, n', p) {
      ArriveKnown(base, ends, n, a, n', period, slack, p);
    }
  }

  lemma OrderOfDump(k: Killer, d: Dump, t: nat, now: nat, period: nat, o: Order)
    requires o in DumpOrders(k, d, t, now, period)
    ensures if k.state == Waiting then k.peer in d.neighbours && o.link == d.neighbours[k.peer].link
            else o.link == k.link
  {
  }

  lemma ArriveKnown(base: Base, ends: Ends, n: Node, a: Action, n': Node, period: nat, slack: nat, p: Bits)
    requires Kept(base, ends, n, period, slack) && a.Arrive? && Does(base, ends, n, a, n', period, slack)
    ensures KnownAt(base, n', p)
  {
    var s, s', d := n.system, n'.system, a.dump;
    if p in d.neighbours && Idle(s', p) {
      var l := d.neighbours[p].link;
      if Idle(s, p) || s.killing[p].link != l {
        SeenIsCurrent(base, ends, n, d, a.seen, p, period, slack);
      }
      IdleAfterDump(base, s, d, a.t, a.now, period, s', p, l);
    }
  }

  /** A tunnel that is idle after a dump has just been put back, or was idle already. */
  lemma IdleAfterDump(base: Base, s: System, d: Dump, t: nat, now: nat, period: nat, s': System, p: Bits, l: Link)
    requires Dumped(s, d, t, now, period, s') && p in d.neighbours && Idle(s', p)
    ensures Cost(base, Of(s'.sent, p), l) ==
            if !Idle(s, p) && s.killing[p].link == l then s.killing[p].cost else Cost(base, Of(s.sent, p), l)
    ensures !Idle(s, p) ==> GoneAt(s.killing[p], t)
  {
    var orders := Of(s.sent, p);
    assert orders + [] == orders;
    if !Idle(s, p) {
      var k := s.killing[p];
      OneMore(base, orders, Order(k.peer, k.link, k.cost, Restore), l);
    }
  }

  /** What starting to kill a tunnel tells babeld: one lock, if it is that of a neighbour. */
  function LockOf(d: Dump, p: Bits): Order
    requires p in d.neighbours
  {
    Order(p, d.neighbours[p].link, 4096, SoftLock(d.neighbours[p].cost))
  }

  ghost predicate Started(s: System, d: Dump, p: Bits, s': System) {
    && p !in s.killing && p in s'.killing
    && (forall q :: q != p ==> Same(s, s', q))
    && if p in d.neighbours
       then !Idle(s', p) && s'.killing[p].link == d.neighbours[p].link
            && Of(s'.sent, p) == Of(s.sent, p) + [LockOf(d, p)]
       else Idle(s', p) && Of(s'.sent, p) == Of(s.sent, p)
  }

  lemma BeganStarted(s: System, d: Dump, p: Bits, client: bool, now: nat, period: nat)
    requires p !in s.killing
    ensures Started(s, d, p, Began(s, p, client, d, now, period))
  {
    forall q ensures Of(Began(s, p, client, d, now, period).sent, q) ==
                     Of(s.sent, q) + if q == p && p in d.neighbours then [LockOf(d, p)] else []
    {
      BeganOrders(s, p, client, d, now, period, q);
    }
    forall q ensures Of(s.sent, q) + [] == Of(s.sent, q) {}
  }

  lemma StartKeeps(base: Base, ends: Ends, n: Node, a: Action, n': Node, period: nat, slack: nat)
    requires Kept(base, ends, n, period, slack) && a.Start? && Does(base, ends, n, a, n', period, slack)
    ensures Kept(base, ends, n', period, slack)
  {
    NextSound(n.system, Begin(a.peer, a.client, n.dump, a.now), period, slack, n'.system);
    BeganStarted(n.system, n.dump, a.peer, a.client, a.now, period);
    StartedKeeps(base, ends, n, a.peer, n'.system, period, slack);
  }

  lemma StartedKeeps(base: Base, ends: Ends, n: Node, p: Bits, s': System, period: nat, slack: nat)
    requires Kept(base, ends, n, period, slack) && Started(n.system, n.dump, p, s') && Sound(s', period, slack)
    ensures Kept(base, ends, n.(system := s'), period, slack)
  {
    var s, n' := n.system, n.(system := s');
    forall q, o | o in Of(s'.sent, q) && o !in Of(s.sent, q) ensures ends(o.link) == q {
      assert q != p ==> Same(s, s', q);
    }
    OrdersApart(ends, s, s');
    forall q ensures KnownAt(base, n', q) {
      assert KnownAt(base, n, q) && (q != p ==> Same(s, s', q));
    }
    if n.asked.Some? {
      forall q ensures AtMostLocked(s', q, n.asked.value) {
        assert AtMostLocked(s, q, n.asked.value) && (q != p ==> Same(s, s', q));
      }
    }
  }

  lemma AbortIdle(s: System, p: Bits, now: nat, period: nat)
    ensures var s' := AbortedOne(s, p, now, period);
            && s'.sent == s.sent
            && forall q :: (Idle(s', q) <==> Idle(s, q)) && (!Idle(s, q) ==> s'.killing[q].link == s.killing[q].link)
  {
  }

  lemma StopKeeps(base: Base, ends: Ends, n: Node, a: Action, n': Node, period: nat, slack: nat)
    requires Kept(base, ends, n, period, slack) && a.Stop? && Does(base, ends, n, a, n', period, slack)
    ensures Kept(base, ends, n', period, slack)
  {
    NextSound(n.system, Abort(a.peer, a.now), period, slack, n'.system);
    AbortIdle(n.system, a.peer, a.now, period);
    forall q ensures KnownAt(base, n', q) {
      assert KnownAt(base, n, q);
    }
    if n.asked.Some? {
      forall q ensures AtMostLocked(n'.system, q, n.asked.value) {
        assert AtMostLocked(n.system, q, n.asked.value);
      }
    }
  }

  lemma DoesKeeps(base: Base, ends: Ends, n: Node, a: Action, n': Node, period: nat, slack: nat)
    requires Kept(base, ends, n, period, slack) && Does(base, ends, n, a, n', period, slack)
    ensures Kept(base, ends, n', period, slack)
  {
    match a
    case Ask =>
      forall q ensures KnownAt(base, n', q) { assert KnownAt(base, n, q); }
    case Arrive(_, _, _, _) => ArriveKeeps(base, ends, n, a, n', period, slack);
    case Start(_, _, _) => StartKeeps(base, ends, n, a, n', period, slack);
    case Stop(_, _) => StopKeeps(base, ends, n, a, n', period, slack);
  }

  // ---- when every link is put back ---------------------------------------------------------

  lemma FairMore(base: Base, orders: seq<Order>, o: Order)
    requires Fair(base, orders) && AccountOf(orders + [o]) != Broken
    ensures Fair(base, orders + [o]) <==> (o.why.SoftLock? ==> o.why.recorded == Cost(base, orders, o.link))
  {
    assert (orders + [o])[..|orders|] == orders;
    FairNext(base, orders + [o]);
  }

  /** A dump puts back what it unlocks, and locks by what babeld has. */
  lemma ArriveFair(base: Base, ends: Ends, n: Node, a: Action, n': Node, period: nat, slack: nat, p: Bits)
    requires Kept(base, ends, n, period, slack) && a.Arrive? && Does(base, ends, n, a, n', period, slack)
    requires Sound(n'.system, period, slack) && Fair(base, Of(n.system.sent, p))
    ensures Fair(base, Of(n'.system.sent, p))
  {
    var s, d := n.system, a.dump;
    SoundNotBroken(n'.system, period, slack, p);
    if p in s.killing {
      if p in d.neighbours && Idle(s, p) {
        SeenIsCurrent(base, ends, n, d, a.seen, p, period, slack);
      }
      DumpFair(base, Of(s.sent, p), s.killing[p], d, a.t, a.now, period);
    } else {
      assert Of(s.sent, p) + [] == Of(s.sent, p);
    }
  }

  lemma SoundNotBroken(s: System, period: nat, slack: nat, p: Bits)
    requires Sound(s, period, slack)
    ensures AccountOf(Of(s.sent, p)) != Broken
  {
    assert p in s.killing ==> Owned(AccountOf(Of(s.sent, p)), s.killing[p]);
  }

  lemma DumpFair(base: Base, orders: seq<Order>, k: Killer, d: Dump, t: nat, now: nat, period: nat)
    requires Fair(base, orders) && AccountOf(orders + DumpOrders(k, d, t, now, period)) != Broken
    requires k.state == Waiting && k.peer in d.neighbours ==>
               d.neighbours[k.peer].cost == Cost(base, orders, d.neighbours[k.peer].link)
    ensures Fair(base, orders + DumpOrders(k, d, t, now, period))
  {
    var more := DumpOrders(k, d, t, now, period);
    if more == [] {
      assert orders + more == orders;
    } else {
      assert more == [more[0]];
      FairMore(base, orders, more[0]);
    }
  }

  lemma StartFair(base: Base, n: Node, p: Bits, s': System, q: Bits)
    requires Started(n.system, n.dump, p, s') && KnownAt(base, n, p) && Fair(base, Of(n.system.sent, q))
    requires AccountOf(Of(s'.sent, q)) != Broken
    ensures Fair(base, Of(s'.sent, q)) <==> !(q == p && Stale(n, p))
  {
    if q != p {
      assert Same(n.system, s', q);
    } else if p in n.dump.neighbours {
      var m := n.dump.neighbours[p];
      LockFair(base, Of(n.system.sent, p), LockOf(n.dump, p), Of(s'.sent, p));
      assert Known(n, p) == m.cost <==> !Stale(n, p);
    }
  }

  lemma LockFair(base: Base, orders: seq<Order>, o: Order, more: seq<Order>)
    requires Fair(base, orders) && o.why.SoftLock? && more == orders + [o] && AccountOf(more) != Broken
    ensures Fair(base, more) <==> o.why.recorded == Cost(base, orders, o.link)
  {
    FairMore(base, orders, o);
  }

  /** From a moment when every link is put back: it still is exactly unless the killing of a
      tunnel starts by a dump that is stale for it. */
  lemma StepPutsBack(base: Base, ends: Ends, n: Node, a: Action, n': Node, period: nat, slack: nat)
    requires Kept(base, ends, n, period, slack) && Does(base, ends, n, a, n', period, slack)
    requires PutBack(base, n.system)
    ensures PutBack(base, n'.system) <==> !LocksStale(n, a)
  {
    DoesKeeps(base, ends, n, a, n', period, slack);
    PutBackIsFair(base, ends, n.system, period, slack);
    PutBackIsFair(base, ends, n'.system, period, slack);
    match a
    case Ask =>
    case Arrive(_, _, _, _) =>
      forall p ensures Fair(base, Of(n'.system.sent, p)) {
        assert Fair(base, Of(n.system.sent, p));
        ArriveFair(base, ends, n, a, n', period, slack, p);
      }
    case Start(_, _, _) =>
      BeganStarted(n.system, n.dump, a.peer, a.client, a.now, period);
      forall q ensures Fair(base, Of(n'.system.sent, q)) <==> !(q == a.peer && Stale(n, a.peer)) {
        assert Fair(base, Of(n.system.sent, q));
        SoundNotBroken(n'.system, period, slack, q);
        StartFair(base, n, a.peer, n'.system, q);
      }
    case Stop(p, now) =>
      assert n'.system.sent == n.system.sent;
  }

  ghost predicate DoesAt(base: Base, ends: Ends, ns: seq<Node>, acts: seq<Action>, period: nat, slack: nat, i: nat)
    requires i < |acts| && i + 1 < |ns|
  {
    Does(base, ends, ns[i], acts[i], ns[i + 1], period, slack)
  }

  ghost predicate IsRun(base: Base, ends: Ends, ns: seq<Node>, acts: seq<Action>, period: nat, slack: nat) {
    && |ns| == |acts| + 1 && ns[0] == NEW_NODE
    && forall i :: 0 <= i < |acts| ==> DoesAt(base, ends, ns, acts, period, slack, i)
  }

  lemma {:induction false} RunKeeps(base: Base, ends: Ends, ns: seq<Node>, acts: seq<Action>, period: nat,
                                    slack: nat, i: nat)
    requires IsRun(base, ends, ns, acts, period, slack) && i < |ns|
    ensures Kept(base, ends, ns[i], period, slack)
  {
    if i > 0 {
      RunKeeps(base, ends, ns, acts, period, slack, i - 1);
      assert DoesAt(base, ends, ns, acts, period, slack, i - 1);
      DoesKeeps(base, ends, ns[i - 1], acts[i - 1], ns[i], period, slack);
    }
  }

  ghost predicate AlwaysPutBack(base: Base, ns: seq<Node>, m: nat)
    requires m < |ns|
  {
    forall i :: 0 <= i <= m ==> PutBackAt(base, ns, i)
  }

  ghost predicate PutBackAt(base: Base, ns: seq<Node>, i: nat)
    requires i < |ns|
  {
    PutBack(base, ns[i].system)
  }

  predicate NeverStale(ns: seq<Node>, acts: seq<Action>, m: nat)
    requires m <= |acts| && m <= |ns|
  {
    forall i :: 0 <= i < m ==> !LocksStale(ns[i], acts[i])
  }

  /** In every run, up to any moment: every link is put back at all times exactly when the
      killing of no tunnel was started by a dump that still showed, for its link, another
      multiplier than the one restored at that dump. */
  lemma {:induction false} PutBackIff(base: Base, ends: Ends, ns: seq<Node>, acts: seq<Action>, period: nat,
                                      slack: nat, m: nat)
    requires IsRun(base, ends, ns, acts, period, slack) && m < |ns|
    ensures AlwaysPutBack(base, ns, m) <==> NeverStale(ns, acts, m)
  {
    if m > 0 {
      PutBackIff(base, ends, ns, acts, period, slack, m - 1);
      if PutBackAt(base, ns, m - 1) {
        PutBackNext(base, ends, ns, acts, period, slack, m - 1);
      }
      LaterPutBack(base, ns, acts, m);
    }
  }

  lemma PutBackNext(base: Base, ends: Ends, ns: seq<Node>, acts: seq<Action>, period: nat, slack: nat, i: nat)
    requires IsRun(base, ends, ns, acts, period, slack) && i < |acts| && PutBackAt(base, ns, i)
    ensures PutBackAt(base, ns, i + 1) <==> !LocksStale(ns[i], acts[i])
  {
    RunKeeps(base, ends, ns, acts, period, slack, i);
    assert DoesAt(base, ends, ns, acts, period, slack, i);
    StepPutsBack(base, ends, ns[i], acts[i], ns[i + 1], period, slack);
  }

  lemma LaterPutBack(base: Base, ns: seq<Node>, acts: seq<Action>, m: nat)
    requires 0 < m < |ns| && m <= |acts|
    ensures AlwaysPutBack(base, ns, m) <==> AlwaysPutBack(base, ns, m - 1) && PutBackAt(base, ns, m)
    ensures AlwaysPutBack(base, ns, m - 1) ==> PutBackAt(base, ns, m - 1)
    ensures NeverStale(ns, acts, m) <==> NeverStale(ns, acts, m - 1) && !LocksStale(ns[m - 1], acts[m - 1])
  {
  }

  /** So it is when no killing starts for a tunnel whose killer, having locked, was removed at
      the latest dump. */
  lemma OncePerDump(base: Base, ends: Ends, ns: seq<Node>, acts: seq<Action>, period: nat, slack: nat, m: nat)
    requires IsRun(base, ends, ns, acts, period, slack) && m < |ns|
    requires forall i :: 0 <= i < m && acts[i].Start? ==> acts[i].peer !in ns[i].removed
    ensures PutBackAt(base, ns, m)
  {
    PutBackIff(base, ends, ns, acts, period, slack, m);
  }

  // ---- a tunnel locked twice at one dump ---------------------------------------------------

  /** A dump with one neighbour. */
  function Single(p: Bits, l: Link, cost: nat): Dump { Dump(map[p := Neighbour(l, cost, {})], None, {}, map[]) }

  function Locker(p: Bits, l: Link, cost: nat, now: nat): Killer {
    Killer(p, true, SoftLocking, now + 120, l, cost, now, None)
  }

  function Lock(p: Bits, l: Link, cost: nat): Order { Order(p, l, 4096, SoftLock(cost)) }

  /** The killing starts, traffic goes on, and the killer is removed at the first dump after
      its deadline. */
  function Round(p: Bits, l: Link, cost: nat, now: nat, sent: seq<Order>): seq<Action> {
    [Start(p, true, now), Ask, Arrive(Single(p, l, 4096), now + 121, now + 121, sent + [Lock(p, l, cost)])]
  }

  function AfterRound(p: Bits, l: Link, cost: nat, now: nat, sent: seq<Order>): Node {
    Node(System(map[], sent + [Lock(p, l, cost)] + [Order(p, l, cost, Restore)]), Single(p, l, 4096), None,
         map[p := Locker(p, l, cost, now)])
  }

  ghost predicate Quiet(n: Node, p: Bits, l: Link, cost: nat) {
    n.system.killing == map[] && n.dump == Single(p, l, cost) && n.asked.None?
  }

  lemma RunMore(base: Base, ends: Ends, ns: seq<Node>, acts: seq<Action>, a: Action, n: Node)
    requires IsRun(base, ends, ns, acts, 60, 0) && Does(base, ends, ns[|ns| - 1], a, n, 60, 0)
    ensures IsRun(base, ends, ns + [n], acts + [a], 60, 0)
  {
    forall i | 0 <= i < |acts + [a]| ensures DoesAt(base, ends, ns + [n], acts + [a], 60, 0, i) {
      assert i < |acts| ==> DoesAt(base, ends, ns, acts, 60, 0, i);
    }
  }

  lemma RoundRuns(base: Base, ends: Ends, ns: seq<Node>, acts: seq<Action>, p: Bits, l: Link, cost: nat, now: nat)
    returns (ns': seq<Node>)
    requires IsRun(base, ends, ns, acts, 60, 0) && Quiet(ns[|ns| - 1], p, l, cost) && ends(l) == p
    ensures ns <= ns' && |ns'| == |ns| + 3
    ensures var sent := ns[|ns| - 1].system.sent;
            && IsRun(base, ends, ns', acts + Round(p, l, cost, now, sent), 60, 0)
            && ns'[|ns'| - 1] == AfterRound(p, l, cost, now, sent)
  {
    var n := ns[|ns| - 1];
    var sent, k := n.system.sent, Locker(p, l, cost, now);
    var s1 := System(map[p := k], sent + [Lock(p, l, cost)]);
    var acts1 := Round(p, l, cost, now, sent);
    var n1 := n.(system := s1);
    var n2 := n1.(asked := Some(s1.sent));
    assert s1 == Began(n.system, p, true, n.dump, now, 60);
    RunMore(base, ends, ns, acts, acts1[0], n1);
    RunMore(base, ends, ns + [n1], acts + [acts1[0]], acts1[1], n2);
    OneMore(base, sent, Lock(p, l, cost), l);
    assert RemovedAt(s1, now + 121) == map[p := k];
    RunMore(base, ends, ns + [n1] + [n2], acts + [acts1[0]] + [acts1[1]], acts1[2], AfterRound(p, l, cost, now, sent));
    ns' := ns + [n1] + [n2] + [AfterRound(p, l, cost, now, sent)];
    assert acts + [acts1[0]] + [acts1[1]] + [acts1[2]] == acts + acts1;
  }

  /** A node learns of a neighbour with the multiplier m. */
  function Meets(p: Bits, l: Link, m: nat): seq<Action> { [Ask, Arrive(Single(p, l, m), 0, 0, [])] }

  function Met(p: Bits, l: Link, m: nat): Node { Node(System(map[], []), Single(p, l, m), None, map[]) }

  lemma MeetsRuns(base: Base, ends: Ends, p: Bits, l: Link)
    requires ends(l) == p
    ensures IsRun(base, ends, [NEW_NODE, NEW_NODE.(asked := Some([])), Met(p, l, base(l))], Meets(p, l, base(l)), 60, 0)
  {
    var n1, acts := NEW_NODE.(asked := Some([])), Meets(p, l, base(l));
    RunMore(base, ends, [NEW_NODE], [], Ask, n1);
    DumpBegins(NEW_NODE.system, acts[1].dump, 0, 0, 60);
    assert RemovedAt(NEW_NODE.system, 0) == map[];
    RunMore(base, ends, [NEW_NODE] + [n1], [] + [Ask], acts[1], Met(p, l, base(l)));
    assert [NEW_NODE] + [n1] + [Met(p, l, base(l))] == [NEW_NODE, n1, Met(p, l, base(l))];
    assert [] + [Ask] + [acts[1]] == acts;
  }

  function FirstRound(p: Bits, l: Link, m: nat): seq<Order> { [] + [Lock(p, l, m)] + [Order(p, l, m, Restore)] }

  /** The killing of a tunnel fails, and starts again at the very dump that has removed its
      killer. It fails again, and in the end there is no killer, the last order restores what
      was recorded, and babeld has the multiplier of a lock. */
  lemma LockedTwice(base: Base, ends: Ends, p: Bits, l: Link) returns (ns: seq<Node>)
    requires ends(l) == p && base(l) != 4096
    ensures var m := base(l);
            IsRun(base, ends, ns, Meets(p, l, m) + Round(p, l, m, 0, []) + Round(p, l, 4096, 121, FirstRound(p, l, m)),
                  60, 0)
    ensures |ns| == 9 && Stale(ns[5], p) && PutBack(base, ns[5].system)
    ensures ns[8].system.killing == map[] && !PutBack(base, ns[8].system)
    ensures Cost(base, ns[8].system.sent, l) == 4096 && AccountOf(Of(ns[8].system.sent, p)) == Settled
  {
    var m := base(l);
    MeetsRuns(base, ends, p, l);
    var ns0 := [NEW_NODE, NEW_NODE.(asked := Some([])), Met(p, l, m)];
    var ns1 := RoundRuns(base, ends, ns0, Meets(p, l, m), p, l, m, 0);
    ns := RoundRuns(base, ends, ns1, Meets(p, l, m) + Round(p, l, m, 0, []), p, l, 4096, 121);
    assert ns[5] == ns1[5] == AfterRound(p, l, m, 0, []);
    RestoredAt(base, ends, ns[5], p, l, m);
    RunKeeps(base, ends, ns, Meets(p, l, m) + Round(p, l, m, 0, [])
             + Round(p, l, 4096, 121, FirstRound(p, l, m)), 60, 0, 8);
  }

  /** After one round every link has its own multiplier. */
  lemma RestoredAt(base: Base, ends: Ends, n: Node, p: Bits, l: Link, m: nat)
    requires n == AfterRound(p, l, m, 0, []) && base(l) == m
    ensures PutBack(base, n.system)
  {
    forall k ensures Cost(base, n.system.sent, k) == base(k) {
      OneMore(base, [] + [Lock(p, l, m)], Order(p, l, m, Restore), k);
      OneMore(base, [], Lock(p, l, m), k);
    }
  }
}
