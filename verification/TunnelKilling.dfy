/** Closing a tunnel without losing packets: babeld is told to make the neighbour costly, then
    unusable, before the two ends agree to kill the tunnel. What was told is undone in the end;
    whether babeld has then what it had before is the matter of TunnelRestoring. */
module TunnelKilling {
  import opened Bits
  import opened Wrappers

  /** A neighbour as babeld designates it. */
  datatype Link = Link(address: Bits, ifindex: nat)

  /** routes are the prefixes reached through it. */
  datatype Neighbour = Neighbour(link: Link, cost: nat, routes: set<Bits>)

  /** What the node keeps of the latest dump; `unidentified` has the prefixes reached through
      neighbours whose own prefix is unknown, when there are any. */
  datatype Dump = Dump(neighbours: map<Bits, Neighbour>, unidentified: Option<set<Bits>>,
                       locked: set<Link>, interfaces: map<nat, nat>)

  /** Why a cost multiplier is sent; a soft lock is for a neighbour that had, in the dump at
      hand, the multiplier that is recorded. */
  datatype Why = SoftLock(recorded: nat) | HardLock | Restore

  /** A SetCostMultiplier packet. Its reason and the tunnel it is for are not sent. */
  datatype Order = Order(peer: Bits, link: Link, cost: nat, why: Why)

  datatype State = Waiting | SoftLocking | HardLocking | Locked | Unlocking

  /** The value of a killer, with the dates of its creation and of its abortion. link and cost
      are meaningless until it locks. */
  datatype Killer = Killer(peer: Bits, client: bool, state: State, timeout: nat, link: Link, cost: nat,
                           created: nat, aborted: Option<nat>)

  function Rank(s: State): nat {
    match s
    case Waiting => 0
    case SoftLocking => 1
    case HardLocking => 2
    case Locked => 3
    case Unlocking => 4
  }

  // ---- one killer -----------------------------------------------------------------------

  function Begun(peer: Bits, client: bool, now: nat, timeout: nat): Killer {
    Killer(peer, client, Waiting, now + 2 * timeout, Link([], 0), 0, now, None)
  }

  /** What a call makes of a killer, and what it sends to babeld. */
  function Called(k: Killer, d: Dump, now: nat, timeout: nat): (Killer, seq<Order>) {
    match k.state
    case Waiting =>
      if k.peer !in d.neighbours then (k, [])
      else
        var n := d.neighbours[k.peer];
        (k.(state := SoftLocking, link := n.link, cost := n.cost), [Order(k.peer, n.link, 4096, SoftLock(n.cost))])
    case SoftLocking =>
      if k.peer in d.neighbours || d.unidentified.Some? then (k, [])
      else (k.(state := HardLocking), [Order(k.peer, k.link, 0, HardLock)])
    case HardLocking =>
      if k.link in d.locked then (k.(state := Locked, timeout := now + 2 * timeout), [])
      else (k.(timeout := 0), [])
    case _ => (k, [])
  }

  function Aborted(k: Killer, now: nat, timeout: nat): Killer {
    if k.state == Unlocking then k
    else k.(state := Unlocking, timeout := now + 2 * timeout, aborted := Some(now))
  }

  function Unlocked(k: Killer): seq<Order> {
    if k.state == Waiting then [] else [Order(k.peer, k.link, k.cost, Restore)]
  }

  class Babel {
    var dump: Dump
    var sent: seq<Order>

    constructor (dump: Dump)
      ensures this.dump == dump && sent == []
    {
      this.dump := dump;
      sent := [];
    }
  }

  class TunnelKiller {
    const peer: Bits
    const client: bool
    var state: State
    var timeout: nat
    var link: Link
    var cost: nat
    ghost const created: nat
    ghost var aborted: Option<nat>

    ghost function View(): Killer
      reads this
    {
      Killer(peer, client, state, timeout, link, cost, created, aborted)
    }

    constructor (peer: Bits, client: bool, now: nat, period: nat, babel: Babel)
      modifies babel`sent
      ensures this.peer == peer && View() == Called(Begun(peer, client, now, period), babel.dump, now, period).0
      ensures babel.sent == old(babel.sent) + Called(Begun(peer, client, now, period), babel.dump, now, period).1
    {
      this.peer, this.client, state := peer, client, Waiting;
      timeout, link, cost := now + 2 * period, Link([], 0), 0;
      created, aborted := now, None;
      new;
      var _ := Call(now, period, babel);
    }

    /** One step, at a dump; the message to the other end of the tunnel, if any. */
    method Call(now: nat, period: nat, babel: Babel) returns (message: Option<nat>)
      modifies this`state, this`timeout, this`link, this`cost, babel`sent
      ensures View() == Called(old(View()), babel.dump, now, period).0
      ensures babel.sent == old(babel.sent) + Called(old(View()), babel.dump, now, period).1
      ensures message.Some? <==> state == Locked && old(state) == HardLocking
      ensures message.Some? ==> link in babel.dump.locked && message.value == if client then 2 else 3
    {
      message := None;
      match state {
        case Waiting =>
          if peer in babel.dump.neighbours {
            var n := babel.dump.neighbours[peer];
            state := SoftLocking;
            babel.sent := babel.sent + [Order(peer, n.link, 4096, SoftLock(n.cost))];
            link := n.link;
            cost := n.cost;
          }
        case SoftLocking =>
          if !(peer in babel.dump.neighbours || babel.dump.unidentified.Some?) {
            babel.sent := babel.sent + [Order(peer, link, 0, HardLock)];
            state := HardLocking;
          }
        case HardLocking =>
          if link in babel.dump.locked {
            state := Locked;
            timeout := now + 2 * period;
            message := Some(if client then 2 else 3);
          } else {
            timeout := 0;
          }
        case _ =>
      }
    }

    method Unlock(babel: Babel)
      modifies babel`sent
      ensures babel.sent == old(babel.sent) + Unlocked(View())
    {
      if state != Waiting {
        babel.sent := babel.sent + [Order(peer, link, cost, Restore)];
      }
    }

    method Abort(now: nat, period: nat)
      modifies this`state, this`timeout, this`aborted
      ensures View() == Aborted(old(View()), now, period)
    {
      if state != Unlocking {
        state := Unlocking;
        timeout := now + 2 * period;
        aborted := Some(now);
      }
    }
  }

  // ---- what babeld has been told ----------------------------------------------------------

  /** The account of one tunnel with babeld. Broken when the orders make no sense: a lock of
      what is locked, the restoration of what is not, or of another link or cost. */
  datatype Account = Settled | Owing(link: Link, cost: nat, hard: bool) | Broken

  function Entered(a: Account, o: Order): Account {
    match o.why
    case SoftLock(recorded) =>
      if a.Settled? && o.cost == 4096 then Owing(o.link, recorded, false) else Broken
    case HardLock =>
      if a.Owing? && !a.hard && o.link == a.link && o.cost == 0 then a.(hard := true) else Broken
    case Restore =>
      if a.Owing? && o.link == a.link && o.cost == a.cost then Settled else Broken
  }

  function Of(sent: seq<Order>, p: Bits): seq<Order> {
    if sent == [] then []
    else Of(sent[..|sent| - 1], p) + if sent[|sent| - 1].peer == p then [sent[|sent| - 1]] else []
  }

  function AccountOf(orders: seq<Order>): Account {
    if orders == [] then Settled else Entered(AccountOf(orders[..|orders| - 1]), orders[|orders| - 1])
  }

  function Locks(orders: seq<Order>): nat {
    if orders == [] then 0
    else Locks(orders[..|orders| - 1]) + if orders[|orders| - 1].why.SoftLock? then 1 else 0
  }

  function Restores(orders: seq<Order>): nat {
    if orders == [] then 0
    else Restores(orders[..|orders| - 1]) + if orders[|orders| - 1].why.Restore? then 1 else 0
  }

  /** Unless the account is broken, each lock but the last pending one was restored once. */
  lemma {:induction false} RestoredOnce(orders: seq<Order>)
    requires AccountOf(orders) != Broken
    ensures Locks(orders) == Restores(orders) + if AccountOf(orders).Owing? then 1 else 0
  {
    if orders != [] {
      RestoredOnce(orders[..|orders| - 1]);
    }
  }

  lemma {:induction false} OfAppend(sent: seq<Order>, more: seq<Order>, p: Bits)
    ensures Of(sent + more, p) == Of(sent, p) + Of(more, p)
  {
    if more == [] {
      assert sent + more == sent;
    } else {
      OfAppend(sent, more[..|more| - 1], p);
      assert (sent + more)[..|sent + more| - 1] == sent + more[..|more| - 1];
    }
  }

  // ---- the killers of a node ----------------------------------------------------------------

  datatype System = System(killing: map<Bits, Killer>, sent: seq<Order>)

  /** Whether a dump at t removes a killer. */
  predicate GoneAt(k: Killer, t: nat) { k.timeout < t }

  function DumpOrders(k: Killer, d: Dump, t: nat, now: nat, period: nat): seq<Order> {
    if GoneAt(k, t) then Unlocked(k) else Called(k, d, now, period).1
  }

  ghost predicate Dumped(s: System, d: Dump, t: nat, now: nat, period: nat, s': System) {
    && (forall p :: p in s'.killing <==> p in s.killing && !GoneAt(s.killing[p], t))
    && (forall p :: p in s'.killing ==> s'.killing[p] == Called(s.killing[p], d, now, period).0)
    && (forall p :: Of(s'.sent, p) ==
          Of(s.sent, p) + if p in s.killing then DumpOrders(s.killing[p], d, t, now, period) else [])
  }

  function Began(s: System, p: Bits, client: bool, d: Dump, now: nat, period: nat): System {
    var (k, orders) := Called(Begun(p, client, now, period), d, now, period);
    System(s.killing[p := k], s.sent + orders)
  }

  /** An aborted killer that has locked nothing is forgotten at once. */
  function AbortedOne(s: System, p: Bits, now: nat, period: nat): System {
    if p !in s.killing then s
    else if s.killing[p].state == Waiting then s.(killing := s.killing - {p})
    else s.(killing := s.killing[p := Aborted(s.killing[p], now, period)])
  }

  datatype Event =
    | DumpArrived(dump: Dump, t: nat, now: nat)
    | Begin(peer: Bits, client: bool, dump: Dump, now: nat)
    | Abort(peer: Bits, now: nat)

  /** slack bounds the time that handling a dump takes before a killer reads the clock. */
  ghost predicate Next(s: System, e: Event, period: nat, slack: nat, s': System) {
    match e
    case DumpArrived(d, t, now) => t <= now <= t + slack && Dumped(s, d, t, now, period, s')
    case Begin(p, client, d, now) => p !in s.killing && s' == Began(s, p, client, d, now, period)
    case Abort(p, now) => s' == AbortedOne(s, p, now, period)
  }

  /** The account of each tunnel is what its killer will restore, and is settled without. */
  ghost predicate Owned(a: Account, k: Killer) {
    if k.state == Waiting then a == Settled
    else a.Owing? && a.link == k.link && a.cost == k.cost && (k.state == SoftLocking ==> !a.hard)
  }

  ghost predicate Timely(k: Killer, period: nat, slack: nat) {
    match k.state
    case Unlocking => k.aborted.Some? && k.timeout == k.aborted.value + 2 * period
    case Locked => k.aborted.None? && k.timeout <= k.created + 4 * period + slack
    case HardLocking => k.aborted.None? && k.timeout <= k.created + 2 * period
    case _ => k.aborted.None? && k.timeout == k.created + 2 * period
  }

  ghost predicate Sound(s: System, period: nat, slack: nat) {
    && (forall p :: p in s.killing ==> s.killing[p].peer == p && Timely(s.killing[p], period, slack))
    && (forall p :: p in s.killing ==> Owned(AccountOf(Of(s.sent, p)), s.killing[p]))
    && (forall p :: p !in s.killing ==> AccountOf(Of(s.sent, p)) == Settled)
  }

  /** The state of a killer only advances, and what it has locked it keeps in mind. */
  ghost predicate Advanced(k: Killer, k': Killer) {
    && k'.peer == k.peer && k'.client == k.client && k'.created == k.created
    && Rank(k.state) <= Rank(k'.state)
    && (k.state != Waiting ==> k'.link == k.link && k'.cost == k.cost)
    && (k.aborted.Some? ==> k'.aborted == k.aborted)
  }

  lemma CallSound(k: Killer, orders: seq<Order>, d: Dump, t: nat, now: nat, period: nat, slack: nat)
    requires Timely(k, period, slack) && Owned(AccountOf(orders), k)
    requires t <= k.timeout && now <= t + slack
    ensures var (k', more) := Called(k, d, now, period);
            Timely(k', period, slack) && Owned(AccountOf(orders + more), k') && Advanced(k, k')
  {
    var (k', more) := Called(k, d, now, period);
    if more == [] {
      assert orders + more == orders;
    } else {
      assert (orders + more)[..|orders|] == orders;
    }
  }

  lemma UnlockSettles(k: Killer, orders: seq<Order>)
    requires Owned(AccountOf(orders), k)
    ensures AccountOf(orders + Unlocked(k)) == Settled
  {
    if k.state == Waiting {
      assert orders + Unlocked(k) == orders;
    } else {
      assert (orders + Unlocked(k))[..|orders|] == orders;
    }
  }

  lemma DumpOrdersOf(k: Killer, d: Dump, t: nat, now: nat, period: nat, q: Bits)
    ensures Of(DumpOrders(k, d, t, now, period), q) == if q == k.peer then DumpOrders(k, d, t, now, period) else []
  {
    var orders := DumpOrders(k, d, t, now, period);
    assert Of([], q) == [];
    if orders != [] {
      assert orders[..0] == [];
    }
  }

  /** Whether, at a dump, the other end of the tunnel is told: to kill it by the node that
      has opened it, that it may be killed by the other one. Nothing goes through it then. */
  predicate Asks(k: Killer, d: Dump, t: nat) {
    k.state == HardLocking && !GoneAt(k, t) && k.link in d.locked
  }

  function Code(k: Killer): nat { if k.client then 2 else 3 }

  ghost predicate Told(s: System, d: Dump, t: nat, todo: set<Bits>, messages: map<Bits, nat>) {
    forall p :: (p in messages <==> p in s.killing && p !in todo && Asks(s.killing[p], d, t))
             && (p in messages ==> messages[p] == Code(s.killing[p]))
  }

  function Tell(messages: map<Bits, nat>, p: Bits, message: Option<nat>): map<Bits, nat> {
    if message.Some? then messages[p := message.value] else messages
  }

  lemma TellNext(s: System, d: Dump, t: nat, todo: set<Bits>, messages: map<Bits, nat>, p: Bits, message: Option<nat>)
    requires Told(s, d, t, todo, messages) && p in todo && p in s.killing
    requires message == if Asks(s.killing[p], d, t) then Some(Code(s.killing[p])) else None
    ensures Told(s, d, t, todo - {p}, Tell(messages, p, message))
  {
  }

  // ---- a dump, killer by killer ---------------------------------------------------------

  /** Where the treatment of a dump is when the killers in todo are still to be treated. */
  ghost predicate Dumping(s: System, d: Dump, t: nat, now: nat, period: nat, todo: set<Bits>, s': System) {
    && (forall p :: p in todo ==> p in s.killing && p in s'.killing && s'.killing[p] == s.killing[p])
    && (forall p :: p in s'.killing <==> p in s.killing && (p in todo || !GoneAt(s.killing[p], t)))
    && (forall p :: p in s'.killing && p !in todo ==> s'.killing[p] == Called(s.killing[p], d, now, period).0)
    && (forall p :: Of(s'.sent, p) ==
          Of(s.sent, p) + if p in s.killing && p !in todo then DumpOrders(s.killing[p], d, t, now, period) else [])
  }

  function DumpedOne(s: System, p: Bits, d: Dump, t: nat, now: nat, period: nat): System
    requires p in s.killing
  {
    System(if GoneAt(s.killing[p], t) then s.killing - {p}
           else s.killing[p := Called(s.killing[p], d, now, period).0],
           s.sent + DumpOrders(s.killing[p], d, t, now, period))
  }

  lemma DumpNext(s: System, d: Dump, t: nat, now: nat, period: nat, todo: set<Bits>, s': System, p: Bits)
    requires Dumping(s, d, t, now, period, todo, s') && p in todo && s.killing[p].peer == p
    ensures Dumping(s, d, t, now, period, todo - {p}, DumpedOne(s', p, d, t, now, period))
  {
    var orders := DumpOrders(s.killing[p], d, t, now, period);
    var s'' := DumpedOne(s', p, d, t, now, period);
    forall q ensures Of(s''.sent, q) == Of(s.sent, q)
               + if q in s.killing && q !in todo - {p} then DumpOrders(s.killing[q], d, t, now, period) else []
    {
      OfAppend(s'.sent, orders, q);
      DumpOrdersOf(s.killing[p], d, t, now, period, q);
      if q == p {
        assert Of(s'.sent, q) == Of(s.sent, q) + [];
        assert Of(s.sent, q) + [] == Of(s.sent, q);
      } else {
        assert Of(s'.sent, q) + [] == Of(s'.sent, q);
      }
    }
  }

  lemma DumpBegins(s: System, d: Dump, t: nat, now: nat, period: nat)
    ensures Dumping(s, d, t, now, period, s.killing.Keys, s)
  {
    forall p ensures Of(s.sent, p) == Of(s.sent, p) + [] {}
  }

  /** Every killer of a tunnel opened by this node has its tunnel, until it is aborted. */
  ghost predicate Tunnelled(s: System, conn: set<Bits>) {
    forall p :: p in s.killing && s.killing[p].client && s.killing[p].state != Unlocking ==> p in conn
  }

  lemma BeganOrders(s: System, p: Bits, client: bool, d: Dump, now: nat, period: nat, q: Bits)
    ensures Of(Began(s, p, client, d, now, period).sent, q) ==
            Of(s.sent, q) + if q == p then Called(Begun(p, client, now, period), d, now, period).1 else []
  {
    var orders := Called(Begun(p, client, now, period), d, now, period).1;
    OfAppend(s.sent, orders, q);
    assert Of([], q) == [];
    if orders != [] {
      assert orders[..0] == [];
    }
  }

  lemma BeginSound(s: System, p: Bits, client: bool, d: Dump, now: nat, period: nat, slack: nat)
    requires Sound(s, period, slack) && p !in s.killing
    ensures Sound(Began(s, p, client, d, now, period), period, slack)
  {
    var s' := Began(s, p, client, d, now, period);
    CallSound(Begun(p, client, now, period), Of(s.sent, p), d, now, now, period, slack);
    BeganOrders(s, p, client, d, now, period, p);
    forall q | q != p ensures Same(s, s', q) {
      BeganOrders(s, p, client, d, now, period, q);
      assert Of(s.sent, q) + [] == Of(s.sent, q);
    }
    SoundBut(s, s', p, period, slack);
  }

  predicate Same(s: System, s': System, q: Bits) {
    && (q in s.killing <==> q in s'.killing) && (q in s.killing ==> s'.killing[q] == s.killing[q])
    && Of(s'.sent, q) == Of(s.sent, q)
  }

  /** Only the tunnel of p changes. */
  lemma SoundBut(s: System, s': System, p: Bits, period: nat, slack: nat)
    requires Sound(s, period, slack) && forall q :: q != p ==> Same(s, s', q)
    requires p in s'.killing && s'.killing[p].peer == p && Timely(s'.killing[p], period, slack)
    requires Owned(AccountOf(Of(s'.sent, p)), s'.killing[p])
    ensures Sound(s', period, slack)
  {
    forall q | q != p && q in s'.killing ensures s'.killing[q].peer == q && Timely(s'.killing[q], period, slack)
        && Owned(AccountOf(Of(s'.sent, q)), s'.killing[q])
    {
      assert Same(s, s', q);
    }
    forall q | q !in s'.killing ensures AccountOf(Of(s'.sent, q)) == Settled {
      assert Same(s, s', q);
    }
  }

  lemma DumpSound(s: System, d: Dump, t: nat, now: nat, period: nat, slack: nat, s': System)
    requires Sound(s, period, slack) && t <= now <= t + slack && Dumped(s, d, t, now, period, s')
    ensures Sound(s', period, slack)
    ensures forall p :: p in s'.killing ==> p in s.killing && Advanced(s.killing[p], s'.killing[p])
  {
    forall p | p in s.killing
      ensures if p in s'.killing
              then s'.killing[p].peer == p && Timely(s'.killing[p], period, slack)
                   && Owned(AccountOf(Of(s'.sent, p)), s'.killing[p]) && Advanced(s.killing[p], s'.killing[p])
              else AccountOf(Of(s'.sent, p)) == Settled
    {
      if p in s'.killing {
        CallSound(s.killing[p], Of(s.sent, p), d, t, now, period, slack);
      } else {
        UnlockSettles(s.killing[p], Of(s.sent, p));
      }
    }
    forall p | p !in s.killing ensures AccountOf(Of(s'.sent, p)) == Settled {
      assert Of(s'.sent, p) == Of(s.sent, p);
    }
  }

  lemma AbortSound(s: System, p: Bits, now: nat, period: nat, slack: nat)
    requires Sound(s, period, slack)
    ensures var s' := AbortedOne(s, p, now, period);
            && Sound(s', period, slack)
            && forall q :: q in s'.killing ==> q in s.killing && Advanced(s.killing[q], s'.killing[q])
  {
    var s' := AbortedOne(s, p, now, period);
    if p in s.killing {
      var k, a := s.killing[p], AccountOf(Of(s.sent, p));
      AbortOwned(k, a, now, period, slack);
      assert s'.sent == s.sent;
      assert forall q :: q != p ==>
               (q in s'.killing <==> q in s.killing) && (q in s.killing ==> s'.killing[q] == s.killing[q]);
    }
  }

  lemma AbortOwned(k: Killer, a: Account, now: nat, period: nat, slack: nat)
    requires Owned(a, k) && Timely(k, period, slack)
    ensures var k' := Aborted(k, now, period);
            k.state != Waiting ==> k'.peer == k.peer && Owned(a, k') && Timely(k', period, slack) && Advanced(k, k')
  {
  }

  /** Every step keeps the accounts and the deadlines, and only advances the killers. */
  lemma NextSound(s: System, e: Event, period: nat, slack: nat, s': System)
    requires Sound(s, period, slack) && Next(s, e, period, slack, s')
    ensures Sound(s', period, slack)
    ensures forall p :: p in s.killing && p in s'.killing ==> Advanced(s.killing[p], s'.killing[p])
  {
    assert e.Begin? ==> forall q :: q in s.killing ==> s'.killing[q] == s.killing[q];
    match e
    case DumpArrived(d, t, now) => DumpSound(s, d, t, now, period, slack, s');
    case Begin(p, client, d, now) => BeginSound(s, p, client, d, now, period, slack);
    case Abort(p, now) => AbortSound(s, p, now, period, slack);
  }

  ghost predicate Run(ss: seq<System>, es: seq<Event>, period: nat, slack: nat) {
    && |ss| == |es| + 1 && ss[0] == System(map[], [])
    && forall i {:trigger es[i]} :: 0 <= i < |es| ==> Next(ss[i], es[i], period, slack, ss[i + 1])
  }

  lemma {:induction false} RunSound(ss: seq<System>, es: seq<Event>, period: nat, slack: nat, i: nat)
    requires Run(ss, es, period, slack) && i < |ss|
    ensures Sound(ss[i], period, slack)
  {
    if i > 0 {
      RunSound(ss, es, period, slack, i - 1);
      NextSound(ss[i - 1], es[i - 1], period, slack, ss[i]);
    }
  }

  /** In every run, what has been locked is owned by a killer until restored, exactly once,
      to the cost multiplier that the killer recorded when it locked. */
  lemma LocksAreRestored(ss: seq<System>, es: seq<Event>, period: nat, slack: nat, i: nat, p: Bits)
    requires Run(ss, es, period, slack) && i < |ss|
    ensures AccountOf(Of(ss[i].sent, p)) != Broken
    ensures AccountOf(Of(ss[i].sent, p)).Owing? <==>
              p in ss[i].killing && ss[i].killing[p].state != Waiting
    ensures AccountOf(Of(ss[i].sent, p)).Owing? ==>
              var k := ss[i].killing[p];
              AccountOf(Of(ss[i].sent, p) + Unlocked(k)) == Settled
    ensures Locks(Of(ss[i].sent, p)) == Restores(Of(ss[i].sent, p))
              + if p in ss[i].killing && ss[i].killing[p].state != Waiting then 1 else 0
  {
    RunSound(ss, es, period, slack, i);
    RestoredOnce(Of(ss[i].sent, p));
    if p in ss[i].killing {
      UnlockSettles(ss[i].killing[p], Of(ss[i].sent, p));
    }
  }

  // ---- what a dump makes a killer do ----------------------------------------------------

  function HardLocks(orders: seq<Order>): nat {
    if orders == [] then 0
    else HardLocks(orders[..|orders| - 1]) + if orders[|orders| - 1].why.HardLock? then 1 else 0
  }

  /** A killer that is still in time when a dump arrives. */
  predicate InTime(s: System, p: Bits, t: nat, state: State) {
    p in s.killing && s.killing[p].state == state && t <= s.killing[p].timeout
  }

  /** The dump lists p neither as a neighbour nor as one that cannot be told: nothing is routed
      through its link any more. */
  predicate Unrouted(p: Bits, d: Dump) { p !in d.neighbours && d.unidentified.None? }

  /** When a link is made unusable: exactly at a dump that shows that nothing goes through it,
      by a killer that had made it costly. */
  predicate HardLocksAt(s: System, e: Event, p: Bits) {
    e.DumpArrived? && InTime(s, p, e.t, SoftLocking) && Unrouted(p, e.dump)
  }

  /** When a link is made costly: exactly when its killer knows it for the first time. */
  predicate SoftLocksAt(s: System, e: Event, p: Bits) {
    match e
    case DumpArrived(d, t, _) => InTime(s, p, t, Waiting) && p in d.neighbours
    case Begin(q, _, d, _) => q == p && p in d.neighbours
    case Abort(_, _) => false
  }

  /** When a link is restored: exactly when the time of the killer that has locked it is over. */
  predicate RestoresAt(s: System, e: Event, p: Bits) {
    e.DumpArrived? && p in s.killing && s.killing[p].state != Waiting && s.killing[p].timeout < e.t
  }

  lemma OrdersOne(orders: seq<Order>, more: seq<Order>)
    requires |more| <= 1
    ensures Locks(orders + more) == Locks(orders) + if more != [] && more[0].why.SoftLock? then 1 else 0
    ensures HardLocks(orders + more) == HardLocks(orders) + if more != [] && more[0].why.HardLock? then 1 else 0
    ensures Restores(orders + more) == Restores(orders) + if more != [] && more[0].why.Restore? then 1 else 0
  {
    if more == [] {
      assert orders + more == orders;
    } else {
      assert (orders + more)[..|orders|] == orders;
    }
  }

  /** The orders for p after a step, and how many locks and restorations there are in them. */
  ghost predicate ToldAt(orders: seq<Order>, orders': seq<Order>, soft: bool, hard: bool, restored: bool) {
    && Locks(orders') == Locks(orders) + (if soft then 1 else 0)
    && HardLocks(orders') == HardLocks(orders) + (if hard then 1 else 0)
    && Restores(orders') == Restores(orders) + (if restored then 1 else 0)
  }

  lemma ToldByDump(k: Killer, orders: seq<Order>, d: Dump, t: nat, now: nat, period: nat)
    ensures ToldAt(orders, orders + DumpOrders(k, d, t, now, period),
                   t <= k.timeout && k.state == Waiting && k.peer in d.neighbours,
                   t <= k.timeout && k.state == SoftLocking && Unrouted(k.peer, d),
                   k.timeout < t && k.state != Waiting)
  {
    OrdersOne(orders, DumpOrders(k, d, t, now, period));
  }

  /** Each step tells babeld, about each tunnel, exactly what its circumstances ask for. */
  lemma ToldExactly(s: System, e: Event, period: nat, slack: nat, s': System, p: Bits)
    requires Sound(s, period, slack) && Next(s, e, period, slack, s')
    ensures ToldAt(Of(s.sent, p), Of(s'.sent, p), SoftLocksAt(s, e, p), HardLocksAt(s, e, p), RestoresAt(s, e, p))
  {
    var orders := Of(s.sent, p);
    match e
    case DumpArrived(d, t, now) =>
      if p in s.killing {
        ToldByDump(s.killing[p], orders, d, t, now, period);
      } else {
        assert orders + [] == orders;
      }
    case Begin(q, client, d, now) =>
      BeganOrders(s, q, client, d, now, period, p);
      BeginTells(orders, q, client, d, now, period, p);
    case Abort(_, _) =>
  }

  lemma BeginTells(orders: seq<Order>, q: Bits, client: bool, d: Dump, now: nat, period: nat, p: Bits)
    ensures var more := if q == p then Called(Begun(p, client, now, period), d, now, period).1 else [];
            ToldAt(orders, orders + more, q == p && p in d.neighbours, false, false)
  {
    OrdersOne(orders, if q == p then Called(Begun(p, client, now, period), d, now, period).1 else []);
  }

  /** What becomes of a killer at a dump. Once its link is locked and reported so, it waits for
      the other end; when it is not reported, it is given up. */
  lemma SteppedAt(s: System, e: Event, period: nat, slack: nat, s': System, p: Bits)
    requires Sound(s, period, slack) && Next(s, e, period, slack, s') && e.DumpArrived? && p in s.killing
    ensures p in s'.killing <==> e.t <= s.killing[p].timeout
    ensures InTime(s, p, e.t, Waiting) ==>
              s'.killing[p].state == if p in e.dump.neighbours then SoftLocking else Waiting
    ensures InTime(s, p, e.t, SoftLocking) ==>
              s'.killing[p].state == if Unrouted(p, e.dump) then HardLocking else SoftLocking
    ensures InTime(s, p, e.t, HardLocking) && s.killing[p].link in e.dump.locked ==>
              s'.killing[p].state == Locked && s'.killing[p].timeout == e.now + 2 * period
    ensures InTime(s, p, e.t, HardLocking) && s.killing[p].link !in e.dump.locked ==> GivenUp(s', p)
    ensures InTime(s, p, e.t, Locked) || InTime(s, p, e.t, Unlocking) ==> s'.killing[p] == s.killing[p]
  {
    assert s.killing[p].peer == p;
  }

  predicate GivenUp(s: System, p: Bits) {
    p in s.killing ==> s.killing[p].state == HardLocking && s.killing[p].timeout == 0
  }

  /** In every run: a killer whose link a dump does not report locked is gone at any later
      dump, unless it is aborted or a new one starts. */
  lemma {:induction false} GivenUpIsGone(ss: seq<System>, es: seq<Event>, period: nat, slack: nat, i: nat, j: nat,
                                         p: Bits)
    requires Run(ss, es, period, slack) && i < j < |es| && es[i].DumpArrived? && es[j].DumpArrived?
    requires InTime(ss[i], p, es[i].t, HardLocking) && ss[i].killing[p].link !in es[i].dump.locked
    requires forall k :: i < k <= j ==> !Touches(es[k], p) && Dated(es[k])
    ensures p !in ss[j + 1].killing
  {
    StaysGivenUp(ss, es, period, slack, i, j, p);
    assert Next(ss[j], es[j], period, slack, ss[j + 1]);
  }

  /** No dump comes at the date zero, when everything began. */
  predicate Dated(e: Event) { e.DumpArrived? ==> e.t > 0 }

  predicate Touches(e: Event, p: Bits) { !e.DumpArrived? && e.peer == p }

  lemma {:induction false} StaysGivenUp(ss: seq<System>, es: seq<Event>, period: nat, slack: nat, i: nat, j: nat,
                                        p: Bits)
    requires Run(ss, es, period, slack) && i < j < |ss| && j <= |es| && es[i].DumpArrived?
    requires InTime(ss[i], p, es[i].t, HardLocking) && ss[i].killing[p].link !in es[i].dump.locked
    requires forall k :: i < k < j ==> !Touches(es[k], p) && Dated(es[k])
    ensures GivenUp(ss[j], p)
  {
    var e := es[j - 1];
    assert Next(ss[j - 1], e, period, slack, ss[j]);
    if j - 1 == i {
      GivesUp(ss[i], e, period, slack, ss[j], p);
    } else {
      StaysGivenUp(ss, es, period, slack, i, j - 1, p);
      GivenUpStep(ss[j - 1], e, period, slack, ss[j], p);
    }
  }

  lemma GivesUp(s: System, e: Event, period: nat, slack: nat, s': System, p: Bits)
    requires Next(s, e, period, slack, s') && e.DumpArrived?
    requires InTime(s, p, e.t, HardLocking) && s.killing[p].link !in e.dump.locked
    ensures GivenUp(s', p)
  {
  }

  lemma GivenUpStep(s: System, e: Event, period: nat, slack: nat, s': System, p: Bits)
    requires Next(s, e, period, slack, s') && GivenUp(s, p) && !Touches(e, p) && Dated(e)
    ensures GivenUp(s', p)
  {
  }

  /** A killer is gone by the first dump later than six periods after its creation exactly
      when it was not aborted too late, which takes a long time without a dump. */
  lemma GoneInTimeIff(ss: seq<System>, es: seq<Event>, period: nat, slack: nat, i: nat, p: Bits)
    requires Run(ss, es, period, slack) && i < |ss| && p in ss[i].killing
    ensures var k := ss[i].killing[p];
            (forall t: nat :: k.created + 6 * period + slack < t ==> GoneAt(k, t)) <==>
            (k.aborted.Some? ==> k.aborted.value <= k.created + 4 * period + slack)
  {
    RunSound(ss, es, period, slack, i);
    var k := ss[i].killing[p];
    assert GoneAt(k, k.created + 6 * period + slack + 1) <==> k.timeout <= k.created + 6 * period + slack;
  }

  /** Aborted a thousand seconds after its creation, a killer outlives a dump a hundred
      seconds later, although six times its period of sixty have passed long ago. */
  lemma LateAbort(p: Bits, n: Neighbour)
    ensures var d := Dump(map[p := n], None, {}, map[]);
            var s1 := Began(System(map[], []), p, true, d, 0, 60);
            var s2 := AbortedOne(s1, p, 1000, 60);
            && Run([System(map[], []), s1, s2, s2],
                   [Begin(p, true, d, 0), Abort(p, 1000), DumpArrived(d, 1100, 1100)], 60, 0)
            && p in s2.killing && s2.killing[p].created == 0 && 6 * 60 < 1100
  {
    var d := Dump(map[p := n], None, {}, map[]);
    var s1 := Began(System(map[], []), p, true, d, 0, 60);
    var s2 := AbortedOne(s1, p, 1000, 60);
    var k := s2.killing[p];
    assert s2.killing == map[p := k] && k.state == Unlocking && k.timeout == 1120;
    assert Dumped(s2, d, 1100, 1100, 60, s2) by {
      assert DumpOrders(k, d, 1100, 1100, 60) == [];
    }
  }
}
