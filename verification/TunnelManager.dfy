/** The tunnels of a node: how many it opens, over which interfaces, and to whom. */
module TunnelManager {
  import opened Bits
  import opened FiniteSets
  import opened TunnelPool
  import opened TunnelKilling
  import TunnelRestoring
  import opened Wrappers

  /** An address to connect to: how many of its alternatives may be tried. */
  type Usable = nat

  /** What the cache, the registry and the network answer while new tunnels are made. `order`
      is the list of distant peers in the order drawn; `known` has the peers whose address is
      cached and was not tried; `reachable` those to which a datagram can be sent. */
  datatype World = World(
    order: seq<Bits>, known: map<Bits, Usable>, reachable: set<Bits>,
    bootstrap: Option<(Bits, Usable)>, cached: seq<(Bits, Usable)>, failed: seq<(Bits, Usable)>,
    delay: nat)

  ghost predicate Distinct(s: seq<Bits>) {
    forall i, j :: 0 <= i < j < |s| ==> s[i] != s[j]
  }

  /** All the nodes known by babeld. */
  function KnownNodes(d: Dump): set<Bits> {
    (set p, x | p in d.neighbours && x in d.neighbours[p].routes :: x)
    + if d.unidentified.Some? then d.unidentified.value else {}
  }

  ghost predicate NotOf(peers: seq<(Bits, Usable)>, own: Bits) {
    forall i :: 0 <= i < |peers| ==> peers[i].0 != own
  }

  /** There is a route to each of the first i peers. */
  ghost predicate Routed(peers: seq<(Bits, Usable)>, i: nat, known: set<Bits>) {
    forall j :: 0 <= j < i && j < |peers| ==> peers[j].0 in known
  }

  lemma RoutedNext(peers: seq<(Bits, Usable)>, i: nat, known: set<Bits>)
    requires i < |peers|
    ensures Routed(peers, i + 1, known) <==> Routed(peers, i, known) && peers[i].0 in known
  {
  }

  /** Addresses of other nodes only: neither babeld nor the cache gives the node itself. */
  ghost predicate Foreign(w: World, own: Bits, d: Dump) {
    && Distinct(w.order) && (forall p :: p in w.order <==> p in KnownNodes(d) - d.neighbours.Keys)
    && own !in w.order
    && (w.bootstrap.Some? ==> w.bootstrap.value.0 != own)
    && NotOf(w.cached, own) && NotOf(w.failed, own)
  }

  function Min(a: nat, b: nat): nat { if a <= b then a else b }

  ghost predicate Extends(conn: Connections, conn': Connections) {
    forall p :: p in conn ==> p in conn' && conn'[p] == conn[p]
  }

  /** Nothing more can be done for p: it has a tunnel, is asked for its address, or neither
      is possible. */
  predicate Treated(p: Bits, w: World, conn: Connections, connecting: set<Bits>, served: set<Bits>) {
    if p in w.known then p in conn || p in served || w.known[p] == 0
    else p in connecting || p !in w.reachable
  }

  /** The effect of trying p. */
  ghost predicate TriedOne(p: Bits, w: World, served: set<Bits>, conn: Connections, connecting: set<Bits>,
                           conn': Connections, connecting': set<Bits>)
  {
    && Extends(conn, conn') && Treated(p, w, conn', connecting', served)
    && if p in w.known then connecting' == connecting && conn'.Keys <= conn.Keys + {p}
       else conn' == conn && connecting' == if p in w.reachable then connecting + {p} else connecting
  }

  /** The effect of trying the peers of `distant` but those left, from the last one. */
  ghost predicate Tried(w: World, served: set<Bits>, conn: Connections, conn': Connections, connecting': set<Bits>,
                        distant: seq<Bits>, left: seq<Bits>)
  {
    && left <= distant && Extends(conn, conn')
    && (forall p :: p in conn' && p !in conn ==> p in distant && p in w.known)
    && (forall p :: p in connecting' ==> p !in left && p in distant && p !in w.known && p in w.reachable)
    && (forall i :: |left| <= i < |distant| ==> Treated(distant[i], w, conn', connecting', served))
  }

  lemma TryNext(w: World, served: set<Bits>, conn: Connections, conn': Connections, connecting': set<Bits>,
                distant: seq<Bits>, left: seq<Bits>, conn'': Connections, connecting'': set<Bits>)
    requires Distinct(distant) && left != [] && Tried(w, served, conn, conn', connecting', distant, left)
    requires TriedOne(left[|left| - 1], w, served, conn', connecting', conn'', connecting'')
    ensures Tried(w, served, conn, conn'', connecting'', distant, left[..|left| - 1])
  {
    var p, rest := left[|left| - 1], left[..|left| - 1];
    assert p == distant[|rest|];
    forall i | |rest| <= i < |distant| ensures Treated(distant[i], w, conn'', connecting'', served) {}
  }

  /** A tunnel can be opened to that peer. */
  predicate Accepts(peer: (Bits, Usable), conn: Connections, served: set<Bits>) {
    peer.1 > 0 && peer.0 !in conn && peer.0 !in served
  }

  /** One tunnel more, to that peer, with all its addresses still to be tried but the first. */
  ghost predicate OpenedTo(peer: (Bits, Usable), conn: Connections, conn': Connections) {
    && peer.0 !in conn && peer.0 in conn'
    && conn' == conn[peer.0 := Connection(conn'[peer.0].iface, peer.1, Some(1), None)]
  }

  /** The i-th peer of the cache has no route, and accepts a tunnel. */
  predicate OfferedAt(cached: seq<(Bits, Usable)>, i: nat, known: set<Bits>, conn: Connections, served: set<Bits>)
    requires i < |cached|
  {
    cached[i].0 !in known && Accepts(cached[i], conn, served)
  }

  predicate Offers(cached: seq<(Bits, Usable)>, known: set<Bits>, conn: Connections, served: set<Bits>) {
    exists j :: 0 <= j < |cached| && OfferedAt(cached, j, known, conn, served)
  }

  ghost predicate Offered(cached: seq<(Bits, Usable)>, p: Bits, known: set<Bits>, conn: Connections,
                          served: set<Bits>)
  {
    exists j :: 0 <= j < |cached| && OfferedAt(cached, j, known, conn, served) && cached[j].0 == p
  }

  /** Nothing is new but tunnels to peers of the cache without a route. */
  ghost predicate FromOffers(cached: seq<(Bits, Usable)>, known: set<Bits>, conn: Connections, conn': Connections,
                             served: set<Bits>)
  {
    Extends(conn, conn') && forall p :: p in conn' && p !in conn ==> Offered(cached, p, known, conn, served)
  }

  /** The first i peers of the cache that have no route and accept a tunnel have one. */
  ghost predicate CacheDone(cached: seq<(Bits, Usable)>, i: nat, known: set<Bits>, conn: Connections,
                            conn': Connections, served: set<Bits>)
  {
    forall j :: 0 <= j < i && j < |cached| && OfferedAt(cached, j, known, conn, served) ==> cached[j].0 in conn'
  }

  lemma CacheNext(cached: seq<(Bits, Usable)>, i: nat, known: set<Bits>, conn: Connections, conn': Connections,
                  conn'': Connections, served: set<Bits>)
    requires i < |cached| && CacheDone(cached, i, known, conn, conn', served)
    requires FromOffers(cached, known, conn, conn', served)
    requires if OfferedAt(cached, i, known, conn', served) then OpenedTo(cached[i], conn', conn'') else conn'' == conn'
    ensures CacheDone(cached, i + 1, known, conn, conn'', served)
    ensures FromOffers(cached, known, conn, conn'', served)
  {
    forall p | p in conn'' && p !in conn ensures Offered(cached, p, known, conn, served) {
      if p !in conn' {
        assert OfferedAt(cached, i, known, conn, served) && cached[i].0 == p;
      }
    }
  }

  ghost predicate FirstAccepts(failed: seq<(Bits, Usable)>, i: nat, conn: Connections, served: set<Bits>)
    requires i < |failed|
  {
    Accepts(failed[i], conn, served) && forall j :: 0 <= j < i ==> !Accepts(failed[j], conn, served)
  }

  /** The first of the peers that accepts a tunnel has one, if any. */
  ghost predicate OpenedFirst(failed: seq<(Bits, Usable)>, conn: Connections, conn': Connections, served: set<Bits>) {
    || (conn' == conn && forall j :: 0 <= j < |failed| ==> !Accepts(failed[j], conn, served))
    || exists i :: 0 <= i < |failed| && FirstAccepts(failed, i, conn, served) && OpenedTo(failed[i], conn, conn')
  }

  /** How a node without a route to the registry opens at most count tunnels: to peers of
      the cache; if that gives none and no node at all is known, to the one that the registry
      gives, which is asked only when the cache is empty; and finally to the first peer
      accepting of those that have failed. */
  ghost predicate Bootstrapped(w: World, known: set<Bits>, mayAsk: bool, served: set<Bits>, conn: Connections,
                               conn': Connections, count: nat)
  {
    if Offers(w.cached, known, conn, served) then
      && conn' != conn && FromOffers(w.cached, known, conn, conn', served)
      && (|conn'| == |conn| + count || CacheDone(w.cached, |w.cached|, known, conn, conn', served))
    else if known != {} then conn' == conn
    else if w.cached == [] && mayAsk && w.bootstrap.Some? && Accepts(w.bootstrap.value, conn, served) then
      OpenedTo(w.bootstrap.value, conn, conn')
    else OpenedFirst(w.failed, conn, conn', served)
  }

  /** A node that lost the registry but knows others asks it for one that helps. */
  ghost predicate Helped(w: World, known: set<Bits>, served: set<Bits>, conn: Connections, conn': Connections) {
    if known != {} && w.bootstrap.Some? && w.bootstrap.value.0 !in known && Accepts(w.bootstrap.value, conn, served)
    then OpenedTo(w.bootstrap.value, conn, conn')
    else conn' == conn
  }

  /** The registry's node looks for peers in its cache at once, another one after it was
      asked for a node that helps. */
  ghost predicate Rejoined(w: World, known: set<Bits>, isRegistry: bool, served: set<Bits>, conn: Connections,
                           conn': Connections, count: nat)
  {
    if isRegistry then Bootstrapped(w, known, false, served, conn, conn', count)
    else
      exists c ::
        Helped(w, known, served, conn, c) && |c| <= |conn| + count
        && HelpedRejoined(w, known, served, c, conn', |conn| + count - |c|)
  }

  ghost predicate HelpedRejoined(w: World, known: set<Bits>, served: set<Bits>, conn: Connections, conn': Connections,
                                 count: nat)
  {
    if count == 0 then conn' == conn else Bootstrapped(w, known, true, served, conn, conn', count)
  }

  lemma SomeOffer(cached: seq<(Bits, Usable)>, known: set<Bits>, conn: Connections, conn': Connections,
                  served: set<Bits>)
    requires FromOffers(cached, known, conn, conn', served) && |conn'| > |conn|
    ensures Offers(cached, known, conn, served) && conn' != conn
  {
    if conn'.Keys <= conn.Keys {
      SubsetSize(conn'.Keys, conn.Keys);
    }
    var p :| p in conn' && p !in conn;
    assert Offered(cached, p, known, conn, served);
  }

  class Manager {
    const own: Bits
    const registry: Bits
    const clientCount: nat
    const period: nat
    const preferred: set<Bits>          // the peers of the --neighbour option
    const babel: Babel
    ghost const slack: nat
    var conn: Connections
    var connecting: set<Bits>
    var served: map<Bits, map<int, nat>>
    var killing: map<Bits, TunnelKiller>
    var unmade: seq<int>
    var free: seq<int>
    var used: map<int, Bits>
    var distant: seq<Bits>
    var disconnected: nat

    /** The budget and the interfaces. */
    ghost predicate Valid()
      reads this`conn, this`connecting, this`unmade, this`free, this`used, this`distant
    {
      && |conn| + |connecting| <= clientCount
      && Pooled(unmade, free, used, conn, clientCount)
      && own !in conn && own !in connecting && own !in distant && Distinct(distant)
    }

    /** A manager is only made for a node that may open tunnels. */
    constructor (own: Bits, registry: Bits, clientCount: nat, period: nat, preferred: set<Bits>, babel: Babel,
                 ghost slack: nat)
      requires clientCount > 0
      ensures Valid() && conn == map[] && connecting == {} && killing == map[] && served == map[]
      ensures unmade == seq(clientCount, i => i) && this.babel == babel && this.slack == slack
      ensures this.own == own && this.registry == registry && this.clientCount == clientCount
      ensures this.period == period && this.preferred == preferred
    {
      this.own, this.registry, this.clientCount := own, registry, clientCount;
      this.period, this.preferred, this.babel, this.slack := period, preferred, babel, slack;
      conn, connecting, served, killing := map[], {}, map[], map[];
      unmade, free, used := seq(clientCount, i => i), [], map[];
      distant, disconnected := [], 0;
      new;
      AllNames(clientCount);
    }

    /** Take a name, and make its interface. */
    method Tuntap() returns (iface: int)
      requires unmade != []
      modifies this`unmade
      ensures iface == old(unmade)[0] && unmade == old(unmade)[1..]
    {
      iface := unmade[0];
      unmade := unmade[1..];
    }

    method GetFreeInterface(prefix: Bits) returns (iface: int)
      requires free != [] || unmade != []
      modifies this`free, this`unmade, this`used
      ensures used == old(used)[iface := prefix]
      ensures if old(free) != []
              then free == old(free)[..|old(free)| - 1] && iface == old(free)[|old(free)| - 1] && unmade == old(unmade)
              else free == [] && unmade == old(unmade)[1..] && iface == old(unmade)[0]
    {
      if free != [] {
        iface := free[|free| - 1];
        free := free[..|free| - 1];
      } else {
        iface := Tuntap();
      }
      used := used[iface := prefix];
    }

    /** Whether a tunnel was opened. There must be room for it. */
    method MakeTunnel(prefix: Bits, usable: Usable) returns (made: bool)
      requires Valid() && |conn| + |connecting| < clientCount && prefix != own
      modifies this`conn, this`free, this`unmade, this`used
      ensures Valid()
      ensures made <==> prefix !in served && prefix !in old(conn) && usable > 0
      ensures !made ==> conn == old(conn)
      ensures made ==> Extends(old(conn), conn) && conn.Keys == old(conn).Keys + {prefix} && |conn| == |old(conn)| + 1
      ensures made ==> OpenedTo((prefix, usable), old(conn), conn)
    {
      if prefix in served || prefix in conn {
        return false;
      }
      if usable == 0 {
        return false;
      }
      NamesLeft(unmade, free, used, conn, clientCount);
      var iface := GetFreeInterface(prefix);
      var c := Connection(iface, usable, Some(1), None);
      if old(free) != [] {
        UseFree(old(unmade), old(free), old(used), conn, clientCount, prefix, c);
      } else {
        UseFresh(old(unmade), old(free), old(used), conn, clientCount, prefix, c);
      }
      conn := conn[prefix := c];
      made := true;
    }

    /** An address has come: the tunnel it was asked for takes the place of the request. */
    method AddressReceived(peer: Bits, usable: Usable) returns (made: bool)
      requires Valid()
      modifies this`conn, this`connecting, this`free, this`unmade, this`used
      ensures Valid() && connecting == old(connecting) - {peer}
      ensures made <==> peer in old(connecting) && peer !in served && peer !in old(conn) && usable > 0
      ensures Extends(old(conn), conn) && conn.Keys == old(conn).Keys + if made then {peer} else {}
    {
      if peer !in connecting {
        return false;
      }
      connecting := connecting - {peer};
      assert |old(connecting)| == |connecting| + 1;
      made := MakeTunnel(peer, usable);
    }

    /** The normal case: the distant peers are tried in order, until count tunnels are made or
        asked for. left is what then remains of count. */
    method FromDistant(count: nat, w: World) returns (left: nat)
      requires Valid() && |conn| + count <= clientCount && connecting == {}
      modifies this`conn, this`connecting, this`free, this`unmade, this`used, this`distant
      ensures Valid() && |conn| + |connecting| + left == |old(conn)| + count
      ensures left == 0 || distant == []
      ensures Tried(w, served.Keys, old(conn), conn, connecting, old(distant), distant)
    {
      left := count;
      while left > 0 && distant != []
        invariant Valid() && |conn| + |connecting| + left == |old(conn)| + count
        invariant Tried(w, served.Keys, old(conn), conn, connecting, old(distant), distant)
        decreases |distant|
      {
        ghost var conn1, connecting1, distant1 := conn, connecting, distant;
        left := TryDistant(left, w);
        TryNext(w, served.Keys, old(conn), conn1, connecting1, old(distant), distant1, conn, connecting);
      }
    }

    method PopDistant() returns (p: Bits)
      requires Valid() && distant != []
      modifies this`distant
      ensures Valid() && p == old(distant)[|old(distant)| - 1] && p != own
              && distant == old(distant)[..|old(distant)| - 1]
    {
      p := distant[|distant| - 1];
      distant := distant[..|distant| - 1];
    }

    /** The address of p has been asked for: a place is kept until the answer. */
    method AskAddress(p: Bits)
      requires Valid() && |conn| + |connecting| < clientCount && p != own && p !in connecting
      modifies this`connecting
      ensures Valid() && connecting == old(connecting) + {p} && |connecting| == |old(connecting)| + 1
    {
      connecting := connecting + {p};
    }

    method TryDistant(count: nat, w: World) returns (left: nat)
      requires Valid() && |conn| + |connecting| + count <= clientCount && count > 0 && distant != []
      requires distant[|distant| - 1] !in connecting
      modifies this`conn, this`connecting, this`free, this`unmade, this`used, this`distant
      ensures Valid() && distant == old(distant)[..|old(distant)| - 1]
      ensures |conn| + |connecting| + left == |old(conn)| + |old(connecting)| + count
      ensures TriedOne(old(distant)[|old(distant)| - 1], w, served.Keys, old(conn), old(connecting), conn, connecting)
    {
      left := count;
      var p := PopDistant();
      if p in w.known {
        var made := MakeTunnel(p, w.known[p]);
        if made {
          left := left - 1;
        }
        assert TriedOne(p, w, served.Keys, old(conn), old(connecting), conn, connecting);
      } else if p in w.reachable {
        AskAddress(p);
        left := left - 1;
      }
    }

    /** Tunnels to the peers of the cache for which there is no route, up to count of them;
        made of them are new. Whether the cache had no such peer. */
    method FromCache(count: nat, cached: seq<(Bits, Usable)>, known: set<Bits>) returns (made: nat, none: bool)
      requires Valid() && |conn| + |connecting| + count <= clientCount && count > 0
      requires NotOf(cached, own)
      modifies this`conn, this`free, this`unmade, this`used
      ensures Valid() && |conn| == |old(conn)| + made && made <= count
      ensures FromOffers(cached, known, old(conn), conn, served.Keys) && (made == 0 ==> conn == old(conn))
      ensures made < count ==> CacheDone(cached, |cached|, known, old(conn), conn, served.Keys)
      ensures made < count ==> (none <==> Routed(cached, |cached|, known))
    {
      made, none := 0, true;
      for i := 0 to |cached|
        invariant Valid() && |conn| == |old(conn)| + made && made < count
        invariant CacheDone(cached, i, known, old(conn), conn, served.Keys)
        invariant FromOffers(cached, known, old(conn), conn, served.Keys) && (made == 0 ==> conn == old(conn))
        invariant none <==> Routed(cached, i, known)
      {
        ghost var conn1 := conn;
        RoutedNext(cached, i, known);
        none := none && cached[i].0 in known;
        var done := TryCached(cached[i], known);
        CacheNext(cached, i, known, old(conn), conn1, conn, served.Keys);
        if done {
          made := made + 1;
          if made == count {
            return;
          }
        }
      }
    }

    method TryCached(peer: (Bits, Usable), known: set<Bits>) returns (done: bool)
      requires Valid() && |conn| + |connecting| < clientCount && peer.0 != own
      modifies this`conn, this`free, this`unmade, this`used
      ensures Valid() && |conn| == |old(conn)| + if done then 1 else 0
      ensures done <==> peer.0 !in known && Accepts(peer, old(conn), served.Keys)
      ensures if done then OpenedTo(peer, old(conn), conn) else conn == old(conn)
    {
      done := false;
      if peer.0 !in known {
        done := MakeTunnel(peer.0, peer.1);
      }
    }

    /** One tunnel at most, to the first of the peers that accepts one. */
    method LastChance(failed: seq<(Bits, Usable)>) returns (made: bool)
      requires Valid() && |conn| + |connecting| < clientCount
      requires NotOf(failed, own)
      modifies this`conn, this`free, this`unmade, this`used
      ensures Valid() && Extends(old(conn), conn) && |conn| == |old(conn)| + (if made then 1 else 0)
      ensures OpenedFirst(failed, old(conn), conn, served.Keys) && (!made ==> conn == old(conn))
    {
      for i := 0 to |failed|
        invariant Valid() && conn == old(conn)
        invariant forall j :: 0 <= j < i ==> !Accepts(failed[j], conn, served.Keys)
      {
        made := MakeTunnel(failed[i].0, failed[i].1);
        if made {
          assert FirstAccepts(failed, i, old(conn), served.Keys);
          return;
        }
      }
      made := false;
    }

    /** No route to the registry: `bootstrap` is what it gives when it can still be asked. */
    method Bootstrap(count: nat, w: World)
      requires Valid() && |conn| + |connecting| + count <= clientCount && count > 0 && Foreign(w, own, babel.dump)
      modifies this`conn, this`free, this`unmade, this`used
      ensures Valid() && Extends(old(conn), conn) && |conn| <= |old(conn)| + count
      ensures Bootstrapped(w, KnownNodes(babel.dump), registry != own, served.Keys, old(conn), conn, count)
    {
      var known := KnownNodes(babel.dump);
      var made, none := FromCache(count, w.cached, known);
      if made > 0 {
        SomeOffer(w.cached, known, old(conn), conn, served.Keys);
      } else {
        if known == {} {
          assert w.cached != [] ==> w.cached[0].0 !in known;
          AskOrRetry(none, w);
        }
      }
    }

    /** Nobody is known, and the cache was of no use. */
    method AskOrRetry(none: bool, w: World)
      requires Valid() && |conn| + |connecting| < clientCount && Foreign(w, own, babel.dump)
      modifies this`conn, this`free, this`unmade, this`used
      ensures Valid() && Extends(old(conn), conn) && |conn| <= |old(conn)| + 1
      ensures if none && registry != own && w.bootstrap.Some? && Accepts(w.bootstrap.value, old(conn), served.Keys)
              then OpenedTo(w.bootstrap.value, old(conn), conn)
              else OpenedFirst(w.failed, old(conn), conn, served.Keys)
    {
      if none && registry != own && w.bootstrap.Some? {
        var done := MakeTunnel(w.bootstrap.value.0, w.bootstrap.value.1);
        if done {
          return;
        }
      }
      var _ := LastChance(w.failed);
    }

    /** The node is connected to the network, as far as it knows. */
    predicate Attached()
      reads this`conn, this`served, babel`dump
    {
      registry in KnownNodes(babel.dump) || registry in conn || registry in served
    }

    /** Whether, with a dump at hand, peers are looked for in the cache: when the registry's
        node has no distant peer, or another one is not attached. Then it waits before the
        next time, and unless it knows nobody the registry must give a node that helps. */
    predicate UsesCache(w: World, now: nat)
      reads this`conn, this`served, this`disconnected, babel`dump
    {
      if registry == own then w.order == []
      else !Attached() && disconnected < now && (KnownNodes(babel.dump) == {} || w.bootstrap.Some?)
    }

    /** The date before which a node that is not attached waits. */
    function NextDate(w: World, now: nat): nat
      reads this`conn, this`served, this`disconnected, babel`dump
    {
      if registry == own then disconnected
      else if Attached() then 0
      else if disconnected < now then now + w.delay
      else disconnected
    }

    /** A node without a route to the registry looks for peers in the cache once, and then not
        before the delay has passed; when it finds the registry again it need not wait. */
    lemma RejoinsOncePerDelay(w: World, now: nat)
      requires registry != own
      ensures UsesCache(w, now) ==> !Attached() && disconnected < now && NextDate(w, now) == now + w.delay
      ensures Attached() ==> NextDate(w, now) == 0
      ensures !Attached() && now <= disconnected ==> !UsesCache(w, now) && NextDate(w, now) == disconnected
      ensures !Attached() && disconnected < now && KnownNodes(babel.dump) == {} ==> UsesCache(w, now)
    {
    }

    /** With a dump at hand: whether to look for peers in the cache, and what remains of count. */
    method CheckConnected(count: nat, w: World, now: nat) returns (left: nat, fromCache: bool)
      requires Valid() && |conn| + |connecting| + count <= clientCount && count > 0
      requires Foreign(w, own, babel.dump) && distant == w.order
      modifies this`conn, this`free, this`unmade, this`used, this`disconnected
      ensures Valid() && Extends(old(conn), conn) && |conn| + left == |old(conn)| + count
      ensures fromCache == old(UsesCache(w, now)) && disconnected == old(NextDate(w, now))
      ensures if fromCache && registry != own then Helped(w, KnownNodes(babel.dump), served.Keys, old(conn), conn)
              else conn == old(conn)
    {
      left, fromCache := count, false;
      var known := KnownNodes(babel.dump);
      if registry == own {
        fromCache := distant == [];
      } else if registry in known || registry in conn || registry in served {
        disconnected := 0;
      } else if disconnected < now {
        disconnected := now + w.delay;
        left, fromCache := AskBootstrap(count, w);
      }
    }

    /** The registry is asked for a node that helps, unless nobody else is connected. */
    method AskBootstrap(count: nat, w: World) returns (left: nat, fromCache: bool)
      requires Valid() && |conn| + |connecting| + count <= clientCount && count > 0
      requires w.bootstrap.Some? ==> w.bootstrap.value.0 != own
      modifies this`conn, this`free, this`unmade, this`used
      ensures Valid() && Extends(old(conn), conn) && |conn| + left == |old(conn)| + count
      ensures fromCache <==> KnownNodes(babel.dump) == {} || w.bootstrap.Some?
      ensures Helped(w, KnownNodes(babel.dump), served.Keys, old(conn), conn)
    {
      left, fromCache := count, true;
      var known := KnownNodes(babel.dump);
      if known != {} {
        if w.bootstrap.None? {
          // The registry gives nobody: the known nodes are then taken for the network.
          fromCache := false;
        } else if w.bootstrap.value.0 !in known {
          var done := MakeTunnel(w.bootstrap.value.0, w.bootstrap.value.1);
          if done {
            left := left - 1;
          }
        }
      }
    }

    /** Open tunnels, or ask for addresses, within the budget. Whether a dump is wanted. */
    method MakeNewTunnels(routeDumped: bool, w: World, now: nat) returns (again: bool)
      requires Valid() && Foreign(w, own, babel.dump)
      modifies this`conn, this`connecting, this`free, this`unmade, this`used, this`distant, this`disconnected
      ensures Valid() && Extends(old(conn), conn)
      ensures |old(conn)| == clientCount ==> conn == old(conn) && connecting == {} && distant == old(distant) && !again
      ensures again <==> !routeDumped && |old(conn)| < clientCount
                         && (|old(distant)| < clientCount - |old(conn)| || 0 < old(disconnected) < now)
      ensures again ==> conn == old(conn) && connecting == {}
      ensures !routeDumped && |old(conn)| < clientCount && !again ==> FromPeers(old(conn), old(distant), w)
      ensures routeDumped ==> Refilled(old(UsesCache(w, now)), old(NextDate(w, now)), old(conn), w)
    {
      again := false;
      var count: nat := clientCount - |conn|;
      if count == 0 {
        return;
      }
      connecting := {};
      if routeDumped {
        RenewTunnels(count, w, now);
      } else if |distant| < count || 0 < disconnected < now {
        again := true;
      } else {
        TunnelsToDistant(count, w);
      }
    }

    /** Tunnels are opened, or asked for, with a dump at hand. */
    method RenewTunnels(count: nat, w: World, now: nat)
      requires Valid() && Foreign(w, own, babel.dump) && connecting == {} && count == clientCount - |conn| && count > 0
      modifies this`conn, this`connecting, this`free, this`unmade, this`used, this`distant, this`disconnected
      ensures Valid() && Extends(old(conn), conn)
      ensures Refilled(old(UsesCache(w, now)), old(NextDate(w, now)), old(conn), w)
    {
      distant := w.order;
      var left, fromCache := CheckConnected(count, w, now);
      if fromCache {
        TunnelsToCached(left, count, old(conn), w);
      } else {
        TunnelsToDistant(left, w);
      }
    }

    /** conn1 is what was there before the registry was asked for help. */
    method TunnelsToCached(left: nat, ghost count: nat, ghost conn1: Connections, w: World)
      requires Valid() && Foreign(w, own, babel.dump) && connecting == {}
      requires Extends(conn1, conn) && |conn| + left == |conn1| + count <= clientCount && count > 0
      requires if registry != own then Helped(w, KnownNodes(babel.dump), served.Keys, conn1, conn) else conn == conn1
      modifies this`conn, this`free, this`unmade, this`used
      ensures Valid() && Extends(conn1, conn)
      ensures Rejoined(w, KnownNodes(babel.dump), registry == own, served.Keys, conn1, conn, count)
    {
      ghost var known, conn2 := KnownNodes(babel.dump), conn;
      if left > 0 {
        Bootstrap(left, w);
      }
      if registry != own {
        assert Helped(w, known, served.Keys, conn1, conn2) && HelpedRejoined(w, known, served.Keys, conn2, conn, left);
      }
    }

    method TunnelsToDistant(count: nat, w: World)
      requires Valid() && connecting == {} && |conn| + count == clientCount
      modifies this`conn, this`connecting, this`free, this`unmade, this`used, this`distant
      ensures Valid() && Extends(old(conn), conn) && FromPeers(old(conn), old(distant), w)
    {
      if distant != [] {
        var _ := FromDistant(Limited(count), w);
      }
    }

    /** The distant peers were tried in order, until the budget was used up or none was left. */
    ghost predicate FromPeers(before: Connections, peers: seq<Bits>, w: World)
      reads this
    {
      && Tried(w, served.Keys, before, conn, connecting, peers, distant)
      && (distant == [] || Filled(before))
    }

    /** What a dump leads to: nothing when there are as many tunnels as allowed. */
    ghost predicate Refilled(fromCache: bool, date: nat, before: Connections, w: World)
      reads this, babel`dump
    {
      if |before| == clientCount then conn == before
      else disconnected == date && if fromCache then FromCached(before, w) else FromPeers(before, w.order, w)
    }

    ghost predicate FromCached(before: Connections, w: World)
      reads this, babel`dump
    {
      && connecting == {} && distant == w.order && |before| <= clientCount
      && Rejoined(w, KnownNodes(babel.dump), registry == own, served.Keys, before, conn, clientCount - |before|)
    }

    /** Fewer tunnels when nobody can connect to this node. */
    function Limited(count: nat): (r: nat)
      reads this
      ensures |conn| + count <= clientCount ==> |conn| + r <= clientCount
    {
      if count > 0 && served == map[] then
        if |conn| <= Min(2, clientCount) then Min(2, clientCount) - |conn| else 0
      else count
    }

    /** All the tunnels that may be opened from `before` on are there or asked for. */
    ghost predicate Filled(before: Connections)
      reads this
    {
      |conn| + |connecting| ==
      if served != map[] then clientCount else if |before| <= Min(2, clientCount) then Min(2, clientCount) else |before|
    }

    // ---- killing tunnels ------------------------------------------------------------------

    ghost function Sys(): System
      reads this`killing, babel`sent, killing.Values
    {
      System(map p | p in killing :: killing[p].View(), babel.sent)
    }

    ghost predicate ValidKilling()
      reads this`killing, this`conn, babel`sent, killing.Values
    {
      Sound(Sys(), period, slack) && Tunnelled(Sys(), conn.Keys)
    }

    /** `iface` restricts to the killer of that interface; raised when it is unknown. */
    method AbortTunnelKiller(prefix: Bits, iface: Option<nat>, now: nat) returns (raised: bool)
      requires Peered()
      modifies this`killing, killing.Values
      ensures killing.Values <= old(killing.Values)
      ensures raised <==> iface.Some? && Unknown(old(Sys()), prefix, babel.dump)
      ensures Sys() == if iface.None? || Concerns(old(Sys()), prefix, iface.value, babel.dump)
                       then AbortedOne(old(Sys()), prefix, now, period) else old(Sys())
    {
      raised := false;
      if prefix in killing {
        var k := killing[prefix];
        if k.state != Waiting {
          if iface.Some? && k.link.ifindex !in babel.dump.interfaces {
            return true;
          }
          if iface.None? || iface.value == babel.dump.interfaces[k.link.ifindex] {
            AbortLocked(prefix, now);
          }
        } else {
          killing := killing - {prefix};
        }
      }
    }

    method AbortLocked(prefix: Bits, now: nat)
      requires prefix in killing && Peered()
      modifies killing[prefix]
      ensures Sys() == old(Sys()).(killing :=
                old(Sys().killing)[prefix := Aborted(old(killing[prefix].View()), now, period)])
    {
      killing[prefix].Abort(now, period);
    }

    method FreeInterface(iface: int)
      requires iface in used
      modifies this`free, this`used
      ensures free == old(free) + [iface] && used == old(used) - {iface}
    {
      free := free + [iface];
      used := used - {iface};
    }

    /** found is false when there is no such tunnel, which the code takes for impossible. */
    method Kill(prefix: Bits, now: nat) returns (found: bool)
      requires Valid() && Peered()
      modifies this`conn, this`free, this`used, this`killing, killing.Values
      ensures Valid() && killing.Values <= old(killing.Values)
      ensures found <==> prefix in old(conn)
      ensures conn == old(conn) - {prefix} && conn.Keys == old(conn).Keys - {prefix}
      ensures Sys() == AbortedOne(old(Sys()), prefix, now, period)
    {
      var _ := AbortTunnelKiller(prefix, None, now);
      found := prefix in conn;
      CloseTunnel(prefix);
    }

    method StartKilling(peer: Bits, client: bool, now: nat)
      requires peer !in killing
      modifies this`killing, babel`sent
      ensures fresh(killing.Values - old(killing.Values))
      ensures Sys() == Began(old(Sys()), peer, client, old(babel.dump), now, period)
    {
      ghost var s := Began(Sys(), peer, client, babel.dump, now, period);
      var k := new TunnelKiller(peer, client, now, period, babel);
      killing := killing[peer := k];
      assert killing.Values - old(killing.Values) <= {k};
      assert Sys().killing == s.killing;
    }

    /** A message about killing from a peer: 2 asks for it, 3 agrees. false when it agrees
        to the killing of a tunnel that this node has not opened. */
    method KillMessage(peer: Bits, code: nat, now: nat) returns (ok: bool)
      requires Valid() && ValidKilling()
      modifies this`conn, this`free, this`used, this`killing, killing.Values, babel`sent
      ensures Valid() && ValidKilling() && fresh(killing.Values - old(killing.Values))
      ensures conn == if KillAgreed(old(Sys()), peer, code) then old(conn) - {peer} else old(conn)
      ensures Sys() == MessageEffect(old(Sys()), peer, code, served.Keys, babel.dump, now, period)
      ensures (peer in killing && peer !in old(killing)) <==> code == 2 && peer in served && peer !in old(killing)
      ensures conn != old(conn) ==> code == 3 && peer in old(killing) && old(killing[peer].state) == Locked
      ensures !ok <==> KillAgreed(old(Sys()), peer, code) && peer !in old(conn)
      ensures !ok ==> !old(Sys()).killing[peer].client
    {
      ok := true;
      ghost var s := MessageEffect(Sys(), peer, code, served.Keys, babel.dump, now, period);
      MessageKept(Sys(), peer, code, served.Keys, babel.dump, now, period, slack, conn.Keys);
      Peers();
      if peer in killing {
        if code == 3 && killing[peer].state == Locked {
          ok := Kill(peer, now);
        }
      } else if code == 2 && peer in served {
        StartKilling(peer, false, now);
      }
      Keep(s);
    }

    lemma Keep(s: System)
      requires Sys() == s && Sound(s, period, slack) && Tunnelled(s, conn.Keys)
      ensures ValidKilling()
    {
    }

    ghost predicate Peered()
      reads this`killing, killing.Values
    {
      forall p :: p in killing ==> killing[p].peer == p
    }

    lemma Peers()
      requires Sound(Sys(), period, slack)
      ensures Peered()
    {
      assert forall p :: p in killing ==> p in Sys().killing && Sys().killing[p] == killing[p].View();
    }

    /** What a dump does to the killers: those whose time is over restore what they have
        locked and go, the others are called. messages is for the other ends. */
    method DumpKilling(t: nat, now: nat) returns (messages: map<Bits, nat>)
      requires Peered()
      modifies this`killing, killing.Values, babel`sent
      ensures killing.Values <= old(killing.Values)
      ensures Dumped(old(Sys()), babel.dump, t, now, period, Sys())
      ensures Told(old(Sys()), babel.dump, t, {}, messages)
    {
      messages := map[];
      var todo := killing.Keys;
      ghost var s := Sys();
      DumpBegins(s, babel.dump, t, now, period);
      assert s.killing.Keys == todo;
      while todo != {}
        invariant killing.Values <= old(killing.Values)
        invariant Peered() && Dumping(s, babel.dump, t, now, period, todo, Sys())
        invariant Told(s, babel.dump, t, todo, messages)
        decreases todo
      {
        var p :| p in todo;
        var message := DumpStep(p, t, now, s, todo);
        TellNext(s, babel.dump, t, todo, messages, p, message);
        if message.Some? {
          messages := messages[p := message.value];
        }
        todo := todo - {p};
      }
      assert Dumped(s, babel.dump, t, now, period, Sys());
    }

    method DumpStep(p: Bits, t: nat, now: nat, ghost s: System, ghost todo: set<Bits>)
      returns (message: Option<nat>)
      requires Peered() && p in todo && Dumping(s, babel.dump, t, now, period, todo, Sys())
      modifies this`killing, killing.Values, babel`sent
      ensures killing.Values <= old(killing.Values) && Peered()
      ensures Dumping(s, babel.dump, t, now, period, todo - {p}, Sys())
      ensures message == if Asks(s.killing[p], babel.dump, t) then Some(Code(s.killing[p])) else None
    {
      assert p in Sys().killing && Sys().killing[p].peer == p;
      DumpNext(s, babel.dump, t, now, period, todo, Sys(), p);
      message := DumpOne(p, t, now);
    }

    method DumpOne(p: Bits, t: nat, now: nat) returns (message: Option<nat>)
      requires p in killing && Peered()
      modifies this`killing, killing[p], babel`sent
      ensures killing == old(killing) || killing == old(killing) - {p}
      ensures Sys() == DumpedOne(old(Sys()), p, babel.dump, t, now, period)
      ensures message == if Asks(old(killing[p].View()), babel.dump, t) then Some(Code(old(killing[p].View())))
                         else None
    {
      var k := killing[p];
      message := None;
      if k.timeout < t {
        k.Unlock(babel);
        killing := killing - {p};
      } else {
        message := k.Call(now, period, babel);
      }
      assert Sys().killing == DumpedOne(old(Sys()), p, babel.dump, t, now, period).killing;
    }

    method LeastUseful(peers: set<Bits>) returns (p: Bits)
      requires peers != {}
      ensures Least(p, peers, preferred, babel.dump)
    {
      p :| p in peers;
      var todo := peers - {p};
      while todo != {}
        invariant todo <= peers && Least(p, peers - todo, preferred, babel.dump)
        decreases todo
      {
        var q :| q in todo;
        LeastOfMore(p, q, peers - todo, preferred, babel.dump);
        todo := todo - {q};
        assert peers - todo == peers - (todo + {q}) + {q};
        if Worse(TunnelScore(q, preferred, babel.dump), TunnelScore(p, preferred, babel.dump)) {
          p := q;
        }
      }
    }

    method ChooseTunnel(peers: set<Bits>) returns (chosen: Option<Bits>)
      requires clientCount > 0
      ensures Chosen(peers, Allowed(), preferred, babel.dump, chosen)
      ensures peers != preferred ==>
                (chosen.Some? <==>
                 |peers| >= if served != map[] || disconnected != 0 then clientCount else Min(2, clientCount))
    {
      chosen := None;
      if Allowed() <= |peers| && peers != preferred {
        var p := LeastUseful(peers);
        chosen := Some(p);
      }
    }

    /** Start killing one of the tunnels opened by this node. */
    method RemoveSomeTunnels(now: nat) returns (chosen: Option<Bits>, ghost peers: set<Bits>)
      requires clientCount > 0
      modifies this`killing, babel`sent
      ensures fresh(killing.Values - old(killing.Values))
      ensures peers == old(conn.Keys - killing.Keys)
              && Chosen(peers, old(Allowed()), preferred, old(babel.dump), chosen)
      ensures Sys() == BeganOne(old(Sys()), chosen, old(babel.dump), now, period)
    {
      peers := conn.Keys - killing.Keys;
      chosen := ChooseTunnel(conn.Keys - killing.Keys);
      if chosen.Some? {
        StartKilling(chosen.value, true, now);
      }
    }

    function Allowed(): nat
      reads this`served, this`disconnected
    {
      if served != map[] || disconnected != 0 then clientCount else Min(2, clientCount)
    }

    /** What is done at each dump; `remove` when tunnels must be refreshed. messages is for
        the other ends of the tunnels that are being killed. */
    method BabelDump(t: nat, now: nat, remove: bool, w: World)
      returns (messages: map<Bits, nat>, ghost s: System, chosen: Option<Bits>)
      requires Valid() && ValidKilling() && clientCount > 0 && t <= now <= t + slack && Foreign(w, own, babel.dump)
      modifies this`conn, this`connecting, this`free, this`unmade, this`used, this`distant, this`disconnected
      modifies this`killing, killing.Values, babel`sent
      ensures Valid() && ValidKilling() && fresh(killing.Values - old(killing.Values))
      ensures KillersDumped(old(Sys()), babel.dump, t, now, period, s, messages)
      ensures Removal(remove, old(conn).Keys - s.killing.Keys, old(Allowed()), preferred, babel.dump, chosen)
      ensures Sys() == BeganOne(s, chosen, babel.dump, now, period)
      ensures Extends(old(conn), conn) && Refilled(old(UsesCache(w, now)), old(NextDate(w, now)), old(conn), w)
    {
      ghost var fromCache, date := UsesCache(w, now), NextDate(w, now);
      ghost var peers, allowed := conn.Keys, Allowed();
      messages, s, chosen := DumpAndRemove(t, now, remove, w, fromCache, date, peers, allowed);
      NewTunnels(w, now, Sys(), fromCache, date, conn);
    }

    method NewTunnels(w: World, now: nat, ghost s: System, ghost fromCache: bool, ghost date: nat,
                      ghost before: Connections)
      requires Valid() && ValidKilling() && Foreign(w, own, babel.dump)
      requires Sys() == s && fromCache == UsesCache(w, now) && date == NextDate(w, now) && before == conn
      modifies this`conn, this`connecting, this`free, this`unmade, this`used, this`distant, this`disconnected
      ensures Valid() && ValidKilling() && Sys() == s
      ensures Extends(before, conn) && Refilled(fromCache, date, before, w)
    {
      var _ := MakeNewTunnels(true, w, now);
      Keep(s);
    }

    method DumpAndRemove(t: nat, now: nat, remove: bool, w: World, ghost fromCache: bool, ghost date: nat,
                         ghost peers: set<Bits>, ghost allowed: nat)
      returns (messages: map<Bits, nat>, ghost s: System, chosen: Option<Bits>)
      requires Valid() && ValidKilling() && clientCount > 0 && t <= now <= t + slack && Foreign(w, own, babel.dump)
      requires fromCache == UsesCache(w, now) && date == NextDate(w, now) && peers == conn.Keys && allowed == Allowed()
      modifies this`killing, killing.Values, babel`sent
      ensures Valid() && ValidKilling() && Foreign(w, own, babel.dump) && fresh(killing.Values - old(killing.Values))
      ensures fromCache == UsesCache(w, now) && date == NextDate(w, now)
      ensures KillersDumped(old(Sys()), babel.dump, t, now, period, s, messages)
      ensures Removal(remove, peers - s.killing.Keys, allowed, preferred, babel.dump, chosen)
      ensures Sys() == BeganOne(s, chosen, babel.dump, now, period)
    {
      ghost var s0 := Sys();
      messages, s, chosen := DumpThenRemove(t, now, remove, peers, allowed);
      KeepDumped(s0, t, now, s, chosen);
    }

    lemma KeepDumped(s0: System, t: nat, now: nat, s: System, chosen: Option<Bits>)
      requires Sound(s0, period, slack) && Tunnelled(s0, conn.Keys) && t <= now <= t + slack
      requires Dumped(s0, babel.dump, t, now, period, s)
      requires chosen.Some? ==> chosen.value in conn && chosen.value !in s.killing
      requires Sys() == BeganOne(s, chosen, babel.dump, now, period)
      ensures ValidKilling()
    {
      DumpKept(s0, babel.dump, t, now, period, slack, s, chosen, conn.Keys);
    }

    method DumpThenRemove(t: nat, now: nat, remove: bool, ghost peers: set<Bits>, ghost allowed: nat)
      returns (messages: map<Bits, nat>, ghost s: System, chosen: Option<Bits>)
      requires ValidKilling() && clientCount > 0 && peers == conn.Keys && allowed == Allowed()
      modifies this`killing, killing.Values, babel`sent
      ensures fresh(killing.Values - old(killing.Values))
      ensures KillersDumped(old(Sys()), babel.dump, t, now, period, s, messages)
      ensures Removal(remove, peers - s.killing.Keys, allowed, preferred, babel.dump, chosen)
      ensures Sys() == BeganOne(s, chosen, babel.dump, now, period)
    {
      Peers();
      ghost var s0 := Sys();
      messages := DumpKilling(t, now);
      s := Sys();
      assert s.killing.Keys == killing.Keys && KillersDumped(s0, babel.dump, t, now, period, s, messages);
      chosen := RemoveIfDue(remove, now, peers - s.killing.Keys, allowed);
    }

    method RemoveIfDue(remove: bool, now: nat, ghost peers: set<Bits>, ghost allowed: nat)
      returns (chosen: Option<Bits>)
      requires clientCount > 0 && peers == conn.Keys - killing.Keys && allowed == Allowed()
      modifies this`killing, babel`sent
      ensures fresh(killing.Values - old(killing.Values))
      ensures Removal(remove, peers, allowed, preferred, babel.dump, chosen)
      ensures Sys() == BeganOne(old(Sys()), chosen, babel.dump, now, period)
    {
      chosen := None;
      if remove {
        ghost var candidates;
        chosen, candidates := RemoveSomeTunnels(now);
      }
    }

    // ---- the life of a tunnel -------------------------------------------------------------

    /** `refresh` of one connection whose process has died: 0 when another address is tried. */
    method RetryTunnel(p: Bits) returns (status: int)
      requires Valid() && p in conn
      modifies this`conn
      ensures Valid() && conn.Keys == old(conn).Keys
      ensures status == if old(conn)[p].retry.None? then 1 else if Retried(old(conn)[p]).None? then -1 else 0
      ensures conn == if status == 0 then old(conn)[p := Retried(old(conn)[p]).value] else old(conn)
    {
      var c := conn[p];
      if c.retry.None? {
        return 1;
      }
      if c.addresses <= c.retry.value {
        return -1;
      }
      var c' := c.(retry := Some(c.retry.value + 1));
      conn := conn[p := c'];
      status := 0;
    }

    /** Whether a tunnel that had been established is dead. `dead` are those whose process
        has ended. */
    method CleanDeads(dead: set<Bits>, now: nat) returns (lost: bool)
      requires Valid() && ValidKilling()
      modifies this`conn, this`free, this`used, this`killing, killing.Values
      ensures Valid() && ValidKilling() && killing.Values <= old(killing.Values)
      ensures Cleaned(old(conn), dead, {}, conn)
      ensures lost <==> exists p :: p in old(conn) && p in dead && old(conn)[p].retry.None?
    {
      lost := false;
      var todo := conn.Keys;
      while todo != {}
        invariant Valid() && ValidKilling() && killing.Values <= old(killing.Values)
        invariant todo <= old(conn).Keys && Cleaned(old(conn), dead, todo, conn)
        invariant lost <==> exists p :: p in old(conn) && p !in todo && p in dead && old(conn)[p].retry.None?
        decreases todo
      {
        var p :| p in todo;
        if p in dead {
          lost := lost || conn[p].retry.None?;
          CleanOne(p, now);
        }
        todo := todo - {p};
      }
    }

    method CleanOne(p: Bits, now: nat)
      requires Valid() && ValidKilling() && p in conn
      modifies this`conn, this`free, this`used, this`killing, killing.Values
      ensures Valid() && ValidKilling() && killing.Values <= old(killing.Values)
      ensures var c := Retried(old(conn)[p]);
              conn == if c.None? then old(conn) - {p} else old(conn)[p := c.value]
    {
      ghost var s := Sys();
      var status := RetryTunnel(p);
      Keep(s);
      if status != 0 {
        var _ := KillTunnel(p, now);
      }
    }

    /** Kill, with what it keeps. */
    method KillTunnel(prefix: Bits, now: nat) returns (found: bool)
      requires Valid() && ValidKilling()
      modifies this`conn, this`free, this`used, this`killing, killing.Values
      ensures Valid() && ValidKilling() && killing.Values <= old(killing.Values)
      ensures conn == old(conn) - {prefix}
      ensures Sys() == AbortedOne(old(Sys()), prefix, now, period)
    {
      ghost var s := AbortedOne(Sys(), prefix, now, period);
      AbortSound(Sys(), prefix, now, period, slack);
      AbortTunnelled(Sys(), conn.Keys, prefix, now, period);
      Peers();
      found := Kill(prefix, now);
      Keep(s);
    }

    /** The process of a tunnel tells that it is established, `serial` being that of the
        certificate of the other end. */
    method Connected(p: Bits, serial: nat, crl: set<nat>, now: nat)
      requires Valid() && ValidKilling() && p in conn
      modifies this`conn, this`free, this`used, this`killing, killing.Values
      ensures Valid() && ValidKilling() && killing.Values <= old(killing.Values)
      ensures conn == if serial in crl then old(conn) - {p} else
                        old(conn)[p := old(conn)[p].(retry := None, serial := Some(serial))]
    {
      if serial in crl {
        var _ := KillTunnel(p, now);
      } else {
        ghost var s := Sys();
        var c := conn[p].(retry := None, serial := Some(serial));
        conn := conn[p := c];
        Keep(s);
      }
    }

    /** A peer opens a tunnel to this node. Of two tunnels that cross, the one that is kept
        is the one opened by the node whose prefix is greater. */
    method ClientConnect(p: Bits, iface: int, serial: nat, crl: set<nat>, now: nat) returns (accepted: bool)
      requires Valid() && ValidKilling()
      modifies this`served, this`conn, this`free, this`used, this`killing, killing.Values
      ensures Valid() && ValidKilling() && killing.Values <= old(killing.Values)
      ensures accepted <==> serial !in crl
      ensures served == if accepted then old(served)[p := Serials(old(served), p)[iface := serial]] else old(served)
      ensures conn == if accepted && Less(own, p) then old(conn) - {p} else old(conn)
    {
      accepted := serial !in crl;
      if accepted {
        Serve(p, iface, serial);
        if Less(own, p) {
          DropTunnel(p, now);
        }
      }
    }

    method Serve(p: Bits, iface: int, serial: nat)
      requires Valid() && ValidKilling()
      modifies this`served
      ensures Valid() && ValidKilling()
      ensures served == old(served)[p := Serials(old(served), p)[iface := serial]]
    {
      ghost var s := Sys();
      served := served[p := Serials(served, p)[iface := serial]];
      Keep(s);
    }

    method DropTunnel(p: Bits, now: nat)
      requires Valid() && ValidKilling()
      modifies this`conn, this`free, this`used, this`killing, killing.Values
      ensures Valid() && ValidKilling() && killing.Values <= old(killing.Values)
      ensures conn == old(conn) - {p}
    {
      if p in conn {
        var _ := KillTunnel(p, now);
      } else {
        assert conn - {p} == conn;
      }
    }

    /** The tunnel opened by a peer is closed: the killing of it is aborted. raised when the
        interface of a killer is unknown. */
    method ClientDisconnect(p: Bits, iface: nat, now: nat) returns (raised: bool)
      requires ValidKilling()
      modifies this`served, this`killing, killing.Values
      ensures ValidKilling() && killing.Values <= old(killing.Values)
      ensures raised <==> iface in Serials(old(served), p) && Unknown(old(Sys()), p, babel.dump)
      ensures served == if iface in Serials(old(served), p) then Unserved(old(served), p, iface) else old(served)
      ensures Sys() == if iface in Serials(old(served), p)
              then ClosedEffect(old(Sys()), p, iface, babel.dump, now, period)
              else old(Sys())
    {
      raised := false;
      if iface in Serials(served, p) {
        Unserve(p, iface);
        raised := AbortOver(p, iface, now);
      }
    }

    method Unserve(p: Bits, iface: nat)
      requires ValidKilling() && iface in Serials(served, p)
      modifies this`served
      ensures ValidKilling() && Sys() == old(Sys()) && served == Unserved(old(served), p, iface)
    {
      ghost var s := Sys();
      served := Unserved(served, p, iface);
      Keep(s);
    }

    method AbortOver(p: Bits, iface: nat, now: nat) returns (raised: bool)
      requires ValidKilling()
      modifies this`killing, killing.Values
      ensures ValidKilling() && killing.Values <= old(killing.Values)
      ensures raised <==> Unknown(old(Sys()), p, babel.dump)
      ensures Sys() == ClosedEffect(old(Sys()), p, iface, babel.dump, now, period)
    {
      ghost var s := ClosedEffect(Sys(), p, iface, babel.dump, now, period);
      AbortSound(Sys(), p, now, period, slack);
      AbortTunnelled(Sys(), conn.Keys, p, now, period);
      Peers();
      raised := AbortTunnelKiller(p, Some(iface), now);
      Keep(s);
    }

    method KillAll(now: nat)
      requires Valid() && ValidKilling()
      modifies this`conn, this`free, this`used, this`killing, killing.Values
      ensures Valid() && ValidKilling() && conn == map[]
    {
      while conn != map[]
        invariant Valid() && ValidKilling() && killing.Values <= old(killing.Values)
        decreases conn.Keys
      {
        var p :| p in conn;
        var _ := KillTunnel(p, now);
      }
    }

    /** Once all tunnels are killed, every interface is deleted. */
    method DelInterfaces()
      requires Valid() && conn == map[]
      modifies this`free, this`unmade
      ensures Valid() && free == [] && multiset(unmade) == multiset(Below(clientCount))
    {
      NoneUsed(used, conn);
      while free != []
        invariant Valid()
        decreases |free|
      {
        Unmake(unmade, free, used, conn, clientCount);
        unmade := [free[|free| - 1]] + unmade;
        free := free[..|free| - 1];
      }
    }

    method CloseTunnel(prefix: Bits)
      requires Valid()
      modifies this`conn, this`free, this`used
      ensures Valid() && conn == old(conn) - {prefix} && conn.Keys == old(conn).Keys - {prefix}
      ensures Sys() == old(Sys())
    {
      if prefix in conn {
        GiveBack(unmade, free, used, conn, clientCount, prefix);
        FreeInterface(conn[prefix].iface);
        conn := conn - {prefix};
      } else {
        assert conn - {prefix} == conn;
      }
    }
  }

  /** The interfaces over which a peer is served, with the serial of its certificate. */
  function Serials(served: map<Bits, map<int, nat>>, p: Bits): map<int, nat> {
    if p in served then served[p] else map[]
  }

  /** A peer that is no longer served over any interface is forgotten. */
  function Unserved(served: map<Bits, map<int, nat>>, p: Bits, iface: int): (r: map<Bits, map<int, nat>>)
    requires iface in Serials(served, p)
    ensures forall q :: Serials(r, q) == if q == p then Serials(served, q) - {iface} else Serials(served, q)
    ensures p in r ==> r[p] != map[]
  {
    if served[p] - {iface} == map[] then served - {p} else served[p := served[p] - {iface}]
  }

  /** What becomes of the tunnels not in todo: those that are dead are retried or killed. */
  ghost predicate Cleaned(conn: Connections, dead: set<Bits>, todo: set<Bits>, conn': Connections) {
    && (forall p :: p in conn' ==> p in conn)
    && (forall p :: p in conn && (p in todo || p !in dead) ==> p in conn' && conn'[p] == conn[p])
    && (forall p :: p in conn && p !in todo && p in dead ==>
          if Retried(conn[p]).None? then p !in conn' else p in conn' && conn'[p] == Retried(conn[p]).value)
  }

  /** What a message about killing does to the killers. */
  function MessageEffect(s: System, p: Bits, code: nat, served: set<Bits>, d: Dump, now: nat, period: nat): System {
    if KillAgreed(s, p, code) then AbortedOne(s, p, now, period)
    else if p !in s.killing && code == 2 && p in served then Began(s, p, false, d, now, period)
    else s
  }

  lemma MessageKept(s: System, p: Bits, code: nat, served: set<Bits>, d: Dump, now: nat, period: nat, slack: nat,
                    conn: set<Bits>)
    requires Sound(s, period, slack) && Tunnelled(s, conn)
    ensures var s' := MessageEffect(s, p, code, served, d, now, period);
            Sound(s', period, slack) && Tunnelled(s', if KillAgreed(s, p, code) then conn - {p} else conn)
  {
    AbortSound(s, p, now, period, slack);
    AbortTunnelled(s, conn, p, now, period);
    if p !in s.killing {
      BeginSound(s, p, false, d, now, period, slack);
      BeginTunnelled(s, conn, p, false, d, now, period);
    }
  }

  lemma DumpKept(s: System, d: Dump, t: nat, now: nat, period: nat, slack: nat, s': System,
                 chosen: Option<Bits>, conn: set<Bits>)
    requires Sound(s, period, slack) && Tunnelled(s, conn)
    requires t <= now <= t + slack && Dumped(s, d, t, now, period, s')
    requires chosen.Some? ==> chosen.value in conn && chosen.value !in s'.killing
    ensures var s'' := BeganOne(s', chosen, d, now, period);
            Sound(s'', period, slack) && Tunnelled(s'', conn)
  {
    DumpSound(s, d, t, now, period, slack, s');
    if chosen.Some? {
      BeginSound(s', chosen.value, true, d, now, period, slack);
      BeginTunnelled(s', conn, chosen.value, true, d, now, period);
    }
  }

  ghost predicate KillersDumped(s0: System, d: Dump, t: nat, now: nat, period: nat, s: System,
                                messages: map<Bits, nat>)
  {
    Dumped(s0, d, t, now, period, s) && Told(s0, d, t, {}, messages)
  }

  ghost predicate Removal(remove: bool, peers: set<Bits>, allowed: nat, preferred: set<Bits>, d: Dump,
                          chosen: Option<Bits>)
  {
    if remove then Chosen(peers, allowed, preferred, d, chosen) else chosen == None
  }

  /** The killing of the chosen tunnel, if any, begins. */
  function BeganOne(s: System, chosen: Option<Bits>, d: Dump, now: nat, period: nat): System {
    if chosen.Some? then Began(s, chosen.value, true, d, now, period) else s
  }

  type Score = Option<(bool, nat)>

  predicate Worse(a: Score, b: Score) {
    b.Some? && (a.None? || (!a.value.0 && b.value.0) || (a.value.0 == b.value.0 && a.value.1 < b.value.1))
  }

  /** The score of a tunnel, None for the one without a known neighbour. */
  function TunnelScore(p: Bits, preferred: set<Bits>, d: Dump): Score {
    if p !in d.neighbours || d.neighbours[p].routes == {} then None
    else Some((p in preferred, |d.neighbours[p].routes|))
  }

  predicate HasRoutes(p: Bits, d: Dump) { p in d.neighbours && d.neighbours[p].routes != {} }

  /** q is not less useful than p: one without routes is the least useful; then come those
      that are not preferred, and those with fewer routes. */
  predicate NotLessUseful(q: Bits, p: Bits, preferred: set<Bits>, d: Dump) {
    HasRoutes(p, d) ==>
      && HasRoutes(q, d) && (p in preferred ==> q in preferred)
      && ((p in preferred <==> q in preferred) ==> |d.neighbours[p].routes| <= |d.neighbours[q].routes|)
  }

  /** No tunnel is less useful than that of p. */
  ghost predicate Least(p: Bits, peers: set<Bits>, preferred: set<Bits>, d: Dump) {
    p in peers && forall q :: q in peers ==> NotLessUseful(q, p, preferred, d)
  }

  /** Comparing scores compares the use of tunnels. */
  lemma ScoresCompare(q: Bits, p: Bits, preferred: set<Bits>, d: Dump)
    ensures Worse(TunnelScore(q, preferred, d), TunnelScore(p, preferred, d)) <==> !NotLessUseful(q, p, preferred, d)
  {
  }

  /** One candidate more: the less useful of the two is the least useful of all. */
  lemma LeastOfMore(p: Bits, q: Bits, peers: set<Bits>, preferred: set<Bits>, d: Dump)
    requires Least(p, peers, preferred, d)
    ensures var worse := Worse(TunnelScore(q, preferred, d), TunnelScore(p, preferred, d));
            Least(if worse then q else p, peers + {q}, preferred, d)
  {
    ScoresCompare(q, p, preferred, d);
  }

  /** A tunnel is chosen when they are as many as allowed, and not just the preferred ones:
      the least useful one. */
  ghost predicate Chosen(peers: set<Bits>, allowed: nat, preferred: set<Bits>, d: Dump, chosen: Option<Bits>) {
    && (chosen.Some? <==> allowed <= |peers| && peers != preferred)
    && (chosen.Some? ==> Least(chosen.value, peers, preferred, d))
  }

  /** A peer agrees to the killing that this node asked for. */
  predicate KillAgreed(s: System, p: Bits, code: nat) {
    code == 3 && p in s.killing && s.killing[p].state == Locked
  }

  /** A killer of a tunnel that the peer p has opened, once it has locked. */
  function ServedKiller(p: Bits, n: Neighbour, state: State, timeout: nat): Killer {
    Killer(p, false, state, timeout, n.link, n.cost, 0, None)
  }

  /** A dump without the peer, whose link is reported locked or not. */
  function Without(locked: set<Link>): Dump { Dump(map[], None, locked, map[]) }

  /** A peer that this node serves asks for the killing of its tunnel, which then gets locked
      at two dumps. If that peer then sends an agreement, although it is the one that asked,
      there is no tunnel to kill. */
  lemma AgreedWithoutTunnel(p: Bits, n: Neighbour)
    ensures var d := Dump(map[p := n], None, {}, map[]);
            var s0, s1 := System(map[], []), Began(System(map[], []), p, false, d, 0, 60);
            var s2 := System(map[p := ServedKiller(p, n, HardLocking, 120)], s1.sent + [Order(p, n.link, 0, HardLock)]);
            var s3 := System(map[p := ServedKiller(p, n, Locked, 130)], s2.sent);
            && Run([s0, s1, s2, s3],
                   [Begin(p, false, d, 0), DumpArrived(Without({}), 5, 5), DumpArrived(Without({n.link}), 10, 10)],
                   60, 0)
            && KillAgreed(s3, p, 3) && Tunnelled(s3, {})
  {
    var d := Dump(map[p := n], None, {}, map[]);
    var s0, s1 := System(map[], []), Began(System(map[], []), p, false, d, 0, 60);
    var k1, k2, k3 := ServedKiller(p, n, SoftLocking, 120), ServedKiller(p, n, HardLocking, 120),
                      ServedKiller(p, n, Locked, 130);
    var s2 := System(map[p := k2], s1.sent + [Order(p, n.link, 0, HardLock)]);
    var s3 := System(map[p := k3], s2.sent);
    assert s1.killing == map[p := k1];
    assert s3.sent == s2.sent + [];
    OneDumped(k1, p, s1.sent, Without({}), 5, 60);
    OneDumped(k2, p, s2.sent, Without({n.link}), 10, 60);
  }

  /** A dump treats the only killer there is. */
  lemma OneDumped(k: Killer, p: Bits, sent: seq<Order>, d: Dump, t: nat, period: nat)
    requires k.peer == p && !GoneAt(k, t)
    ensures var (k', more) := Called(k, d, t, period);
            Dumped(System(map[p := k], sent), d, t, t, period, System(map[p := k'], sent + more))
  {
    var s := System(map[p := k], sent);
    DumpBegins(s, d, t, t, period);
    DumpNext(s, d, t, t, period, {p}, s, p);
    assert s.killing.Keys == {p};
  }

  /** The node n when a dump has been treated, up to the choice of a tunnel to kill. */
  function AfterDump(n: TunnelRestoring.Node, d: Dump, t: nat, s: System): TunnelRestoring.Node {
    TunnelRestoring.Node(s, d, None, TunnelRestoring.RemovedAt(n.system, t))
  }

  /** What `BabelDump` does to the killers leaves every link put back exactly when the dump is
      not stale for the tunnel chosen, which it is not when that tunnel had no killer before
      or one that had not locked. */
  lemma DumpPutsBack(base: TunnelRestoring.Base, ends: TunnelRestoring.Ends, n: TunnelRestoring.Node, d: Dump,
                     t: nat, now: nat, seen: seq<Order>, period: nat, slack: nat, s: System,
                     messages: map<Bits, nat>, remove: bool, peers: set<Bits>, allowed: nat, preferred: set<Bits>,
                     chosen: Option<Bits>)
    requires TunnelRestoring.Kept(base, ends, n, period, slack) && TunnelRestoring.PutBack(base, n.system)
    requires n.asked.Some? && TunnelRestoring.Truthful(base, ends, d, n.asked.value, seen, n.system.sent)
    requires t <= now <= t + slack && KillersDumped(n.system, d, t, now, period, s, messages)
    requires Removal(remove, peers - s.killing.Keys, allowed, preferred, d, chosen)
    ensures TunnelRestoring.PutBack(base, BeganOne(s, chosen, d, now, period)) <==>
            !(chosen.Some? && TunnelRestoring.Stale(AfterDump(n, d, t, s), chosen.value))
    ensures chosen.Some? && TunnelRestoring.Idle(n.system, chosen.value) ==>
              TunnelRestoring.PutBack(base, BeganOne(s, chosen, d, now, period))
  {
    var n1, arrive := AfterDump(n, d, t, s), TunnelRestoring.Arrive(d, t, now, seen);
    TunnelRestoring.DoesKeeps(base, ends, n, arrive, n1, period, slack);
    TunnelRestoring.StepPutsBack(base, ends, n, arrive, n1, period, slack);
    if chosen.Some? {
      var start := TunnelRestoring.Start(chosen.value, true, now);
      var n2 := n1.(system := Began(s, chosen.value, true, d, now, period));
      TunnelRestoring.StepPutsBack(base, ends, n1, start, n2, period, slack);
    }
  }

  /** The contract of `BabelDump` does not prevent it: a node that may have one tunnel has a
      killer of it that goes at this dump, and chooses the same tunnel again. */
  lemma ChosenAgain(p: Bits, l: Link, m: nat)
    requires m != 4096
    ensures var d, s := TunnelRestoring.Single(p, l, 4096),
                        System(map[p := TunnelRestoring.Locker(p, l, m, 0)], [TunnelRestoring.Lock(p, l, m)]);
            var s' := System(map[], [TunnelRestoring.Lock(p, l, m), Order(p, l, m, Restore)]);
            && KillersDumped(s, d, 121, 121, 60, s', map[])
            && Removal(true, {p} - s'.killing.Keys, 1, {}, d, Some(p))
            && TunnelRestoring.Stale(TunnelRestoring.Node(s', d, None, TunnelRestoring.RemovedAt(s, 121)), p)
  {
    var lock := TunnelRestoring.Lock(p, l, m);
    var d, k := TunnelRestoring.Single(p, l, 4096), TunnelRestoring.Locker(p, l, m, 0);
    assert [lock] + [Order(p, l, m, Restore)] == [lock, Order(p, l, m, Restore)];
    assert Least(p, {p}, {}, d);
    var none: map<Bits, Killer> := map[];
    assert {p} - none.Keys == {p};
  }

  /** A peer asks for the killing of the tunnel that it has opened, and its interface is gone
      at the next dump: then the end of that tunnel finds no name for it. */
  lemma InterfaceGone(p: Bits, n: Neighbour, iface: nat)
    ensures var d := Dump(map[p := n], None, {}, map[n.link.ifindex := iface]);
            var s0, s1 := System(map[], []), Began(System(map[], []), p, false, d, 0, 60);
            var s2 := System(map[p := ServedKiller(p, n, HardLocking, 120)], s1.sent + [Order(p, n.link, 0, HardLock)]);
            && Run([s0, s1, s2], [Begin(p, false, d, 0), DumpArrived(Without({}), 5, 5)], 60, 0)
            && !Unknown(s1, p, d) && Unknown(s2, p, Without({}))
  {
    var d := Dump(map[p := n], None, {}, map[n.link.ifindex := iface]);
    var s0, s1 := System(map[], []), Began(System(map[], []), p, false, d, 0, 60);
    var k1 := ServedKiller(p, n, SoftLocking, 120);
    assert s1.killing == map[p := k1];
    OneDumped(k1, p, s1.sent, Without({}), 5, 60);
  }

  lemma AbortTunnelled(s: System, conn: set<Bits>, p: Bits, now: nat, period: nat)
    requires Tunnelled(s, conn)
    ensures Tunnelled(AbortedOne(s, p, now, period), conn - {p})
  {
  }

  lemma BeginTunnelled(s: System, conn: set<Bits>, p: Bits, client: bool, d: Dump, now: nat, period: nat)
    requires Tunnelled(s, conn) && (client ==> p in conn)
    ensures Tunnelled(Began(s, p, client, d, now, period), conn)
  {
  }

  function ClosedEffect(s: System, p: Bits, iface: nat, d: Dump, now: nat, period: nat): System {
    if Concerns(s, p, iface, d) then AbortedOne(s, p, now, period) else s
  }

  /** The end of a tunnel concerns only a killer that has locked over that very interface, or has
      not locked yet: the one is being undone from then on, the other one is forgotten. */
  lemma ClosedOnlyItsOwn(s: System, p: Bits, iface: nat, d: Dump, now: nat, period: nat)
    requires p in s.killing && s.killing[p].state != Unlocking
    ensures var s', k := ClosedEffect(s, p, iface, d, now, period), s.killing[p];
            && (k.state == Waiting ==> p !in s'.killing)
            && (k.state != Waiting ==>
                  p in s'.killing && (s'.killing[p].state == Unlocking <==>
                                        k.link.ifindex in d.interfaces && d.interfaces[k.link.ifindex] == iface))
            && s'.sent == s.sent
            && forall q :: q != p && q in s.killing ==> q in s'.killing && s'.killing[q] == s.killing[q]
  {
  }

  /** The killer of p has locked over an interface that the dump does not name. */
  predicate Unknown(s: System, p: Bits, d: Dump) {
    p in s.killing && s.killing[p].state != Waiting && s.killing[p].link.ifindex !in d.interfaces
  }

  /** Whether the killer of p has locked over that interface, or not at all. */
  predicate Concerns(s: System, p: Bits, iface: nat, d: Dump) {
    && p in s.killing
    && (s.killing[p].state != Waiting ==>
          s.killing[p].link.ifindex in d.interfaces && d.interfaces[s.killing[p].link.ifindex] == iface)
  }
}
