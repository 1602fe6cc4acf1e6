/** The names of the tunnel interfaces of a node, and the tunnels that use them. Name i is the
    (i+1)th interface of the node. */
module TunnelPool {
  import opened Bits
  import opened FiniteSets
  import opened Wrappers

  /** addresses is how many addresses can be tried, retry the number of those tried, None once
      connected; serial is that of the certificate of the peer, when it is known. */
  datatype Connection = Connection(iface: int, addresses: nat, retry: Option<nat>, serial: Option<nat>)

  type Connections = map<Bits, Connection>

  /** The names not yet made, those made but unused, and those in use: each name is exactly
      once in one of the three, and each name in use is that of exactly one connection. */
  ghost predicate Pooled(unmade: seq<int>, free: seq<int>, used: map<int, Bits>, conn: Connections, count: nat) {
    && multiset(unmade) + multiset(free) + multiset(used.Keys) == multiset(Below(count))
    && Matched(used, conn)
  }

  predicate Uses(used: map<int, Bits>, i: int, p: Bits) { i in used && used[i] == p }

  predicate UsedBy(conn: Connections, i: int, p: Bits) { p in conn && conn[p].iface == i }

  /** The names in use and the connections are matched one to one. */
  ghost predicate Matched(used: map<int, Bits>, conn: Connections) {
    forall i, p :: Uses(used, i, p) <==> UsedBy(conn, i, p)
  }

  lemma {:induction false} AsManyUsed(used: map<int, Bits>, conn: Connections)
    requires Matched(used, conn)
    ensures |used| == |conn|
    decreases |conn|
  {
    if conn != map[] {
      var p :| p in conn;
      var i := conn[p].iface;
      assert UsedBy(conn, i, p) && Uses(used, i, p);
      Unmatched(used, conn, i, p);
      AsManyUsed(used - {i}, conn - {p});
    } else {
      assert forall i :: i in used ==> Uses(used, i, used[i]) && UsedBy(conn, i, used[i]);
      assert used == map[];
    }
  }

  lemma Unmatched(used: map<int, Bits>, conn: Connections, i: int, p: Bits)
    requires Matched(used, conn) && Uses(used, i, p)
    ensures Matched(used - {i}, conn - {p})
  {
    assert UsedBy(conn, i, p);
    forall j, q ensures Uses(used - {i}, j, q) <==> UsedBy(conn - {p}, j, q) {
      assert Uses(used, j, q) <==> UsedBy(conn, j, q);
      assert Uses(used, i, q) <==> UsedBy(conn, i, q);
      assert Uses(used, j, p) <==> UsedBy(conn, j, p);
    }
  }

  lemma Matching(used: map<int, Bits>, conn: Connections, i: int, p: Bits, c: Connection)
    requires Matched(used, conn) && i !in used && p !in conn && c.iface == i
    ensures Matched(used[i := p], conn[p := c])
  {
    var u, cs := used[i := p], conn[p := c];
    forall j, q ensures Uses(u, j, q) <==> UsedBy(cs, j, q) {
      assert Uses(used, j, q) <==> UsedBy(conn, j, q);
      assert Uses(used, i, q) <==> UsedBy(conn, i, q);
      assert Uses(used, j, p) <==> UsedBy(conn, j, p);
    }
  }

  lemma {:induction false} AllNames(count: nat)
    ensures Pooled(seq(count, i => i), [], map[], map[], count)
  {
    if count > 0 {
      AllNames(count - 1);
      BelowSize(count - 1);
      assert seq(count, i => i) == seq(count - 1, i => i) + [count - 1];
      assert multiset(seq(count, i => i)) == multiset(Below(count - 1)) + multiset{count - 1};
    }
  }

  /** The names not in use are as many as the connections that can still be made, so that one
      is there whenever one may be taken. */
  lemma NamesLeft(unmade: seq<int>, free: seq<int>, used: map<int, Bits>, conn: Connections, count: nat)
    requires Pooled(unmade, free, used, conn, count)
    ensures |unmade| + |free| + |conn| == count
  {
    AsManyUsed(used, conn);
    BelowSize(count);
    assert |multiset(Below(count))| == count;
    assert |multiset(used.Keys)| == |used|;
    assert |multiset(unmade) + multiset(free) + multiset(used.Keys)| == |unmade| + |free| + |used|;
  }

  /** A name not in use is in one place only. */
  lemma NotUsed(unmade: seq<int>, free: seq<int>, used: map<int, Bits>, conn: Connections, count: nat, x: int)
    requires Pooled(unmade, free, used, conn, count) && (x in unmade || x in free)
    ensures x !in used
  {
    assert multiset(Below(count))[x] <= 1;
    assert (multiset(unmade) + multiset(free) + multiset(used.Keys))[x] ==
           multiset(unmade)[x] + multiset(free)[x] + multiset(used.Keys)[x];
  }

  lemma UseFresh(unmade: seq<int>, free: seq<int>, used: map<int, Bits>, conn: Connections, count: nat, p: Bits,
                 c: Connection)
    requires Pooled(unmade, free, used, conn, count) && unmade != [] && p !in conn && c.iface == unmade[0]
    ensures Pooled(unmade[1..], free, used[c.iface := p], conn[p := c], count)
  {
    NotUsed(unmade, free, used, conn, count, unmade[0]);
    assert unmade == [unmade[0]] + unmade[1..];
    assert used[c.iface := p].Keys == used.Keys + {c.iface};
    Matching(used, conn, c.iface, p, c);
  }

  lemma UseFree(unmade: seq<int>, free: seq<int>, used: map<int, Bits>, conn: Connections, count: nat, p: Bits,
                c: Connection)
    requires Pooled(unmade, free, used, conn, count) && free != [] && p !in conn && c.iface == free[|free| - 1]
    ensures Pooled(unmade, free[..|free| - 1], used[c.iface := p], conn[p := c], count)
  {
    NotUsed(unmade, free, used, conn, count, c.iface);
    assert free == free[..|free| - 1] + [c.iface];
    assert used[c.iface := p].Keys == used.Keys + {c.iface};
    Matching(used, conn, c.iface, p, c);
  }

  lemma GiveBack(unmade: seq<int>, free: seq<int>, used: map<int, Bits>, conn: Connections, count: nat, p: Bits)
    requires Pooled(unmade, free, used, conn, count) && p in conn
    ensures conn[p].iface in used && Pooled(unmade, free + [conn[p].iface], used - {conn[p].iface}, conn - {p}, count)
  {
    var i := conn[p].iface;
    assert UsedBy(conn, i, p) && Uses(used, i, p);
    assert (used - {i}).Keys == used.Keys - {i};
    assert multiset(used.Keys) == multiset((used - {i}).Keys) + multiset{i};
    Unmatched(used, conn, i, p);
  }

  lemma NoneUsed(used: map<int, Bits>, conn: Connections)
    requires Matched(used, conn) && conn == map[]
    ensures used == map[]
  {
    assert forall i :: i in used ==> Uses(used, i, used[i]) && UsedBy(conn, i, used[i]);
  }

  /** What becomes of the connection of a process that has died: None when it is given up,
      which tells that the tunnel had been established when retry is None. */
  function Retried(c: Connection): Option<Connection> {
    if c.retry.None? || c.addresses <= c.retry.value then None
    else Some(c.(retry := Some(c.retry.value + 1)))
  }

  /** An interface that is deleted has its name again among those to be made. */
  lemma Unmake(unmade: seq<int>, free: seq<int>, used: map<int, Bits>, conn: Connections, count: nat)
    requires Pooled(unmade, free, used, conn, count) && free != []
    ensures Pooled([free[|free| - 1]] + unmade, free[..|free| - 1], used, conn, count)
  {
    assert free == free[..|free| - 1] + [free[|free| - 1]];
  }

  /** What becomes of a connection whose process dies n times before it is established. */
  function RetriedTimes(c: Connection, n: nat): Option<Connection> {
    if n == 0 then Some(c)
    else
      var before := RetriedTimes(c, n - 1);
      if before.Some? then Retried(before.value) else None
  }

  /** Every address is tried, and each of them once: the first one when the tunnel is made. */
  lemma {:induction false} EachAddressOnce(c: Connection, n: nat)
    requires c.retry == Some(1) && c.addresses > 0
    ensures RetriedTimes(c, n).Some? <==> n < c.addresses
    ensures n < c.addresses ==> RetriedTimes(c, n).value == c.(retry := Some(n + 1))
  {
    if n > 0 {
      EachAddressOnce(c, n - 1);
    }
  }
}
