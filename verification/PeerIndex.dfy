/** The sorted list of known peers of a node, looked up by bisection. */
module PeerIndex {
  import opened Bits
  import opened Wrappers

  /** stopDate is None for a peer that never expires. */
  datatype Peer = Peer(prefix: Bits, stopDate: Option<int>, serial: Option<nat>)

  /** Nothing keeps a prefix from being there twice. */
  ghost predicate Sorted(ps: seq<Peer>) {
    forall i, j :: 0 <= i < j < |ps| ==> !Less(ps[j].prefix, ps[i].prefix)
  }

  ghost predicate PrefixFree(ps: seq<Peer>) {
    forall i, j :: 0 <= i < |ps| && 0 <= j < |ps| && ps[i].prefix <= ps[j].prefix ==> i == j
  }

  /** The peer whose prefix begins the address, found by looking at all of them. */
  function Scan(ps: seq<Peer>, address: Bits): (r: Option<nat>)
    ensures r.Some? ==> r.value < |ps| && ps[r.value].prefix <= address
    ensures r.Some? ==> forall i :: r.value < i < |ps| ==> !(ps[i].prefix <= address)
    ensures r.None? ==> forall i :: 0 <= i < |ps| ==> !(ps[i].prefix <= address)
  {
    if ps == [] then None
    else
      var k := |ps| - 1;
      if ps[k].prefix <= address then Some(k) else Scan(ps[..k], address)
  }

  /** i is what `_peers[bisect(_peers, x) - 1]` denotes: the last peer that does not sort
      after x, or, as the index -1 does, the last of all when they all do. */
  ghost predicate Found(ps: seq<Peer>, x: Bits, i: nat) {
    && i < |ps|
    && ((!Less(x, ps[i].prefix) && forall j :: i < j < |ps| ==> Less(x, ps[j].prefix))
        || (i == |ps| - 1 && forall j :: 0 <= j < |ps| ==> Less(x, ps[j].prefix)))
  }

  /** A peer whose prefix begins x is found, unless a prefix longer than its own does not
      sort after x. */
  lemma FoundBegins(ps: seq<Peer>, x: Bits, i: nat, k: nat)
    requires Sorted(ps) && Found(ps, x, i) && k < |ps| && ps[k].prefix <= x
    ensures k <= i && !Less(x, ps[i].prefix) && ps[k].prefix <= ps[i].prefix
  {
    PrefixInterval(ps[k].prefix, ps[k].prefix, x);
    PrefixInterval(ps[k].prefix, ps[i].prefix, x);
    LessTotal(ps[k].prefix, ps[i].prefix);
    LessTotal(x, ps[k].prefix);
  }

  /** Among prefix-free peers the bisection is longest-prefix match, as the scan. */
  lemma FoundIsLongestMatch(ps: seq<Peer>, x: Bits, i: nat)
    requires Sorted(ps) && PrefixFree(ps) && Found(ps, x, i)
    ensures Scan(ps, x).Some? ==> Scan(ps, x).value == i
    ensures Scan(ps, x).None? ==> !(ps[i].prefix <= x)
  {
    if Scan(ps, x).Some? {
      FoundBegins(ps, x, i, Scan(ps, x).value);
    }
  }

  /** Whatever the peers, the one found is the longest match, the last one of it, exactly
      when all later peers below the longest match sort after the address. */
  lemma FoundIff(ps: seq<Peer>, x: Bits, i: nat)
    requires Sorted(ps) && Found(ps, x, i)
    ensures Scan(ps, x).None? ==> !(ps[i].prefix <= x)
    ensures Scan(ps, x).Some? ==>
              var k := Scan(ps, x).value;
              && (forall j :: 0 <= j < |ps| && ps[j].prefix <= x ==> ps[j].prefix <= ps[k].prefix)
              && (i == k <==> forall j :: 0 <= j < |ps| && ps[k].prefix <= ps[j].prefix && k < j ==>
                   Less(x, ps[j].prefix))
  {
    if Scan(ps, x).Some? {
      var k := Scan(ps, x).value;
      FoundBegins(ps, x, i, k);
      forall j: nat | j < |ps| && ps[j].prefix <= x ensures ps[j].prefix <= ps[k].prefix {
        PrefixesOverlap(ps[j].prefix, ps[k].prefix, x);
        NestedLater(ps, k, j);
      }
    }
  }

  /** A longer prefix is later in the list. */
  lemma NestedLater(ps: seq<Peer>, k: nat, j: nat)
    requires Sorted(ps) && j <= k < |ps|
    ensures ps[k].prefix <= ps[j].prefix ==> ps[k].prefix == ps[j].prefix
  {
    if ps[k].prefix <= ps[j].prefix {
      PrefixInterval(ps[k].prefix, [], ps[j].prefix);
      LessTotal(ps[k].prefix, ps[j].prefix);
    }
  }

  /** With nested prefixes it can miss: 0 begins 001, but 000 is found. */
  lemma NestedPrefixMissed()
    ensures var ps := [Peer([false], None, None), Peer([false, false, false], None, None)];
            Sorted(ps) && Found(ps, [false, false, true], 1) && Scan(ps, [false, false, true]) == Some(0)
  {
    var ps := [Peer([false], None, None), Peer([false, false, false], None, None)];
    var x := [false, false, true];
    assert Less([true], [false]) == false && Less([false], [true]);
    assert x[1..] == [false, true] && x[1..][1..] == [true];
    assert ps[1].prefix[1..] == [false, false] && ps[1].prefix[1..][1..] == [false];
    assert Less(ps[0].prefix, ps[1].prefix) by { assert ps[0].prefix[1..] == []; }
    assert !Less(x, ps[1].prefix) by { assert !Less([true], [false]); assert !Less([false, true], [false, false]); }
    assert !(ps[1].prefix <= x) by { assert ps[1].prefix[2] != x[2]; }
    assert ps[..1] == [ps[0]];
  }

  /** No peer has a prefix that overlaps x. */
  ghost predicate Apart(ps: seq<Peer>, x: Bits) {
    forall k :: 0 <= k < |ps| ==> !Overlap(ps[k].prefix, x)
  }

  ghost predicate HasOwn(ps: seq<Peer>, own: Bits) {
    exists i :: 0 <= i < |ps| && ps[i].prefix == own && ps[i].serial.None?
  }

  lemma InsertKeepsOwn(ps: seq<Peer>, p: Peer, n: nat, own: Bits)
    requires n <= |ps| && HasOwn(ps, own)
    ensures HasOwn(Inserted(ps, p, n), own)
  {
    var k :| 0 <= k < |ps| && ps[k].prefix == own && ps[k].serial.None?;
    assert Inserted(ps, p, n)[if k < n then k else k + 1] == ps[k];
  }

  function Inserted(ps: seq<Peer>, p: Peer, n: nat): (r: seq<Peer>)
    requires n <= |ps|
    ensures |r| == |ps| + 1 && r[n] == p
    ensures forall i :: 0 <= i < n ==> r[i] == ps[i]
    ensures forall i :: n < i < |r| ==> r[i] == ps[i - 1]
  {
    ps[..n] + [p] + ps[n..]
  }

  lemma InsertSorted(ps: seq<Peer>, p: Peer, n: nat)
    requires Sorted(ps) && n <= |ps|
    requires forall i :: 0 <= i < n ==> !Less(p.prefix, ps[i].prefix)
    requires forall i :: n <= i < |ps| ==> Less(p.prefix, ps[i].prefix)
    ensures Sorted(Inserted(ps, p, n))
  {
    forall i | n <= i < |ps| ensures !Less(ps[i].prefix, p.prefix) { LessTotal(ps[i].prefix, p.prefix); }
  }

  lemma InsertPrefixFree(ps: seq<Peer>, p: Peer, n: nat)
    requires n <= |ps| && PrefixFree(ps) && Apart(ps, p.prefix)
    ensures PrefixFree(Inserted(ps, p, n))
  {
    var r := Inserted(ps, p, n);
    forall i, j | 0 <= i < |r| && 0 <= j < |r| && r[i].prefix <= r[j].prefix ensures i == j {
      if i != n && j != n {
        assert ps[if i < n then i else i - 1].prefix <= ps[if j < n then j else j - 1].prefix;
      }
    }
  }

  // ---- deletion -----------------------------------------------------------------------

  predicate Expired(p: Peer, now: int) { p.stopDate.Some? && p.stopDate.value < now }

  predicate RevokedBy(p: Peer, crl: set<nat>) { p.serial.Some? && p.serial.value in crl }

  /** The peers not marked for deletion, in order. */
  function Rest(ps: seq<Peer>, gone: seq<bool>): seq<Peer>
    requires |gone| == |ps|
  {
    if ps == [] then [] else (if gone[0] then [] else [ps[0]]) + Rest(ps[1..], gone[1..])
  }

  lemma {:induction false} RestMembers(ps: seq<Peer>, gone: seq<bool>)
    requires |gone| == |ps|
    ensures forall p :: p in Rest(ps, gone) ==> exists i :: 0 <= i < |ps| && !gone[i] && ps[i] == p
    ensures forall i :: 0 <= i < |ps| && !gone[i] ==> ps[i] in Rest(ps, gone)
  {
    if ps != [] {
      RestMembers(ps[1..], gone[1..]);
      forall p | p in Rest(ps, gone) ensures exists i :: 0 <= i < |ps| && !gone[i] && ps[i] == p {
        if p in Rest(ps[1..], gone[1..]) {
          var i :| 0 <= i < |ps[1..]| && !gone[1..][i] && ps[1..][i] == p;
          assert ps[i + 1] == p && !gone[i + 1];
        } else {
          assert ps[0] == p;
        }
      }
      forall i | 0 <= i < |ps| && !gone[i] ensures ps[i] in Rest(ps, gone) {
        if i > 0 { assert ps[1..][i - 1] == ps[i] && !gone[1..][i - 1]; }
      }
    }
  }

  lemma {:induction false} RestSorted(ps: seq<Peer>, gone: seq<bool>)
    requires |gone| == |ps| && Sorted(ps)
    ensures Sorted(Rest(ps, gone))
  {
    if ps != [] {
      RestSorted(ps[1..], gone[1..]);
      RestMembers(ps[1..], gone[1..]);
      var r := Rest(ps[1..], gone[1..]);
      forall j | 0 <= j < |r| ensures !Less(r[j].prefix, ps[0].prefix) {
        assert r[j] in r;
        var i :| 0 <= i < |ps[1..]| && !gone[1..][i] && ps[1..][i] == r[j];
        assert ps[i + 1] == r[j];
      }
    }
  }

  lemma {:induction false} RestPrefixFree(ps: seq<Peer>, gone: seq<bool>)
    requires |gone| == |ps| && PrefixFree(ps)
    ensures PrefixFree(Rest(ps, gone))
  {
    if ps != [] {
      RestPrefixFree(ps[1..], gone[1..]);
      RestMembers(ps[1..], gone[1..]);
      var r := Rest(ps[1..], gone[1..]);
      forall j | 0 <= j < |r| ensures !Overlap(ps[0].prefix, r[j].prefix) {
        assert r[j] in r;
        var i :| 0 <= i < |ps[1..]| && !gone[1..][i] && ps[1..][i] == r[j];
        assert ps[i + 1] == r[j];
      }
    }
  }

  /** What remains is still sorted and prefix-free. */
  lemma {:induction false} RestOrdered(ps: seq<Peer>, gone: seq<bool>)
    requires |gone| == |ps| && Sorted(ps)
    ensures Sorted(Rest(ps, gone))
    ensures PrefixFree(ps) ==> PrefixFree(Rest(ps, gone))
  {
    RestSorted(ps, gone);
    if PrefixFree(ps) {
      RestPrefixFree(ps, gone);
    }
  }

  lemma {:induction false} NothingGone(ps: seq<Peer>, gone: seq<bool>)
    requires |gone| == |ps| && forall i :: 0 <= i < |gone| ==> !gone[i]
    ensures Rest(ps, gone) == ps
  {
    if ps != [] {
      NothingGone(ps[1..], gone[1..]);
    }
  }

  lemma {:induction false} RestSplit(ps: seq<Peer>, gone: seq<bool>, k: nat)
    requires |gone| == |ps| && k <= |ps|
    ensures Rest(ps, gone) == Rest(ps[..k], gone[..k]) + Rest(ps[k..], gone[k..])
  {
    if k > 0 {
      RestSplit(ps[1..], gone[1..], k - 1);
      assert ps[1..][..k - 1] == ps[..k][1..] && gone[1..][..k - 1] == gone[..k][1..];
      assert ps[1..][k - 1..] == ps[k..] && gone[1..][k - 1..] == gone[k..];
    } else {
      assert ps[0..] == ps && gone[0..] == gone;
    }
  }

  /** Deletion from the end: the part from c on is done, and r is the next one before. */
  lemma DeleteBefore(ps: seq<Peer>, gone: seq<bool>, r: nat, c: nat)
    requires |gone| == |ps| && r < c <= |ps| && gone[r] && forall i :: r < i < c ==> !gone[i]
    ensures Rest(ps[r..], gone[r..]) == ps[r + 1..c] + Rest(ps[c..], gone[c..])
  {
    RestSplit(ps[r + 1..], gone[r + 1..], c - r - 1);
    assert ps[r + 1..][..c - r - 1] == ps[r + 1..c] && ps[r + 1..][c - r - 1..] == ps[c..];
    assert gone[r + 1..][c - r - 1..] == gone[c..];
    NothingGone(ps[r + 1..c], gone[r + 1..][..c - r - 1]);
    assert ps[r..][1..] == ps[r + 1..] && gone[r..][1..] == gone[r + 1..];
  }

  /** The peer made for a certificate keeps the peers prefix-free, and is not made when there
      is one, exactly when its prefix is that of a peer or overlaps none. */
  lemma CertificateKeepsPrefixFree(ps: seq<Peer>, address: Bits, prefix: Bits, i: nat, n: nat)
    requires Sorted(ps) && PrefixFree(ps) && Found(ps, address, i) && n <= |ps|
    requires prefix <= address && ps[i].prefix != prefix
    ensures forall k :: 0 <= k < |ps| ==> ps[k].prefix != prefix
    ensures PrefixFree(Inserted(ps, Peer(prefix, None, None), n)) <==> Apart(ps, prefix)
  {
    forall k: nat | k < |ps| ensures ps[k].prefix != prefix {
      if ps[k].prefix == prefix {
        FoundBegins(ps, address, i, k);
      }
    }
    var r := Inserted(ps, Peer(prefix, None, None), n);
    if PrefixFree(r) {
      forall k | 0 <= k < |ps| ensures !Overlap(ps[k].prefix, prefix) {
        assert r[if k < n then k else k + 1] == ps[k];
      }
    }
    if Apart(ps, prefix) {
      InsertPrefixFree(ps, Peer(prefix, None, None), n);
    }
  }

  // ---- the index of a node --------------------------------------------------------------

  class Index {
    const own: Bits                 // the node's own prefix, never deleted
    var peers: seq<Peer>

    ghost predicate Valid()
      reads this
    {
      Sorted(peers) && HasOwn(peers, own)
    }

    constructor (own: Bits, stopDate: Option<int>)
      ensures Valid() && PrefixFree(peers) && peers == [Peer(own, stopDate, None)] && this.own == own
    {
      this.own := own;
      peers := [Peer(own, stopDate, None)];
      new;
      assert peers[0].prefix == own;
    }

    /** `bisect`: how many peers do not sort after x. */
    method Bisect(x: Bits) returns (lo: nat)
      requires Valid()
      ensures lo <= |peers|
      ensures forall i :: 0 <= i < lo ==> !Less(x, peers[i].prefix)
      ensures forall i :: lo <= i < |peers| ==> Less(x, peers[i].prefix)
    {
      lo := 0;
      var hi := |peers|;
      while lo < hi
        invariant lo <= hi <= |peers|
        invariant forall i :: 0 <= i < lo ==> !Less(x, peers[i].prefix)
        invariant forall i :: hi <= i < |peers| ==> Less(x, peers[i].prefix)
      {
        var mid := (lo + hi) / 2;
        if Less(x, peers[mid].prefix) {
          forall i | mid < i < |peers| ensures Less(x, peers[i].prefix) {
            LessNotAfter(x, peers[mid].prefix, peers[i].prefix);
          }
          hi := mid;
        } else {
          forall i | 0 <= i < mid ensures !Less(x, peers[i].prefix) {
            LessNotAfter(x, peers[i].prefix, peers[mid].prefix);
          }
          lo := mid + 1;
        }
      }
    }

    /** `_getPeer`, which takes the last peer when there is none before. */
    method GetPeer(x: Bits) returns (i: nat)
      requires Valid()
      ensures Found(peers, x, i)
      ensures (exists k :: 0 <= k < |peers| && peers[k].prefix == x) <==> peers[i].prefix == x
    {
      var n := Bisect(x);
      i := if n == 0 then |peers| - 1 else n - 1;
      forall k | 0 <= k < |peers| && peers[k].prefix == x ensures peers[i].prefix == x {
        LessTotal(x, x);
        LessTotal(peers[k].prefix, peers[i].prefix);
      }
    }

    /** `insort`, after the peers with the same prefix if there are any. */
    method Insort(p: Peer)
      requires Valid()
      modifies this`peers
      ensures Valid() && exists n: nat :: n <= |old(peers)| && peers == Inserted(old(peers), p, n)
      ensures old(PrefixFree(peers)) && Apart(old(peers), p.prefix) ==> PrefixFree(peers)
    {
      var n := Bisect(p.prefix);
      InsertSorted(peers, p, n);
      InsertKeepsOwn(peers, p, n, own);
      if PrefixFree(peers) && Apart(peers, p.prefix) {
        InsertPrefixFree(peers, p, n);
      }
      peers := peers[..n] + [p] + peers[n..];
    }

    /** The start of `sendto`: the peer with that very prefix, made if there is none. */
    method FindOrAdd(prefix: Bits) returns (i: nat)
      requires Valid()
      modifies this`peers
      ensures Valid() && i < |peers| && peers[i].prefix == prefix
      ensures forall p :: p in old(peers) ==> p in peers
      ensures forall p :: p in peers ==> p in old(peers) || p == Peer(prefix, None, None)
    {
      i := GetPeer(prefix);
      if peers[i].prefix != prefix {
        Insort(Peer(prefix, None, None));
        i := GetPeer(prefix);
        ghost var n: nat :| n <= |old(peers)| && peers == Inserted(old(peers), Peer(prefix, None, None), n);
        assert peers[n].prefix == prefix;
      }
    }

    /** The peer that a certificate for `prefix` sent from `address` belongs to: the one found
        for the address if it has that very prefix, a new one if the address is below the
        prefix, and none otherwise. */
    method PeerOfCertificate(address: Bits, prefix: Bits) returns (r: Option<nat>, ghost found: nat)
      requires Valid()
      modifies this`peers
      ensures Valid() && Found(old(peers), address, found)
      ensures r.Some? ==> r.value < |peers| && peers[r.value].prefix == prefix
      ensures r.Some? <==> old(peers)[found].prefix == prefix || prefix <= address
      ensures if old(peers)[found].prefix == prefix || r.None? then peers == old(peers)
              else exists n: nat :: n <= |old(peers)| && peers == Inserted(old(peers), Peer(prefix, None, None), n)
    {
      var i := GetPeer(address);
      found := i;
      if prefix == peers[i].prefix {
        r := Some(i);
      } else if prefix <= address {
        Insort(Peer(prefix, None, None));
        ghost var n: nat :| n <= |old(peers)| && peers == Inserted(old(peers), Peer(prefix, None, None), n);
        assert peers[n].prefix == prefix;
        i := GetPeer(prefix);
        r := Some(i);
      } else {
        r := None;
      }
    }

    /** Delete the marked peers, the last one first. */
    method DeleteMarked(remove: seq<nat>, ghost gone: seq<bool>)
      requires Valid() && |gone| == |peers|
      requires Collected(remove, gone, |peers|)
      modifies this`peers
      ensures peers == Rest(old(peers), gone)
    {
      var k := |remove|;
      ghost var ps, c: nat := peers, |peers|;
      while k > 0
        invariant 0 <= k <= |remove| && Deleting(ps, gone, remove, k, c, peers)
      {
        k := k - 1;
        DeleteNext(ps, gone, remove, k, c, peers);
        c := remove[k];
        peers := peers[..remove[k]] + peers[remove[k] + 1..];
      }
      NothingGone(ps[..c], gone[..c]);
      RestSplit(ps, gone, c);
    }

    /** The loop of `invalidatePeers`, which stops at the node's own certificate. */
    method CollectExpired(now: int) returns (ok: bool, remove: seq<nat>, next: Option<int>)
      ensures ok <==> !exists i :: 0 <= i < |peers| && peers[i].prefix == own && Expired(peers[i], now)
      ensures ok ==> Collected(remove, ExpiredMarks(peers, now), |peers|)
      ensures ok ==> Earliest(peers, ExpiredMarks(peers, now), |peers|, next)
    {
      next, remove := None, [];
      for i := 0 to |peers|
        invariant Collected(remove, ExpiredMarks(peers, now), i)
        invariant forall j :: 0 <= j < i && Expired(peers[j], now) ==> peers[j].prefix != own
        invariant Earliest(peers, ExpiredMarks(peers, now), i, next)
      {
        if peers[i].stopDate.Some? && peers[i].stopDate.value < now {
          if peers[i].prefix == own {
            return false, remove, next;
          }
          remove := remove + [i];
        } else if peers[i].stopDate.Some? && (next.None? || peers[i].stopDate.value < next.value) {
          next := peers[i].stopDate;
        }
      }
      ok := true;
    }

    /** `invalidatePeers`: false when the node's own certificate has expired, and then
        nothing is deleted; otherwise the date of the next expiry, if any. */
    method InvalidatePeers(now: int) returns (ok: bool, next: Option<int>)
      requires Valid()
      modifies this`peers
      ensures ok <==> !exists i :: 0 <= i < |old(peers)| && old(peers)[i].prefix == own && Expired(old(peers)[i], now)
      ensures !ok ==> peers == old(peers)
      ensures ok ==> Valid() && peers == Rest(old(peers), ExpiredMarks(old(peers), now))
      ensures ok ==> old(PrefixFree(peers)) ==> PrefixFree(peers)
      ensures ok ==> NextExpiry(peers, next)
    {
      var remove;
      ok, remove, next := CollectExpired(now);
      if ok {
        ghost var ps, gone := peers, ExpiredMarks(peers, now);
        DeleteMarked(remove, gone);
        EarliestLeft(ps, gone, next);
        RestOrdered(ps, gone);
        OwnLeft(ps, gone, own);
      }
    }

    /** The deletion in `newVersion` of the peers whose certificate has been revoked. */
    method DropRevoked(crl: set<nat>)
      requires Valid()
      modifies this`peers
      ensures Valid() && peers == Rest(old(peers), RevokedMarks(old(peers), crl))
      ensures old(PrefixFree(peers)) ==> PrefixFree(peers)
    {
      var remove: seq<nat> := [];
      ghost var ps, gone := peers, RevokedMarks(peers, crl);
      for i := 0 to |peers|
        invariant peers == ps && Collected(remove, gone, i)
      {
        if peers[i].serial.Some? && peers[i].serial.value in crl {
          remove := remove + [i];
        }
      }
      DeleteMarked(remove, gone);
      RestOrdered(ps, gone);
      OwnLeft(ps, gone, own);
    }
  }

  function ExpiredMarks(ps: seq<Peer>, now: int): (gone: seq<bool>)
    ensures |gone| == |ps|
  {
    seq(|ps|, i requires 0 <= i < |ps| => Expired(ps[i], now))
  }

  function RevokedMarks(ps: seq<Peer>, crl: set<nat>): (gone: seq<bool>)
    ensures |gone| == |ps|
  {
    seq(|ps|, i requires 0 <= i < |ps| => RevokedBy(ps[i], crl))
  }

  /** remove lists, in order, the positions before i that are marked. */
  ghost predicate Collected(remove: seq<nat>, gone: seq<bool>, i: int) {
    && (forall a, b :: 0 <= a < b < |remove| ==> remove[a] < remove[b])
    && (forall a :: 0 <= a < |remove| ==> remove[a] < i)
    && forall j :: 0 <= j < i && j < |gone| ==> (gone[j] <==> j in remove)
  }

  /** next is the least stop date of the peers before i that are not marked. */
  ghost predicate Earliest(ps: seq<Peer>, gone: seq<bool>, i: int, next: Option<int>)
    requires |gone| == |ps|
  {
    && (next.None? ==> forall j :: 0 <= j < i && j < |ps| && !gone[j] ==> ps[j].stopDate.None?)
    && (next.Some? ==> exists j :: 0 <= j < i && j < |ps| && !gone[j] && ps[j].stopDate == next)
    && (next.Some? ==> forall j :: 0 <= j < i && j < |ps| && !gone[j] && ps[j].stopDate.Some? ==>
          next.value <= ps[j].stopDate.value)
  }

  /** next is the least stop date of all peers, None when none has one. */
  ghost predicate NextExpiry(ps: seq<Peer>, next: Option<int>) {
    && (next.None? ==> forall p :: p in ps ==> p.stopDate.None?)
    && (next.Some? ==> exists p :: p in ps && p.stopDate == next)
    && (next.Some? ==> forall p :: p in ps && p.stopDate.Some? ==> next.value <= p.stopDate.value)
  }

  lemma EarliestLeft(ps: seq<Peer>, gone: seq<bool>, next: Option<int>)
    requires |gone| == |ps| && Earliest(ps, gone, |ps|, next)
    ensures NextExpiry(Rest(ps, gone), next)
  {
    RestMembers(ps, gone);
    if next.Some? {
      var j :| 0 <= j < |ps| && !gone[j] && ps[j].stopDate == next;
      assert ps[j] in Rest(ps, gone);
    }
  }

  lemma OwnLeft(ps: seq<Peer>, gone: seq<bool>, own: Bits)
    requires |gone| == |ps| && HasOwn(ps, own)
    requires forall i :: 0 <= i < |ps| && ps[i].prefix == own && ps[i].serial.None? ==> !gone[i]
    ensures HasOwn(Rest(ps, gone), own)
  {
    RestMembers(ps, gone);
    var k :| 0 <= k < |ps| && ps[k].prefix == own && ps[k].serial.None?;
    assert ps[k] in Rest(ps, gone);
  }

  /** Everything from c on has been treated, and remove[..k] is what is left to delete. */
  ghost predicate Deleting(ps0: seq<Peer>, gone: seq<bool>, remove: seq<nat>, k: int, c: nat, ps: seq<Peer>) {
    && |gone| == |ps0| && 0 <= k <= |remove| && c <= |ps0|
    && ps == ps0[..c] + Rest(ps0[c..], gone[c..])
    && (forall a, b :: 0 <= a < b < |remove| ==> remove[a] < remove[b])
    && (forall i :: 0 <= i < k ==> remove[i] < c && gone[remove[i]])
    && (forall i :: 0 <= i < c && gone[i] ==> exists j :: 0 <= j < k && remove[j] == i)
  }

  lemma DeleteNext(ps0: seq<Peer>, gone: seq<bool>, remove: seq<nat>, k: nat, c: nat, ps: seq<Peer>)
    requires k < |remove| && Deleting(ps0, gone, remove, k + 1, c, ps)
    ensures remove[k] < |ps| && Deleting(ps0, gone, remove, k, remove[k], ps[..remove[k]] + ps[remove[k] + 1..])
  {
    var r := remove[k];
    DeleteBefore(ps0, gone, r, c);
    assert ps[..r] == ps0[..r] && ps[r + 1..] == ps0[r + 1..c] + Rest(ps0[c..], gone[c..]);
  }
}
