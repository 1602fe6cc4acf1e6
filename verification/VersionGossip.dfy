/** How nodes learn that the network configuration has changed: versions signed by the registry
    pass from node to node. */
module VersionGossip {
  import opened Bytes
  import IntegerCode
  import opened Wrappers

  /** Version n as it is sent, followed by its signature. */
  ghost function Wire(n: nat, sign: nat -> Octets): Octets
    requires n < IntegerCode.LIMIT
  {
    IntegerCode.Packed(n) + sign(n)
  }

  /** Versions are compared as strings, which compares their numbers. */
  lemma WireOrder(m: nat, n: nat, sign: nat -> Octets)
    requires m < IntegerCode.LIMIT && n < IntegerCode.LIMIT
    ensures Less(Wire(m, sign), Wire(n, sign)) <==> m < n
    ensures Wire(m, sign) == Wire(n, sign) <==> m == n
  {
    if m < n {
      IntegerCode.OrderPreserved(m, n, sign(m), sign(n));
    } else if n < m {
      IntegerCode.OrderPreserved(n, m, sign(n), sign(m));
    } else {
      NotLess(Wire(n, sign));
    }
  }

  lemma {:induction false} NotLess(a: Octets)
    ensures !Less(a, a)
  {
    if a != [] {
      NotLess(a[1..]);
    }
  }

  /** The version of the registry, which starts as the byte 0, not signed. */
  class RegistryVersion {
    var version: Octets

    constructor ()
      ensures version == [0]
    {
      version := [0];
    }

    /** None when there are no more version numbers. */
    method IncreaseVersion(ghost n: nat, ghost rest: Octets, sign: nat -> Octets) returns (ok: bool)
      requires n < IntegerCode.LIMIT && version == IntegerCode.Packed(n) + rest
      modifies this
      ensures ok <==> n + 1 < IntegerCode.LIMIT
      ensures if ok then version == Wire(n + 1, sign) && Less(old(version), version) else version == old(version)
    {
      IntegerCode.UnpackPacked(n, rest);
      var x := IntegerCode.UnpackInteger(version);
      var packed := IntegerCode.PackInteger(1 + x.value);
      ok := packed.Some?;
      if ok {
        IntegerCode.OrderPreserved(n, n + 1, rest, sign(n + 1));
        version := packed.value + sign(1 + x.value);
      }
    }
  }

  /** Whether a message is a version that the registry has issued. Nobody else can sign. */
  ghost predicate Issued(msg: Octets, top: nat, sign: nat -> Octets)
    requires top < IntegerCode.LIMIT
  {
    exists n: nat :: n <= top && msg == Wire(n, sign)
  }

  class Node {
    var version: Octets
    var cached: Octets              // that of the configuration in the cache
    var peers: map<nat, Octets>     // the latest version each peer is known to have
    var pending: bool               // whether the configuration must be fetched

    ghost predicate Has(n: nat, c: nat, sign: nat -> Octets)
      requires n < IntegerCode.LIMIT && c < IntegerCode.LIMIT
      reads this`version, this`cached
    {
      version == Wire(n, sign) && cached == Wire(c, sign)
    }

    constructor (cached: Octets)
      ensures version == cached && this.cached == cached && peers == map[] && !pending
    {
      version, this.cached, peers, pending := cached, cached, map[], false;
    }

    /** A version comes from a peer; verified tells whether the registry has signed it. The
        answer, if any, is a greater version. */
    method Receive(peer: nat, msg: Octets, verified: bool, ghost m: nat, ghost n: nat, ghost c: nat,
                   ghost sign: nat -> Octets)
      returns (answer: Option<Octets>)
      requires n < IntegerCode.LIMIT && c < IntegerCode.LIMIT && Has(n, c, sign)
      requires verified ==> m < IntegerCode.LIMIT && msg == Wire(m, sign)
      modifies this
      ensures cached == old(cached) && peers == old(peers)[peer := version]
      ensures Has(if verified then Larger(m, n) else n, c, sign)
      ensures answer.Some? <==> verified && m < n
      ensures answer.Some? ==> answer.value == version && Less(msg, answer.value)
      ensures pending <==> old(pending) || (verified && n < m)
    {
      answer := None;
      if msg != version && verified {
        WireOrder(m, n, sign);
        if Less(msg, version) {
          answer := Some(version);
        } else {
          version := msg;
          pending := true;
        }
      }
      if verified && msg == old(version) {
        WireOrder(m, n, sign);
      }
      peers := peers[peer := version];
    }

    /** `newVersion`: the registry has served the configuration of version `fetched`, or None. */
    method NewVersion(fetched: Option<Octets>, retry: bool, ghost top: nat, ghost n: nat, ghost c: nat,
                      ghost sign: nat -> Octets)
      requires c <= n <= top < IntegerCode.LIMIT && Has(n, c, sign)
      requires fetched.Some? ==> fetched.value == Wire(top, sign)
      modifies this`version, this`cached, this`pending
      ensures if fetched.Some? then Has(top, top, sign) && !pending
              else Has(n, c, sign) && pending == (old(pending) || retry)
    {
      if fetched.None? {
        pending := pending || retry;
        return;
      }
      pending := false;
      var changed := cached != fetched.value;
      cached := fetched.value;
      if changed {
        version := cached;
      } else {
        WireOrder(c, top, sign);
      }
    }

    /** The version is sent to the neighbours that are not known to have it; asked are those
        to which a datagram could be sent. */
    method BroadcastNewVersion(neighbours: set<nat>, reachable: set<nat>) returns (sent: set<nat>)
      modifies this`peers
      ensures sent <= neighbours * reachable
      ensures forall p :: p in neighbours && p in old(peers) && Less(old(peers)[p], version) && p in reachable ==>
                p in sent
      ensures forall p :: p in sent ==> p in old(peers) && Less(old(peers)[p], version)
      ensures peers.Keys == old(peers).Keys
      ensures forall p :: p in peers ==> peers[p] == if p in sent then version else old(peers)[p]
    {
      sent := {};
      var todo := neighbours;
      while todo != {}
        invariant todo <= neighbours && sent <= (neighbours - todo) * reachable
        invariant forall p ::
                    p in neighbours - todo && p in old(peers) && Less(old(peers)[p], version) && p in reachable ==>
                      p in sent
        invariant forall p :: p in sent ==> p in old(peers) && Less(old(peers)[p], version)
        invariant peers.Keys == old(peers).Keys
        invariant forall p :: p in peers ==> peers[p] == if p in sent then version else old(peers)[p]
        decreases todo
      {
        var p :| p in todo;
        todo := todo - {p};
        if p in peers && Less(peers[p], version) && p in reachable {
          peers := peers[p := version];
          sent := sent + {p};
        }
      }
    }

    /** The node starts again with what the cache has. */
    method Restart()
      modifies this
      ensures version == cached == old(cached) && peers == map[] && !pending
    {
      version, peers, pending := cached, map[], false;
    }
  }

  function Larger(m: nat, n: nat): nat { if m < n then n else m }

  // ---- the network ------------------------------------------------------------------------

  datatype NodeState = NodeState(version: nat, cached: nat)

  /** The number of the version of the registry, and the nodes. */
  datatype Net = Net(top: nat, nodes: map<nat, NodeState>)

  /** A version may be received by any node, any number of times and at any time after its
      issue. */
  datatype Event =
    | Increase
    | Receive(node: nat, m: nat)
    | Fetch(node: nat)
    | Restart(node: nat)

  function Received(s: NodeState, m: nat): NodeState { s.(version := Larger(m, s.version)) }

  function Answer(s: NodeState, m: nat): Option<nat> { if m < s.version then Some(s.version) else None }

  ghost predicate Next(s: Net, e: Event, s': Net) {
    match e
    case Increase => s' == s.(top := s.top + 1)
    case Receive(x, m) => x in s.nodes && m <= s.top && s' == s.(nodes := s.nodes[x := Received(s.nodes[x], m)])
    case Fetch(x) => x in s.nodes && s' == s.(nodes := s.nodes[x := NodeState(s.top, s.top)])
    case Restart(x) => x in s.nodes && s' == s.(nodes := s.nodes[x := NodeState(s.nodes[x].cached, s.nodes[x].cached)])
  }

  ghost predicate Bounded(s: Net) {
    forall x :: x in s.nodes ==> s.nodes[x].cached <= s.nodes[x].version <= s.top
  }

  ghost predicate Run(ss: seq<Net>, es: seq<Event>) {
    && |ss| == |es| + 1 && Bounded(ss[0])
    && forall i {:trigger es[i]} :: 0 <= i < |es| ==> Next(ss[i], es[i], ss[i + 1])
  }

  /** In every run no node is ahead of the registry. */
  lemma {:induction false} NeverAhead(ss: seq<Net>, es: seq<Event>, i: nat)
    requires Run(ss, es) && i < |ss|
    ensures Bounded(ss[i]) && ss[i].nodes.Keys == ss[0].nodes.Keys
  {
    if i > 0 {
      NeverAhead(ss, es, i - 1);
      assert Next(ss[i - 1], es[i - 1], ss[i]);
    }
  }

  /** The version of a node never decreases in a step, unless the node starts again before it
      has fetched the configuration whose version it had learnt. */
  lemma DecreasesIff(ss: seq<Net>, es: seq<Event>, i: nat, x: nat)
    requires Run(ss, es) && i < |es| && x in ss[i].nodes
    ensures x in ss[i + 1].nodes
    ensures ss[i + 1].nodes[x].version < ss[i].nodes[x].version <==>
              es[i] == Restart(x) && ss[i].nodes[x].version != ss[i].nodes[x].cached
  {
    NeverAhead(ss, es, i);
    assert Next(ss[i], es[i], ss[i + 1]);
  }

  lemma {:induction false} TopGrows(ss: seq<Net>, es: seq<Event>, i: nat, j: nat)
    requires Run(ss, es) && i <= j < |ss|
    ensures ss[i].top <= ss[j].top
  {
    if i < j {
      TopGrows(ss, es, i, j - 1);
      assert Next(ss[j - 1], es[j - 1], ss[j]);
    }
  }

  predicate AnsweredAt(s: Net, e: Event, answer: nat) {
    e.Receive? && e.node in s.nodes && Answer(s.nodes[e.node], e.m) == Some(answer)
  }

  /** Steps of a run at which each answer is received in turn: ms[k] is received at the step
      at[k], and answered by ms[k + 1]. */
  ghost predicate Chain(ss: seq<Net>, es: seq<Event>, at: seq<nat>, ms: seq<nat>) {
    && Run(ss, es) && |ms| == |at| + 1
    && (forall k :: 0 <= k < |at| ==> at[k] < |es| && es[at[k]].Receive? && es[at[k]].m == ms[k])
    && (forall k :: 0 <= k < |at| ==> AnsweredAt(ss[at[k]], es[at[k]], ms[k + 1]))
  }

  /** An answer is greater than the message it answers and was issued by the registry, so that
      chains of answers are no longer than the versions that are left. */
  lemma {:induction false} ChainsEnd(ss: seq<Net>, es: seq<Event>, at: seq<nat>, ms: seq<nat>)
    requires Chain(ss, es, at, ms)
    ensures ms[0] + |at| <= ms[|at|] && (at != [] ==> ms[|at|] <= ss[|es|].top)
  {
    if at != [] {
      var k := |at| - 1;
      ChainsEnd(ss, es, at[..k], ms[..k + 1]);
      var i := at[k];
      assert at[..k + 1] == at;
      NeverAhead(ss, es, i);
      TopGrows(ss, es, i, |es|);
    }
  }

  /** A node hears of version 1 and starts again before it has fetched anything. */
  lemma VersionForgotten()
    ensures var before, after := NodeState(0, 0), NodeState(1, 0);
            && Run([Net(0, map[7 := before]), Net(1, map[7 := before]), Net(1, map[7 := after]),
                    Net(1, map[7 := before])],
                   [Increase, Receive(7, 1), Restart(7)])
            && before.version < after.version
  {
    var ss := [Net(0, map[7 := NodeState(0, 0)]), Net(1, map[7 := NodeState(0, 0)]),
               Net(1, map[7 := NodeState(1, 0)]), Net(1, map[7 := NodeState(0, 0)])];
    var es := [Increase, Receive(7, 1), Restart(7)];
    assert ss[2].nodes == ss[1].nodes[7 := Received(ss[1].nodes[7], 1)];
    assert ss[3].nodes == ss[2].nodes[7 := NodeState(0, 0)];
    forall i | 0 <= i < |es| ensures Next(ss[i], es[i], ss[i + 1]) {}
  }
}
