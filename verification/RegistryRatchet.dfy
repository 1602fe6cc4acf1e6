/** Authenticated calls to the registry: sessions with a secret that is hashed twice at
    each call, and two remembered secrets for each client. SHA-1 and HMAC are free
    constructors: two of their values are equal only when they are built alike. */
module RegistryRatchet {
  import opened Wrappers


  datatype Key = Seed(n: nat) | H(of: Key)

  datatype Mac = Mac(key: Key, text: string)

  type Prefix = string

  datatype Entry = Entry(key: Key, protocol: nat)

  /** The sessions, with the number of secrets drawn so far and the list of the request
      keys accepted so far. */
  datatype Server = Server(sessions: map<Prefix, seq<Entry>>, drawn: nat, accepted: seq<Key>)

  datatype Event =
    | Hello(cn: Prefix, protocol: nat)
    | Request(cn: Prefix, mac: Mac, path: string)
    | Revoke(cn: Prefix)
    | Restart

  function SeedOf(k: Key): nat {
    match k case Seed(n) => n case H(j) => SeedOf(j)
  }

  function Depth(k: Key): nat {
    match k case Seed(n) => 0 case H(j) => 1 + Depth(j)
  }

  /** Index of the first entry whose key signed the path, or |session|. */
  function Match(session: seq<Entry>, mac: Mac, path: string): (i: nat)
    ensures i <= |session|
    ensures i < |session| ==> Mac(session[i].key, path) == mac
    ensures forall j :: 0 <= j < i ==> Mac(session[j].key, path) != mac
  {
    if session == [] then 0
    else if Mac(session[0].key, path) == mac then 0
    else
      var i := Match(session[1..], mac, path);
      assert forall j :: 1 <= j < i + 1 ==> session[j] == session[1..][j - 1];
      i + 1
  }

  predicate Accepts(s: Server, cn: Prefix, mac: Mac, path: string) {
    cn in s.sessions && Match(s.sessions[cn], mac, path) < |s.sessions[cn]|
  }

  /** The session list after a handshake: the first entry stays, the rest is replaced. */
  function AfterHello(session: seq<Entry>, e: Entry): seq<Entry> {
    (if session == [] then [] else [session[0]]) + [e]
  }

  function Apply(s: Server, e: Event): Server {
    match e
    case Hello(cn, protocol) =>
      var session := if cn in s.sessions then s.sessions[cn] else [];
      Server(s.sessions[cn := AfterHello(session, Entry(Seed(s.drawn), protocol))], s.drawn + 1, s.accepted)
    case Request(cn, mac, path) =>
      if Accepts(s, cn, mac, path) then
        var entry := s.sessions[cn][Match(s.sessions[cn], mac, path)];
        Server(s.sessions[cn := [Entry(H(H(entry.key)), entry.protocol)]], s.drawn, s.accepted + [entry.key])
      else s
    case Revoke(cn) => s.(sessions := s.sessions - {cn})
    case Restart => s.(sessions := map[])
  }

  // ---- no request key is accepted twice ----------------------------------------------

  predicate Holds(s: Server, cn: Prefix, i: nat) { cn in s.sessions && i < |s.sessions[cn]| }

  /** Secrets remembered and accepted come from handshakes of the past. */
  ghost predicate Drawn(s: Server) {
    && (forall cn, i: nat :: Holds(s, cn, i) ==> SeedOf(s.sessions[cn][i].key) < s.drawn)
    && (forall a: nat :: a < |s.accepted| ==> SeedOf(s.accepted[a]) < s.drawn)
  }

  /** Every remembered key is ahead of the accepted keys of its handshake. */
  ghost predicate Ahead(s: Server) {
    forall cn, i: nat, a: nat :: Holds(s, cn, i) && a < |s.accepted| ==>
      SeedOf(s.accepted[a]) == SeedOf(s.sessions[cn][i].key) ==>
        Depth(s.accepted[a]) < Depth(s.sessions[cn][i].key)
  }

  /** No two remembered keys come from one handshake. */
  ghost predicate Apart(s: Server) {
    forall cn, i: nat, cn', i': nat :: Holds(s, cn, i) && Holds(s, cn', i') && (cn != cn' || i != i') ==>
      SeedOf(s.sessions[cn][i].key) != SeedOf(s.sessions[cn'][i'].key)
  }

  ghost predicate Once(s: Server) {
    forall a: nat, b: nat :: a < b < |s.accepted| ==> s.accepted[a] != s.accepted[b]
  }

  ghost predicate Ratcheted(s: Server) {
    Drawn(s) && Ahead(s) && Apart(s) && Once(s)
  }

  /** After a handshake every remembered key is an old one at the same place, or the new one. */
  lemma HelloEntries(s: Server, cn: Prefix, protocol: nat)
    ensures var t := Apply(s, Hello(cn, protocol));
            forall c, i: nat :: Holds(t, c, i) ==>
              (Holds(s, c, i) && t.sessions[c][i] == s.sessions[c][i])
              || (c == cn && i == |t.sessions[cn]| - 1 && t.sessions[c][i].key == Seed(s.drawn))
  {
  }

  lemma HelloRatcheted(s: Server, cn: Prefix, protocol: nat)
    requires Ratcheted(s)
    ensures Ratcheted(Apply(s, Hello(cn, protocol)))
  {
    var t := Apply(s, Hello(cn, protocol));
    HelloEntries(s, cn, protocol);
    assert Drawn(t);
    HelloApart(s, cn, protocol);
  }

  lemma HelloApart(s: Server, cn: Prefix, protocol: nat)
    requires Drawn(s) && Apart(s)
    ensures Apart(Apply(s, Hello(cn, protocol)))
  {
    var t := Apply(s, Hello(cn, protocol));
    HelloEntries(s, cn, protocol);
    forall c, i: nat, c', i': nat | Holds(t, c, i) && Holds(t, c', i') && (c != c' || i != i')
      ensures SeedOf(t.sessions[c][i].key) != SeedOf(t.sessions[c'][i'].key)
    {
      if Holds(s, c, i) && t.sessions[c][i] == s.sessions[c][i] {
        assert SeedOf(s.sessions[c][i].key) < s.drawn;
      }
    }
  }

  lemma TwoHashes(k: Key)
    ensures SeedOf(H(H(k))) == SeedOf(k) && Depth(H(H(k))) == Depth(k) + 2
  {
    assert SeedOf(H(k)) == SeedOf(k) && Depth(H(k)) == Depth(k) + 1;
  }

  lemma RequestRatcheted(s: Server, cn: Prefix, mac: Mac, path: string)
    requires Ratcheted(s) && Accepts(s, cn, mac, path)
    ensures Ratcheted(Apply(s, Request(cn, mac, path)))
  {
    var m := Match(s.sessions[cn], mac, path);
    TwoHashes(s.sessions[cn][m].key);
    SpentRatcheted(s, Apply(s, Request(cn, mac, path)), cn, m);
  }

  /** The key at m is accepted and takes two steps, the others of that client are forgotten. */
  ghost predicate SpentAt(s: Server, t: Server, cn: Prefix, m: nat) {
    && Holds(s, cn, m) && t.drawn == s.drawn && t.accepted == s.accepted + [s.sessions[cn][m].key]
    && (forall c, i: nat :: Holds(t, c, i) ==>
          if c == cn then
            i == 0 && SeedOf(t.sessions[c][i].key) == SeedOf(s.sessions[cn][m].key)
            && Depth(t.sessions[c][i].key) == Depth(s.sessions[cn][m].key) + 2
          else Holds(s, c, i) && t.sessions[c][i].key == s.sessions[c][i].key)
  }

  lemma SpentRatcheted(s: Server, t: Server, cn: Prefix, m: nat)
    requires Ratcheted(s) && SpentAt(s, t, cn, m)
    ensures Ratcheted(t)
  {
    forall a: nat, b: nat | a < b < |t.accepted| ensures t.accepted[a] != t.accepted[b] {
      assert b < |s.accepted| ==> s.accepted[a] != s.accepted[b];
    }
  }

  lemma {:induction false} StepRatcheted(s: Server, e: Event)
    requires Ratcheted(s)
    ensures Ratcheted(Apply(s, e))
  {
    match e
    case Hello(cn, protocol) => HelloRatcheted(s, cn, protocol);
    case Request(cn, mac, path) => if Accepts(s, cn, mac, path) { RequestRatcheted(s, cn, mac, path); }
    case Revoke(cn) =>
      var t := Apply(s, e);
      forall c, i: nat | Holds(t, c, i) ensures Holds(s, c, i) && t.sessions[c] == s.sessions[c] {}
    case Restart =>
  }

  function Run(s: Server, es: seq<Event>): Server
    decreases |es|
  {
    if es == [] then s else Run(Apply(s, es[0]), es[1..])
  }

  const NEW_SERVER: Server := Server(map[], 0, [])

  lemma {:induction false} RunRatcheted(s: Server, es: seq<Event>)
    requires Ratcheted(s)
    ensures Ratcheted(Run(s, es))
    decreases |es|
  {
    if es != [] {
      StepRatcheted(s, es[0]);
      RunRatcheted(Apply(s, es[0]), es[1..]);
    }
  }

  /** Whatever is sent, lost or replayed, and however often the registry restarts or
      anyone says hello, no request key is accepted twice. */
  lemma NoReplay(es: seq<Event>, a: nat, b: nat)
    requires a < b < |Run(NEW_SERVER, es).accepted|
    ensures Run(NEW_SERVER, es).accepted[a] != Run(NEW_SERVER, es).accepted[b]
  {
    RunRatcheted(NEW_SERVER, es);
  }

  // ---- what the registry remembers of a client ------------------------------------------

  lemma {:induction false} RunLast(s: Server, es: seq<Event>, e: Event)
    ensures Run(s, es + [e]) == Apply(Run(s, es), e)
    decreases |es|
  {
    if es == [] {
      assert (es + [e])[1..] == [];
    } else {
      assert (es + [e])[1..] == es[1..] + [e];
      RunLast(Apply(s, es[0]), es[1..], e);
    }
  }

  /** The h-th event was the hello of the client that drew the secret n, with that protocol. */
  predicate HelloAt(es: seq<Event>, h: nat, cn: Prefix, protocol: nat, n: nat) {
    h < |es| && es[h] == Hello(cn, protocol) && Run(NEW_SERVER, es[..h]).drawn == n
  }

  ghost predicate Said(es: seq<Event>, cn: Prefix, protocol: nat, n: nat) {
    exists h: nat :: HelloAt(es, h, cn, protocol, n)
  }

  lemma SaidBefore(es: seq<Event>, e: Event, cn: Prefix, protocol: nat, n: nat)
    requires Said(es, cn, protocol, n)
    ensures Said(es + [e], cn, protocol, n)
  {
    var h: nat :| HelloAt(es, h, cn, protocol, n);
    assert (es + [e])[..h] == es[..h];
    assert HelloAt(es + [e], h, cn, protocol, n);
  }

  /** Each entry has the protocol of the hello that drew the secret of its key. */
  lemma {:induction false} RememberedHello(es: seq<Event>, cn: Prefix, i: nat)
    requires Holds(Run(NEW_SERVER, es), cn, i)
    ensures var entry := Run(NEW_SERVER, es).sessions[cn][i]; Said(es, cn, entry.protocol, SeedOf(entry.key))
    decreases |es|
  {
    if es != [] {
      var front, e := es[..|es| - 1], es[|es| - 1];
      var s := Run(NEW_SERVER, front);
      assert es == front + [e];
      RunLast(NEW_SERVER, front, e);
      if e.Hello? && e.cn == cn && Run(NEW_SERVER, es).sessions[cn][i] == Entry(Seed(s.drawn), e.protocol) {
        assert HelloAt(es, |front|, cn, e.protocol, s.drawn);
      } else {
        var accepted := e.Request? && e.cn == cn && Accepts(s, cn, e.mac, e.path);
        var m := if accepted then Match(s.sessions[cn], e.mac, e.path) else i;
        RememberedHello(front, cn, m);
        TwoHashes(s.sessions[cn][m].key);
        SaidBefore(front, e, cn, s.sessions[cn][m].protocol, SeedOf(s.sessions[cn][m].key));
      }
    }
  }

  /** After an accepted request one entry is left, for the handshake whose key was accepted
      and with the protocol that the client told in it. */
  lemma AcceptedLeavesItsHello(es: seq<Event>, cn: Prefix, mac: Mac, path: string)
    requires Accepts(Run(NEW_SERVER, es), cn, mac, path)
    ensures var t := Run(NEW_SERVER, es + [Request(cn, mac, path)]);
            && cn in t.sessions && |t.sessions[cn]| == 1 && t.accepted != []
            && mac == Mac(t.accepted[|t.accepted| - 1], path)
            && SeedOf(t.sessions[cn][0].key) == SeedOf(t.accepted[|t.accepted| - 1])
            && Said(es + [Request(cn, mac, path)], cn, t.sessions[cn][0].protocol, SeedOf(t.accepted[|t.accepted| - 1]))
  {
    var s, e := Run(NEW_SERVER, es), Request(cn, mac, path);
    RunLast(NEW_SERVER, es, e);
    var k := s.sessions[cn][Match(s.sessions[cn], mac, path)].key;
    TwoHashes(k);
    RememberedHello(es + [e], cn, 0);
  }

  /** Once its certificate is revoked, or the registry has restarted, nothing of a client is
      accepted before the next hello for it. */
  lemma {:induction false} ForgottenRefused(s: Server, cn: Prefix, es: seq<Event>, mac: Mac, path: string)
    requires (cn !in s.sessions || s.sessions[cn] == []) && NoHelloFor(cn, es)
    ensures !Accepts(Run(s, es), cn, mac, path)
    decreases |es|
  {
    if es != [] {
      NoHelloTail(cn, es);
      ForgottenRefused(Apply(s, es[0]), cn, es[1..], mac, path);
    }
  }

  lemma NoHelloTail(cn: Prefix, es: seq<Event>)
    requires es != [] && NoHelloFor(cn, es)
    ensures !(es[0].Hello? && es[0].cn == cn) && NoHelloFor(cn, es[1..])
  {
    forall i | 0 <= i < |es[1..]| ensures es[1..][i] == es[i + 1] {}
  }

  lemma RevokedIsForgotten(s: Server, cn: Prefix, es: seq<Event>, mac: Mac, path: string, e: Event)
    requires (e == Revoke(cn) || e.Restart?) && NoHelloFor(cn, es)
    ensures !Accepts(Run(Apply(s, e), es), cn, mac, path)
  {
    ForgottenRefused(Apply(s, e), cn, es, mac, path);
  }

  // ---- a client in step with the registry --------------------------------------------

  /** The client's next key is the first one that the registry remembers for it. */
  predicate InStep(s: Server, cn: Prefix, key: Option<Key>) {
    key.Some? && cn in s.sessions && s.sessions[cn] != [] && s.sessions[cn][0].key == key.value
  }

  /** What third parties can do to the session of cn: anybody may say hello for it, and
      send requests, but not signed with one of its keys. */
  predicate Foreign(s: Server, cn: Prefix, e: Event) {
    match e
    case Hello(_, _) => true
    case Request(c, mac, path) => c == cn ==> !Accepts(s, cn, mac, path)
    case Revoke(c) => c != cn
    case Restart => false
  }

  predicate AllForeign(s: Server, cn: Prefix, es: seq<Event>)
    decreases |es|
  {
    es == [] || (Foreign(s, cn, es[0]) && AllForeign(Apply(s, es[0]), cn, es[1..]))
  }

  /** Foreign events, however many, leave a client in step. */
  lemma {:induction false} ForeignKeepsInStep(s: Server, cn: Prefix, key: Option<Key>, es: seq<Event>)
    requires InStep(s, cn, key) && AllForeign(s, cn, es)
    ensures InStep(Run(s, es), cn, key)
    decreases |es|
  {
    if es != [] {
      ForeignKeepsInStep(Apply(s, es[0]), cn, key, es[1..]);
    }
  }

  /** A client in step is accepted, and both ends then step by two hashes. */
  lemma InStepAccepted(s: Server, cn: Prefix, key: Option<Key>, path: string)
    requires InStep(s, cn, key)
    ensures Accepts(s, cn, Mac(key.value, path), path)
    ensures InStep(Apply(s, Request(cn, Mac(key.value, path), path)), cn, Some(H(H(key.value))))
  {
    assert Match(s.sessions[cn], Mac(key.value, path), path) == 0;
  }

  predicate NoHelloFor(cn: Prefix, es: seq<Event>) {
    forall i :: 0 <= i < |es| ==> !(es[i].Hello? && es[i].cn == cn)
  }

  /** What foreign events make of a session: without a hello for the client it is untouched,
      with one its first key stays and the others give way to a newer one. */
  lemma {:induction false} SessionAfter(s: Server, cn: Prefix, es: seq<Event>)
    requires cn in s.sessions && s.sessions[cn] != [] && AllForeign(s, cn, es)
    ensures var t := Run(s, es);
            && cn in t.sessions && t.sessions[cn] != [] && t.sessions[cn][0] == s.sessions[cn][0]
            && (NoHelloFor(cn, es) ==> t.sessions[cn] == s.sessions[cn])
            && (!NoHelloFor(cn, es) ==>
                  |t.sessions[cn]| == 2 && t.sessions[cn][1].key.Seed? && t.sessions[cn][1].key.n >= s.drawn)
    decreases |es|
  {
    if es != [] {
      var s1 := Apply(s, es[0]);
      SessionAfter(s1, cn, es[1..]);
    }
  }

  /** The key of a handshake is accepted, after any foreign events, exactly when nobody has
      said hello for the client in between, or the registry had no session before. */
  lemma FreshKeyAccepted(s: Server, cn: Prefix, protocol: nat, es: seq<Event>, path: string)
    requires Ratcheted(s) && AllForeign(Apply(s, Hello(cn, protocol)), cn, es)
    ensures var t := Run(Apply(s, Hello(cn, protocol)), es);
            Accepts(t, cn, Mac(Seed(s.drawn), path), path) <==>
            NoHelloFor(cn, es) || cn !in s.sessions || s.sessions[cn] == []
  {
    var t0 := Apply(s, Hello(cn, protocol));
    var t := Run(t0, es);
    var mac := Mac(Seed(s.drawn), path);
    SessionAfter(t0, cn, es);
    var i := Match(t.sessions[cn], mac, path);
    if cn in s.sessions && s.sessions[cn] != [] {
      assert Holds(s, cn, 0);
    }
    if NoHelloFor(cn, es) {
      assert t.sessions[cn][|t.sessions[cn]| - 1].key == Seed(s.drawn);
    }
  }

  /** A client that starts again while its session goes on: its new key is lost when somebody
      else says hello for it. */
  lemma FreshKeyLost(cn: Prefix, path: string)
    ensures var s := Run(NEW_SERVER, [Hello(cn, 1)]);
            && Ratcheted(s) && AllForeign(Apply(s, Hello(cn, 1)), cn, [Hello(cn, 1)])
            && !Accepts(Run(Apply(s, Hello(cn, 1)), [Hello(cn, 1)]), cn, Mac(Seed(s.drawn), path), path)
  {
    var e := Hello(cn, 1);
    RunRatcheted(NEW_SERVER, [e]);
    var s := Apply(NEW_SERVER, e);
    assert [e][1..] == [] && Run(NEW_SERVER, [e]) == s;
    var t := Apply(s, e);
    assert AllForeign(t, cn, [e]);
    assert !NoHelloFor(cn, [e]) by { assert [e][0] == e; }
    FreshKeyAccepted(s, cn, 1, [e], path);
  }
}
