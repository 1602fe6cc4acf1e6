/** The rotation of the key that signs the messages of babeld. The registry publishes at most
    two keys, so that nodes that are one step behind still understand the others. */
module KeyRotation {
  import opened Wrappers

  /** Empty, the key that is not one, means to accept any signature. */
  datatype Key = Empty | Secret(id: nat)

  /** The rows babel_hmac0 .. babel_hmac2 of the configuration table. */
  type Keys = map<nat, Key>

  predicate Set(h: Keys, i: nat) { i in h && h[i] != Empty }

  /** What a node is told: the key it signs with and another one that it accepts. */
  datatype Config = Config(sign: Option<Key>, accept: Option<Key>)

  /** `TooMany` stands for a failure to find a name for a third key, `NotJson` for the failure
      to serialise an empty key. */
  datatype Reply = Served(config: Config) | TooMany | NotJson

  function Updated(h: Keys, k: nat): Keys {
    if Set(h, 0) then
      if Set(h, 1) then h[2 := h[0]] - {0} else h[1 := Secret(k)]
    else if Set(h, 1) then h[0 := h[1]] - {1, 2}
    else h[1 := Secret(k)][2 := Empty]
  }

  /** The keys of the table, in order. */
  function Listed(h: Keys, i: nat): (r: seq<Key>)
    requires i <= 3
    ensures |r| <= i
  {
    if i == 0 then [] else Listed(h, i - 1) + if i - 1 in h then [h[i - 1]] else []
  }

  class KeyTable {
    var hmac: Keys
    var temporary: bool     // whether the configuration has an end of validity
    var version: nat

    constructor ()
      ensures hmac == map[] && !temporary && version == 0
    {
      hmac, temporary, version := map[], false, 0;
    }

    method NewHMAC(i: nat, key: Key)
      modifies this`hmac
      ensures hmac == old(hmac)[i := key]
    {
      hmac := hmac[i := key];
    }

    /** One step of the rotation; random is the key that is drawn if one is needed. */
    method UpdateHMAC(random: nat)
      modifies this
      ensures hmac == Updated(old(hmac), random) && version == old(version) + 1
      ensures temporary <==> Set(hmac, 0) && Set(hmac, 1)
    {
      temporary := false;
      if Set(hmac, 0) {
        if Set(hmac, 1) {
          NewHMAC(2, hmac[0]);
          hmac := hmac - {0};
        } else {
          NewHMAC(1, Secret(random));
          temporary := true;
        }
      } else if Set(hmac, 1) {
        NewHMAC(0, hmac[1]);
        hmac := hmac - {1};
        hmac := hmac - {2};
        assert hmac == Updated(old(hmac), random);
      } else {
        NewHMAC(1, Secret(random));
        NewHMAC(2, Empty);
      }
      version := version + 1;
    }

    /** The part of getNetworkConfig that is about the keys. */
    method GetNetworkConfig() returns (r: Reply)
      ensures r == Answer(hmac)
    {
      var found: seq<Key> := [];
      for i := 0 to 3
        invariant found == Listed(hmac, i)
      {
        if i in hmac {
          found := found + [hmac[i]];
        }
      }
      if |found| > 2 {
        return TooMany;
      }
      if Empty in found {
        return NotJson;
      }
      r := Served(Config(if |found| > 0 then Some(found[0]) else None, if |found| > 1 then Some(found[1]) else None));
    }
  }

  /** What should be published. */
  function Intended(h: Keys): Config {
    var found := Listed(h, 3);
    Config(if |found| > 0 then Some(found[0]) else None, if |found| > 1 then Some(found[1]) else None)
  }

  function Answer(h: Keys): Reply {
    var found := Listed(h, 3);
    if |found| > 2 then TooMany else if Empty in found then NotJson else Served(Intended(h))
  }

  // ---- what babeld accepts ------------------------------------------------------------------

  predicate Signing(c: Config) { c.sign.Some? && c.sign.value != Empty }

  /** Whether a node with configuration c takes the messages of one with configuration d. */
  predicate Accepts(c: Config, d: Config) {
    || !Signing(c)
    || c.accept == Some(Empty)
    || (Signing(d) && (d.sign == c.sign || d.sign == c.accept))
  }

  predicate Mutual(c: Config, d: Config) { Accepts(c, d) && Accepts(d, c) }

  // ---- runs -----------------------------------------------------------------------------------

  datatype Phase =
    | Unset
    | Starting(key: Key)
    | Stable(key: Key)
    | Announced(key: Key, next: Key)
    | Switched(key: Key, previous: Key)

  function Table(p: Phase): Keys {
    match p
    case Unset => map[]
    case Starting(k) => map[1 := k, 2 := Empty]
    case Stable(k) => map[0 := k]
    case Announced(k, next) => map[0 := k, 1 := next]
    case Switched(k, previous) => map[1 := k, 2 := previous]
  }

  function NextPhase(p: Phase, random: nat): Phase {
    match p
    case Unset => Starting(Secret(random))
    case Starting(k) => Stable(k)
    case Stable(k) => Announced(k, Secret(random))
    case Announced(k, next) => Switched(next, k)
    case Switched(k, previous) => Stable(k)
  }

  predicate Secrets(p: Phase) {
    match p
    case Unset => true
    case Starting(k) => k.Secret?
    case Stable(k) => k.Secret?
    case Announced(k, next) => k.Secret? && next.Secret?
    case Switched(k, previous) => k.Secret? && previous.Secret?
  }

  ghost predicate InPhase(h: Keys, p: Phase) { Secrets(p) && h == Table(p) }

  lemma UpdateTurns(p: Phase, random: nat)
    requires Secrets(p)
    ensures Secrets(NextPhase(p, random)) && Updated(Table(p), random) == Table(NextPhase(p, random))
  {
    var h, h' := Updated(Table(p), random), Table(NextPhase(p, random));
    assert h.Keys == h'.Keys;
  }

  /** The tables after each step, from a network that has never had a key or from a new one,
      which gets its key at once. */
  ghost predicate Run(hs: seq<Keys>, randoms: seq<nat>) {
    && |hs| == |randoms| + 1
    && (hs[0] == map[] || exists k :: hs[0] == map[0 := Secret(k)])
    && forall i :: 0 <= i < |randoms| ==> hs[i + 1] == Updated(hs[i], randoms[i])
  }

  /** Each key that is drawn differs from those of the table. */
  ghost predicate AllNew(hs: seq<Keys>, randoms: seq<nat>) {
    forall i :: 0 <= i < |randoms| && i < |hs| ==> Secret(randoms[i]) !in hs[i].Values
  }

  lemma NextIsOther(hs: seq<Keys>, randoms: seq<nat>, i: nat, p: Phase)
    requires Run(hs, randoms) && AllNew(hs, randoms) && i < |hs| && InPhase(hs[i], p)
    ensures p.Announced? ==> p.key != p.next
  {
    if p.Announced? {
      assert 1 in hs[i] && hs[i][1] == p.next && hs[i][0] == p.key;
      assert i > 0;
      var q := PhaseOf(hs, randoms, i - 1);
      assert hs[i] == Table(NextPhase(q, randoms[i - 1]));
      assert q == Stable(p.key) && hs[i - 1][0] == p.key;
      assert p.key in hs[i - 1].Values;
    }
  }

  lemma {:induction false} PhaseOf(hs: seq<Keys>, randoms: seq<nat>, i: nat) returns (p: Phase)
    requires Run(hs, randoms) && i < |hs|
    ensures InPhase(hs[i], p)
    ensures i < |randoms| ==> InPhase(hs[i + 1], NextPhase(p, randoms[i]))
  {
    if i == 0 {
      if hs[0] == map[] {
        p := Unset;
      } else {
        var k :| hs[0] == map[0 := Secret(k)];
        p := Stable(Secret(k));
      }
    } else {
      var q := PhaseOf(hs, randoms, i - 1);
      p := NextPhase(q, randoms[i - 1]);
    }
    if i < |randoms| {
      UpdateTurns(p, randoms[i]);
    }
  }

  lemma PhaseConfig(p: Phase)
    requires Secrets(p)
    ensures Listed(Table(p), 3) == match p
              case Unset => []
              case Starting(k) => [k, Empty]
              case Stable(k) => [k]
              case Announced(k, next) => [k, next]
              case Switched(k, previous) => [k, previous]
  {
    var h := Table(p);
    assert Listed(h, 3) == Listed(h, 2) + if 2 in h then [h[2]] else [];
    assert Listed(h, 2) == Listed(h, 1) + if 1 in h then [h[1]] else [];
    assert Listed(h, 1) == Listed(h, 0) + if 0 in h then [h[0]] else [];
  }

  /** In every run at most two keys are published, and nodes whose configurations are one step
      apart understand each other. */
  lemma NeighboursAgree(hs: seq<Keys>, randoms: seq<nat>, i: nat)
    requires Run(hs, randoms) && i < |hs|
    ensures |Listed(hs[i], 3)| <= 2 && Answer(hs[i]) != TooMany
    ensures i < |randoms| ==> Mutual(Intended(hs[i]), Intended(hs[i + 1]))
  {
    var p := PhaseOf(hs, randoms, i);
    PhaseConfig(p);
    if i < |randoms| {
      PhaseConfig(NextPhase(p, randoms[i]));
    }
  }

  /** Two steps apart they understand each other exactly when the first of them makes stable
      a key that is already in use: there is one, not in the first row. */
  lemma TwoStepsIff(hs: seq<Keys>, randoms: seq<nat>, i: nat)
    requires Run(hs, randoms) && i + 1 < |randoms| && AllNew(hs, randoms)
    ensures Mutual(Intended(hs[i]), Intended(hs[i + 2])) <==> !Set(hs[i], 0) && Set(hs[i], 1)
  {
    var p := PhaseOf(hs, randoms, i);
    var q := NextPhase(p, randoms[i]);
    var r := NextPhase(q, randoms[i + 1]);
    UpdateTurns(q, randoms[i + 1]);
    PhaseConfig(p);
    PhaseConfig(r);
    match p {
      case Unset =>
      case Starting(k) =>
      case Stable(k) => assert hs[i][0] == k && k in hs[i].Values;
      case Announced(k, next) => NextIsOther(hs, randoms, i, p);
      case Switched(k, previous) =>
    }
  }

  // ---- what nodes get -------------------------------------------------------------------------

  /** The configuration of a node that asks for it after every step. */
  function Held(hs: seq<Keys>, i: nat): Config
    requires i < |hs|
  {
    if Answer(hs[i]).Served? then Answer(hs[i]).config
    else if i == 0 then Config(None, None)
    else Held(hs, i - 1)
  }

  /** The one table that cannot be served is that of the first step of a network without a
      key: the nodes keep what they had. */
  lemma {:induction false} HeldIs(hs: seq<Keys>, randoms: seq<nat>, i: nat)
    requires Run(hs, randoms) && i < |hs|
    ensures Answer(hs[i]).Served? <==> !(2 in hs[i] && hs[i][2] == Empty)
    ensures Held(hs, i) == if Answer(hs[i]).Served? then Intended(hs[i]) else Config(None, None)
  {
    var p := PhaseOf(hs, randoms, i);
    PhaseConfig(p);
    if p.Starting? {
      assert i > 0;
      var q := PhaseOf(hs, randoms, i - 1);
      UpdateTurns(q, randoms[i - 1]);
      PhaseConfig(NextPhase(q, randoms[i - 1]));
      PhaseConfig(q);
      HeldIs(hs, randoms, i - 1);
    }
  }

  /** So the configurations that nodes really have before and after a step agree, but for the
      step that follows that first one, where some sign and the others still do not. */
  lemma HeldAgreeIff(hs: seq<Keys>, randoms: seq<nat>, i: nat)
    requires Run(hs, randoms) && i < |randoms|
    ensures Mutual(Held(hs, i), Held(hs, i + 1)) <==> !(2 in hs[i] && hs[i][2] == Empty)
  {
    var p := PhaseOf(hs, randoms, i);
    PhaseConfig(p);
    PhaseConfig(NextPhase(p, randoms[i]));
    HeldIs(hs, randoms, i);
    HeldIs(hs, randoms, i + 1);
    NeighboursAgree(hs, randoms, i);
  }

  /** It happens: a network that is given its first key. */
  lemma FirstKeyNotServed()
    ensures var hs := [map[], map[1 := Secret(7), 2 := Empty], map[0 := Secret(7)]];
            && Run(hs, [7, 8]) && Answer(hs[1]) == NotJson
            && Held(hs, 1) == Config(None, None) && Held(hs, 2) == Config(Some(Secret(7)), None)
            && !Accepts(Held(hs, 2), Held(hs, 1))
  {
    var hs := [map[], map[1 := Secret(7), 2 := Empty], map[0 := Secret(7)]];
    UpdateTurns(Unset, 7);
    UpdateTurns(Starting(Secret(7)), 8);
    PhaseConfig(Unset);
    PhaseConfig(Starting(Secret(7)));
    PhaseConfig(Stable(Secret(7)));
    assert Updated(hs[0], 7) == hs[1] && Updated(hs[1], 8) == hs[2];
    assert Held(hs, 1) == Held(hs, 0);
  }
}
