/** The two programs that run the protocol: the registry's request handler and the
    client's call loop. */
module RegistryCalls {
  import opened RegistryRatchet
  import opened Wrappers

  datatype Reply =
    | Unauthorized                    // no session, after a restart
    | BadRequest                      // wrong HMAC
    | Failed                          // the called method raised an error, other than 403
    | Result(mac: Mac)                // the result, signed with the key after the request's

  class Registry {
    var sessions: map<Prefix, seq<Entry>>
    var certified: set<Prefix>        // prefixes that hold a certificate
    ghost var drawn: nat
    ghost var accepted: seq<Key>

    ghost function State(): Server
      reads this
    {
      Server(sessions, drawn, accepted)
    }

    constructor (certified: set<Prefix>)
      ensures State() == NEW_SERVER && Ratcheted(State()) && this.certified == certified
    {
      sessions, drawn, accepted := map[], 0, [];
      this.certified := certified;
    }

    /** The secret is a fresh one. */
    method Hello(cn: Prefix, protocol: nat, secret: Key) returns (key: Option<Key>)
      requires secret == Seed(drawn)
      modifies this`sessions, this`drawn
      ensures cn !in certified ==> key.None? && State() == old(State())
      ensures cn in certified ==> key == Some(secret) && State() == Apply(old(State()), Event.Hello(cn, protocol))
    {
      if cn !in certified {
        return None;
      }
      var session := if cn in sessions then sessions[cn] else [];
      sessions := sessions[cn := AfterHello(session, Entry(secret, protocol))];
      drawn := drawn + 1;
      return Some(secret);
    }

    /** `handle_request` for a method with a `cn`; `fails` says whether the method raises,
        `body` is what it returns. */
    method HandleRequest(cn: Prefix, h: Mac, path: string, fails: bool, body: string) returns (reply: Reply)
      modifies this`sessions, this`accepted
      ensures State() == Apply(old(State()), Request(cn, h, path))
      ensures reply == if cn !in old(sessions) then Unauthorized
                       else if !Accepts(old(State()), cn, h, path) then BadRequest
                       else if fails then Failed
                       else Result(Mac(H(h.key), body))
    {
      if cn !in sessions {
        return Unauthorized;
      }
      var session := sessions[cn];
      var i := 0;
      while i < |session| && h != Mac(session[i].key, path)
        invariant i <= |session|
        invariant forall j :: 0 <= j < i ==> h != Mac(session[j].key, path)
      {
        i := i + 1;
      }
      if i == |session| {
        return BadRequest;
      }
      assert Match(session, h, path) == i;
      accepted := accepted + [session[i].key];
      var key := H(session[i].key);
      sessions := sessions[cn := [Entry(H(key), session[i].protocol)]];
      return if fails then Failed else Result(Mac(key, body));
    }
  }

  /** What the network does to an exchange. */
  datatype Fate = RequestLost | ReplyLost | Delivered

  /** What happens during one attempt of a call: to the handshake, if there is one, to
      the request, and whether the called method raises. */
  datatype Attempt = Attempt(hello: Fate, request: Fate, fails: bool)

  predicate Good(a: Attempt) { a.hello.Delivered? && a.request.Delivered? && !a.fails }

  /** How an attempt ends for the client: an exception, a result, or another status. */
  datatype Outcome = Exception | Answer(body: string) | Refused

  class RegistryClient {
    const cn: Prefix
    var hmac: Option<Key>

    constructor (cn: Prefix)
      ensures this.cn == cn && hmac.None?
    {
      this.cn, hmac := cn, None;
    }

    /** The request of one attempt, signed with `key`. */
    method TryRequest(server: Registry, key: Key, query: string, body: string, a: Attempt) returns (r: Outcome)
      requires Ratcheted(server.State())
      modifies this`hmac, server`sessions, server`accepted
      ensures Ratcheted(server.State())
      ensures r.Answer?
              || (r.Exception? && Accepts(old(server.State()), cn, Mac(key, query), query) && a.request.ReplyLost?) ==>
                InStep(server.State(), cn, hmac)
      ensures hmac == Some(H(H(key)))
      ensures server.State() == if a.request.RequestLost? then old(server.State())
                                else Apply(old(server.State()), Request(cn, Mac(key, query), query))
      ensures r == if !a.request.Delivered? then Exception
                   else if Accepts(old(server.State()), cn, Mac(key, query), query) && !a.fails then Answer(body)
                   else Refused
    {
      StepRatcheted(server.State(), Request(cn, Mac(key, query), query));
      var h := Mac(key, query);
      var next := H(key);
      hmac := Some(H(next));
      if a.request.RequestLost? {
        return Exception;
      }
      var reply := server.HandleRequest(cn, h, query, a.fails, body);
      if a.request.ReplyLost? {
        return Exception;
      }
      if reply.Result? && reply.mac == Mac(next, body) {
        return Answer(body);
      }
      return Refused;
    }

    /** The handshake of one attempt: the request that follows will be accepted. */
    method Handshake(server: Registry, protocol: nat, query: string, a: Attempt, secret: Key)
      returns (key: Option<Key>, hellos: nat)
      requires secret == Seed(server.drawn) && Ratcheted(server.State())
      modifies server`sessions, server`drawn
      ensures hellos <= 1 && Ratcheted(server.State())
      ensures key.Some? ==> Accepts(server.State(), cn, Mac(key.value, query), query)
      ensures cn in server.certified && a.hello.Delivered? ==> key.Some?
    {
      if a.hello.RequestLost? {
        return None, 0;
      }
      FreshKeyAccepted(server.State(), cn, protocol, [], query);
      StepRatcheted(server.State(), Event.Hello(cn, protocol));
      key := server.Hello(cn, protocol, secret);
      return if a.hello.ReplyLost? then None else key, 1;
    }

    /** The loop of a call with a `cn`; the second attempt, if there is one, starts with
        a handshake. */
    method Call(server: Registry, protocol: nat, query: string, body: string,
                first: Attempt, second: Attempt, secret: Key)
      returns (result: Option<string>, hellos: nat)
      requires secret == Seed(server.drawn) && Ratcheted(server.State())
      modifies this`hmac, server`sessions, server`drawn, server`accepted
      ensures hellos <= 1 && Ratcheted(server.State())
      ensures result.Some? ==> result.value == body && InStep(server.State(), cn, hmac)
      ensures old(InStep(server.State(), cn, hmac)) && first.request.Delivered? && !first.fails ==>
                result.Some? && hellos == 0
      ensures old(InStep(server.State(), cn, hmac)) && first.request.ReplyLost? ==>
                result.None? && hellos == 0 && InStep(server.State(), cn, hmac)
      ensures cn in server.certified && Good(first) && Good(second) ==> result.Some?
    {
      result, hellos := None, 0;
      var retry, attempt := true, first;
      ghost var fine := InStep(server.State(), cn, hmac);
      while retry
        invariant hellos <= 1 && result.None? && Ratcheted(server.State())
        invariant retry ==> hellos == 0 && secret == Seed(server.drawn)
        invariant retry && hmac.Some? ==> attempt == first && server.State() == old(server.State()) && hmac == old(hmac)
        invariant retry && hmac.None? ==> attempt == second || attempt == first
        invariant (fine && !(retry && hmac.Some?)) ==>
                    !first.request.ReplyLost? && (first.request.Delivered? ==> first.fails)
        invariant !retry && cn in server.certified ==> !Good(first) || !Good(second)
        decreases if retry then (if hmac.Some? then 2 else 1) else 0
      {
        var key := hmac;
        if key.None? {
          retry := false;
          key, hellos := Handshake(server, protocol, query, attempt, secret);
          if key.None? {
            return None, hellos;
          }
        }
        var r := TryRequest(server, key.value, query, body, attempt);
        match r {
          case Answer(b) =>
            return Some(b), hellos;
          case Exception =>
            return None, hellos;
          case Refused =>
            hmac := None;
            attempt := second;
        }
      }
    }
  }
}
