/** The generator of external ports of the UPnP forwarder. */
module PortGenerator {
  import opened Numbers
  import opened FullPeriod

  const MODULUS: nat := 8192
  const FIRST_PORT: nat := 32768

  lemma ModulusIsPowerOfTwo()
    ensures Pow2(13) == MODULUS
  {
    assert Pow2(4) == 16;
    assert Pow2(8) == 256;
    assert Pow2(12) == 4096;
  }

  /** The class attributes of `Forwarder` that the generator uses. */
  class Forwarder {
    var lcgN: nat
    var lcgA: nat
    var lcgC: nat
    ghost var calls: nat      // calls since the seeds were drawn

    ghost predicate Valid()
      reads this
    {
      || (calls == 0 && lcgN == 0)
      || (0 < calls <= MODULUS && GoodSeeds(lcgA, lcgC) && lcgN == Orbit(lcgA, lcgC, MODULUS, calls))
    }

    constructor ()
      ensures Valid() && calls == 0
    {
      lcgN, lcgA, lcgC, calls := 0, 0, 0, 0;
    }

    method Reseed(i: nat, j: nat)
      modifies this`lcgA, this`lcgC, this`calls
      ensures lcgA == 1 + 4 * i && lcgC == 1 + 2 * j && calls == 0
      ensures GoodSeeds(lcgA, lcgC) && Orbit(lcgA, lcgC, MODULUS, calls) == 0
    {
      lcgA := 1 + 4 * i;
      lcgC := 1 + 2 * j;
      calls := 0;
    }

    /** `i` and `j` are the two random draws; they are used when new seeds are needed. */
    method GetExternalPort(i: nat, j: nat) returns (port: nat)
      requires Valid() && i < 2048 && j < 4096
      modifies this
      ensures Valid() && port == FIRST_PORT + lcgN && FIRST_PORT <= port < FIRST_PORT + MODULUS
      ensures old(calls) in {0, MODULUS} ==> calls == 1 && lcgA == 1 + 4 * i && lcgC == 1 + 2 * j
      ensures old(calls) !in {0, MODULUS} ==> calls == old(calls) + 1 && lcgA == old(lcgA) && lcgC == old(lcgC)
      ensures lcgN == 0 <==> calls == MODULUS
    {
      if 0 < calls {
        ZeroOnlyAtTheEnd(lcgA, lcgC, calls);
      }
      if lcgN == 0 {
        Reseed(i, j);
      }
      var next := (lcgN * lcgA + lcgC) % MODULUS;
      Advance(lcgA, lcgC, calls, lcgN, next);
      lcgN := next;
      calls := calls + 1;
      port := FIRST_PORT + lcgN;
    }
  }

  lemma Advance(a: nat, c: nat, j: nat, n: nat, next: nat)
    requires GoodSeeds(a, c) && j < MODULUS && n == Orbit(a, c, MODULUS, j) && next == (n * a + c) % MODULUS
    ensures next < MODULUS && next == Orbit(a, c, MODULUS, j + 1) && (next == 0 <==> j + 1 == MODULUS)
  {
    ZeroOnlyAtTheEnd(a, c, j + 1);
  }

  lemma {:induction false} ZeroOnlyAtTheEnd(a: nat, c: nat, j: nat)
    requires GoodSeeds(a, c) && 0 < j <= MODULUS
    ensures Orbit(a, c, MODULUS, j) == 0 <==> j == MODULUS
  {
    ModulusIsPowerOfTwo();
    FullPeriodTheorem(13, a, c);
    assert Orbit(a, c, MODULUS, 0) == 0;
  }

  function Port(a: nat, c: nat, call: nat): nat {
    FIRST_PORT + Orbit(a, c, MODULUS, call)
  }

  /** Between two draws of seeds every port from 32768 to 40959 is proposed exactly once. */
  lemma SweepIsComplete(a: nat, c: nat, port: nat)
    requires GoodSeeds(a, c) && FIRST_PORT <= port < FIRST_PORT + MODULUS
    ensures exists call: nat :: 0 < call <= MODULUS && Port(a, c, call) == port
    ensures forall x: nat, y: nat :: 0 < x < y <= MODULUS ==> Port(a, c, x) != Port(a, c, y)
  {
    ModulusIsPowerOfTwo();
    FullPeriodTheorem(13, a, c);
    var r := port - FIRST_PORT;
    assert Visited(a, c, MODULUS, r);
    var j: nat :| j < MODULUS && Orbit(a, c, MODULUS, j) == r;
    var call := if j == 0 then MODULUS else j;
    assert Orbit(a, c, MODULUS, 0) == 0;
    assert Port(a, c, call) == port;
    forall x: nat, y: nat | 0 < x < y <= MODULUS ensures Port(a, c, x) != Port(a, c, y) {
      ZeroOnlyAtTheEnd(a, c, x);
    }
  }
}
