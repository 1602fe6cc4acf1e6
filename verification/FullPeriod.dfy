/** The power-of-two case of the Hull-Dobell theorem: with a multiplier 1 + 4i and an odd
    increment, a linear congruential generator modulo 2^k visits every residue once
    before it repeats. */
module FullPeriod {
  import opened FiniteSets
  import opened Numbers

  /** 2^k divides x. */
  predicate Divided(k: nat, x: nat) {
    k == 0 || (x % 2 == 0 && Divided(k - 1, x / 2))
  }

  function Power(a: nat, m: nat): nat {
    if m == 0 then 1 else Power(a, m - 1) * a
  }

  /** 1 + a + ... + a^(m-1) */
  function Geometric(a: nat, m: nat): nat {
    if m == 0 then 0 else Geometric(a, m - 1) * a + 1
  }

  /** The j-th value after 0 of n := n * a + c, not reduced. */
  function Unreduced(a: nat, c: nat, j: nat): nat {
    if j == 0 then 0 else Unreduced(a, c, j - 1) * a + c
  }

  function Orbit(a: nat, c: nat, modulus: nat, j: nat): (r: nat)
    requires modulus > 0
    ensures r < modulus
  {
    if j == 0 then 0 else (Orbit(a, c, modulus, j - 1) * a + c) % modulus
  }

  predicate GoodSeeds(a: nat, c: nat) { a % 4 == 1 && c % 2 == 1 }

  // ---- arithmetic -----------------------------------------------------------------

  lemma ModUnique(x: int, m: nat, q: int, r: nat)
    requires m > 0 && x == q * m + r && r < m
    ensures x % m == r
  {
    var d := x / m - q;
    assert x == (x / m) * m + x % m;
    assert d * m == r - x % m;
    SmallMultiple(d, m);
  }

  lemma SmallMultiple(d: int, m: int)
    requires m > 0
    ensures -m < d * m < m ==> d == 0
  {
    assert d >= 1 ==> d * m >= m;
    assert d <= -1 ==> d * m <= -m;
  }

  lemma AddMultiple(x: int, m: nat, k: int)
    requires m > 0
    ensures (x + k * m) % m == x % m
  {
    assert x + k * m == (x / m + k) * m + x % m;
    ModUnique(x + k * m, m, x / m + k, x % m);
  }

  lemma MultiplyAddMod(x: int, a: nat, c: nat, m: nat)
    requires m > 0
    ensures ((x % m) * a + c) % m == (x * a + c) % m
  {
    var q := x / m;
    assert x * a + c == (x % m) * a + c + (q * a) * m by { assert x == q * m + x % m; }
    AddMultiple((x % m) * a + c, m, q * a);
  }

  lemma {:induction false} OrbitIsUnreduced(a: nat, c: nat, m: nat, j: nat)
    requires m > 0
    ensures Orbit(a, c, m, j) == Unreduced(a, c, j) % m
  {
    if j > 0 {
      OrbitIsUnreduced(a, c, m, j - 1);
      MultiplyAddMod(Unreduced(a, c, j - 1), a, c, m);
    }
  }

  lemma NextTerm(c: int, g: int, a: int)
    ensures c * g * a + c == c * (g * a + 1)
  {
    assert c * (g * a + 1) == c * (g * a) + c && c * g * a == c * (g * a);
  }

  lemma {:induction false} UnreducedIsGeometric(a: nat, c: nat, j: nat)
    ensures Unreduced(a, c, j) == c * Geometric(a, j)
  {
    if j > 0 {
      UnreducedIsGeometric(a, c, j - 1);
      NextTerm(c, Geometric(a, j - 1), a);
    }
  }

  lemma DistributeRight(x: int, y: int, a: int)
    ensures (x + y) * a == x * a + y * a
  {
  }

  lemma SwapFactors(p: int, g: int, a: int)
    ensures (p * g) * a == (p * a) * g
  {
    assert (p * g) * a == p * (g * a) == p * (a * g);
  }

  lemma {:induction false} GeometricSum(a: nat, i: nat, m: nat)
    ensures Geometric(a, i + m) == Power(a, m) * Geometric(a, i) + Geometric(a, m)
    decreases m
  {
    if m > 0 {
      GeometricSum(a, i, m - 1);
      var p, g, h := Power(a, m - 1), Geometric(a, i), Geometric(a, m - 1);
      var x, n := p * g, i + m - 1;
      assert Geometric(a, n) == x + h;
      assert Geometric(a, n + 1) == (x + h) * a + 1 == x * a + h * a + 1 by { DistributeRight(x, h, a); }
      assert x * a == Power(a, m) * g by { SwapFactors(p, g, a); }
    }
  }

  lemma {:induction false} PowerMod4(a: nat, m: nat)
    requires a % 4 == 1
    ensures Power(a, m) % 4 == 1
  {
    if m > 0 {
      PowerMod4(a, m - 1);
      ProductMod4(Power(a, m - 1), a);
    }
  }

  lemma ProductMod4(x: nat, y: nat)
    requires x % 4 == 1 && y % 4 == 1
    ensures (x * y) % 4 == 1
  {
    var p, q := x / 4, y / 4;
    assert x * y == x * (4 * q + 1) == 4 * (x * q) + x;
  }

  lemma ProductOdd(x: nat, y: nat)
    requires x % 2 == 1
    ensures (x * y) % 2 == y % 2
  {
    var p := x / 2;
    assert x * y == (2 * p + 1) * y == 2 * (p * y) + y;
  }

  lemma NextOdd(x: nat, y: nat)
    requires x % 2 == y % 2
    ensures (x + 1) % 2 == (y + 1) % 2
  {
  }

  lemma NextParity(a: nat, g: nat)
    requires a % 4 == 1
    ensures (g * a + 1) % 2 == (g + 1) % 2
  {
    assert a % 2 == 1;
    ProductOdd(a, g);
  }

  lemma {:induction false} GeometricParity(a: nat, m: nat)
    requires a % 4 == 1
    ensures Geometric(a, m) % 2 == m % 2
  {
    if m > 0 {
      GeometricParity(a, m - 1);
      var g, next := Geometric(a, m - 1), Geometric(a, m);
      assert next % 2 == (g + 1) % 2 by { NextParity(a, g); }
      assert (g + 1) % 2 == (m - 1 + 1) % 2 by { NextOdd(g, m - 1); }
    }
  }

  lemma DoubleRight(x: nat, y: nat)
    ensures x * (2 * y) == 2 * (x * y)
  {
  }

  /** An odd factor does not help 2^k to divide a product. */
  lemma {:induction false} OddFactor(k: nat, odd: nat, x: nat)
    requires odd % 2 == 1
    ensures Divided(k, odd * x) <==> Divided(k, x)
    decreases k
  {
    if k > 0 {
      ProductOdd(odd, x);
      if x % 2 == 0 {
        DoubleRight(odd, x / 2);
        OddFactor(k - 1, odd, x / 2);
      }
    }
  }

  /** 2^k divides the geometric sum of m terms exactly when it divides m. */
  lemma {:induction false} GeometricDivided(k: nat, a: nat, m: nat)
    requires a % 4 == 1
    ensures Divided(k, Geometric(a, m)) <==> Divided(k, m)
    decreases k
  {
    GeometricParity(a, m);
    if k > 0 && m % 2 == 0 {
      var h := m / 2;
      var odd := DoubledSum(a, h);
      OddFactor(k - 1, odd, Geometric(a, h));
      GeometricDivided(k - 1, a, h);
    }
  }

  lemma DoubledSum(a: nat, h: nat) returns (odd: nat)
    requires a % 4 == 1
    ensures odd % 2 == 1 && Geometric(a, 2 * h) == 2 * (odd * Geometric(a, h))
  {
    PowerMod4(a, h);
    odd := HalfOfNext(Power(a, h));
    GeometricSum(a, h, h);
    Doubled(Power(a, h), odd, Geometric(a, h));
  }

  lemma HalfOfNext(p: nat) returns (odd: nat)
    requires p % 4 == 1
    ensures odd % 2 == 1 && p + 1 == 2 * odd
  {
    var q := p / 4;
    assert p == 4 * q + 1;
    odd := 2 * q + 1;
  }

  lemma Doubled(p: nat, odd: nat, g: nat)
    requires p + 1 == 2 * odd
    ensures p * g + g == 2 * (odd * g)
  {
    assert p * g + g == (p + 1) * g == (2 * odd) * g;
  }

  /** The recursive test is the remainder being zero. */
  lemma {:induction false} DividedMeaning(k: nat, x: nat)
    ensures Divided(k, x) <==> x % Pow2(k) == 0
  {
    if k > 0 {
      DividedMeaning(k - 1, x / 2);
      HalveRemainder(Pow2(k - 1), x);
    }
  }

  lemma HalveRemainder(m: nat, x: nat)
    requires m > 0
    ensures x % (2 * m) == 0 <==> x % 2 == 0 && (x / 2) % m == 0
  {
    var q := x / 2 / m;
    assert x / 2 == q * m + (x / 2) % m;
    DoubleRight(q, m);
    ModUnique(x, 2 * m, q, 2 * ((x / 2) % m) + x % 2);
  }

  // ---- the period -----------------------------------------------------------------

  lemma DistanceInOrbit(a: nat, c: nat, i: nat, m: nat)
    ensures Unreduced(a, c, i + m) == Unreduced(a, c, i) + c * (Power(a, i) * Geometric(a, m))
  {
    UnreducedIsGeometric(a, c, i + m);
    UnreducedIsGeometric(a, c, i);
    GeometricSum(a, m, i);
    assert m + i == i + m;
    Distribute(c, Power(a, i) * Geometric(a, m), Geometric(a, i));
  }

  lemma Distribute(c: nat, x: nat, y: nat)
    ensures c * (x + y) == c * x + c * y
  {
  }

  /** Two points of the orbit coincide exactly when their distance is a multiple of 2^k. */
  lemma SamePoint(k: nat, a: nat, c: nat, i: nat, m: nat)
    requires GoodSeeds(a, c)
    ensures Orbit(a, c, Pow2(k), i + m) == Orbit(a, c, Pow2(k), i) <==> Divided(k, m)
  {
    var step := Power(a, i) * Geometric(a, m);
    assert Divided(k, c * step) <==> Divided(k, m) by {
      PowerMod4(a, i);
      OddFactor(k, c, step);
      OddFactor(k, Power(a, i), Geometric(a, m));
      GeometricDivided(k, a, m);
    }
    DividedMeaning(k, c * step);
    OrbitDistance(a, c, Pow2(k), i, m);
  }

  lemma OrbitDistance(a: nat, c: nat, n: nat, i: nat, m: nat)
    requires n > 0
    ensures Orbit(a, c, n, i + m) == Orbit(a, c, n, i) <==> (c * (Power(a, i) * Geometric(a, m))) % n == 0
  {
    OrbitIsUnreduced(a, c, n, i + m);
    OrbitIsUnreduced(a, c, n, i);
    DistanceInOrbit(a, c, i, m);
    SameResidue(Unreduced(a, c, i), c * (Power(a, i) * Geometric(a, m)), n);
  }

  lemma SameResidue(x: nat, d: nat, n: nat)
    requires n > 0
    ensures (x + d) % n == x % n <==> d % n == 0
  {
    if d % n == 0 {
      AddMultiple(x, n, d / n);
    }
    if (x + d) % n == x % n {
      EqualResidues(x, x + d, n);
    }
  }

  lemma EqualResidues(x: nat, y: nat, n: nat)
    requires n > 0 && x % n == y % n && x <= y
    ensures (y - x) % n == 0
  {
    var q := y / n - x / n;
    assert y == (y / n) * n + y % n && x == (x / n) * n + x % n;
    assert y - x == q * n;
    ModUnique(y - x, n, q, 0);
  }

  ghost predicate Visited(a: nat, c: nat, n: nat, r: nat)
    requires n > 0
  {
    exists j: nat :: j < n && Orbit(a, c, n, j) == r
  }

  /** Full period: the 2^k first values are distinct, so each residue occurs exactly
      once among them, and then, not before, the orbit is back at 0. */
  lemma {:induction false} FullPeriodTheorem(k: nat, a: nat, c: nat)
    requires GoodSeeds(a, c)
    ensures forall i: nat, j: nat :: i < j < Pow2(k) ==> Orbit(a, c, Pow2(k), i) != Orbit(a, c, Pow2(k), j)
    ensures forall r: nat :: r < Pow2(k) ==> Visited(a, c, Pow2(k), r)
    ensures Orbit(a, c, Pow2(k), Pow2(k)) == 0
  {
    var n := Pow2(k);
    forall i: nat, j: nat | i < j < n ensures Orbit(a, c, n, i) != Orbit(a, c, n, j) {
      SamePoint(k, a, c, i, j - i);
      DividedMeaning(k, j - i);
      SmallRemainder(j - i, n);
      assert i + (j - i) == j;
    }
    OrbitOnto(a, c, n);
    SamePoint(k, a, c, 0, n);
    DividedMeaning(k, n);
    ModUnique(n, n, 1, 0);
  }

  lemma SmallRemainder(x: nat, n: nat)
    requires x < n
    ensures x % n == x
  {
    ModUnique(x, n, 0, x);
  }

  lemma OrbitOnto(a: nat, c: nat, n: nat)
    requires n > 0
    requires forall i: nat, j: nat :: i < j < n ==> Orbit(a, c, n, i) != Orbit(a, c, n, j)
    ensures forall r: nat :: r < n ==> Visited(a, c, n, r)
  {
    var s := seq(n, j requires 0 <= j => Orbit(a, c, n, j) as int);
    forall i, j | 0 <= i < j < |s| ensures s[i] != s[j] {
      assert s[i] == Orbit(a, c, n, i) && s[j] == Orbit(a, c, n, j);
    }
    DistinctBelow(s, n);
    forall r: nat | r < n ensures Visited(a, c, n, r) {
      assert r as int in s;
      var j :| 0 <= j < |s| && s[j] == r;
      assert Orbit(a, c, n, j) == r;
    }
  }
}
