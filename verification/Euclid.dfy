/**
 AbstractEuclideanDomain::Gcd and QuotientRing::MultiplicativeInverse over the integers.
 Integer::Divide leaves a remainder in 0..|divisor|-1, as Dafny's / and % do.
 */
module Euclid {
  import opened PowersOfTwo

  ghost predicate IsMultiple(n: int, d: int, k: int) {
    n == d * k
  }

  ghost predicate Divides(d: int, n: int) {
    exists k :: IsMultiple(n, d, k)
  }

  ghost predicate CommonDivisor(d: int, a: int, b: int) {
    Divides(d, a) && Divides(d, b)
  }

  /** A common divisor that every common divisor divides. */
  ghost predicate IsGcd(d: int, a: int, b: int) {
    CommonDivisor(d, a, b) && forall c :: CommonDivisor(c, a, b) ==> Divides(c, d)
  }

  ghost predicate Coprime(a: int, b: int) {
    IsGcd(1, a, b)
  }

  function Abs(x: int): nat {
    if x < 0 then -x else x
  }

  lemma MultipleDivides(d: int, k: int)
    ensures Divides(d, d * k)
  {
    assert IsMultiple(d * k, d, k);
  }

  /** A common divisor divides every integer combination. */
  lemma DividesCombination(c: int, x: int, y: int, s: int, t: int)
    requires Divides(c, x) && Divides(c, y)
    ensures Divides(c, s * x + t * y)
  {
    var i :| IsMultiple(x, c, i);
    var j :| IsMultiple(y, c, j);
    Combination(c, i, j, s, t);
    assert IsMultiple(s * x + t * y, c, s * i + t * j);
  }

  lemma Combination(c: int, i: int, j: int, s: int, t: int)
    ensures s * (c * i) + t * (c * j) == c * (s * i + t * j)
  {
    MulDistributes(s * i, t * j, c);
    MulAssoc(s, c, i);
    MulAssoc(c, s, i);
    MulAssoc(t, c, j);
    MulAssoc(c, t, j);
  }

  /** The division equation for a divisor of either sign. */
  lemma EuclideanDivision(x: int, y: int)
    requires y != 0
    ensures x == x / y * y + x % y && 0 <= x % y < Abs(y)
  {
  }

  lemma RemainderKeepsDivisors(c: int, x: int, y: int)
    requires y != 0
    ensures CommonDivisor(c, x, y) <==> CommonDivisor(c, y, x % y)
  {
    EuclideanDivision(x, y);
    var q := x / y;
    if CommonDivisor(c, x, y) {
      DividesCombination(c, x, y, 1, -q);
      assert 1 * x + -q * y == x % y;
    }
    if CommonDivisor(c, y, x % y) {
      DividesCombination(c, y, x % y, q, 1);
    }
  }

  lemma RemainderKeepsGcd(d: int, x: int, y: int)
    requires y != 0
    ensures IsGcd(d, x, y) <==> IsGcd(d, y, x % y)
  {
    forall c ensures CommonDivisor(c, x, y) <==> CommonDivisor(c, y, x % y) {
      RemainderKeepsDivisors(c, x, y);
    }
  }

  lemma GcdWithZero(x: int)
    ensures IsGcd(x, x, 0)
  {
    assert IsMultiple(x, x, 1) && IsMultiple(0, x, 0);
  }

  lemma GcdSymmetric(d: int, x: int, y: int)
    ensures IsGcd(d, x, y) <==> IsGcd(d, y, x)
  {
    assert forall c :: CommonDivisor(c, x, y) <==> CommonDivisor(c, y, x);
  }

  /** A divisor of a nonzero number is no larger. */
  lemma DivisorBound(d: int, n: int)
    requires Divides(d, n) && n != 0
    ensures 1 <= Abs(d) <= Abs(n)
  {
    var k :| IsMultiple(n, d, k);
    ProductBound(d, k);
  }

  lemma ProductBound(d: int, k: int)
    requires d * k != 0
    ensures 1 <= Abs(d) <= Abs(d * k)
  {
    assert d != 0 && k != 0;
    assert Abs(d * k) == Abs(d) * Abs(k);
    MulMonotone(1, Abs(k), Abs(d));
  }

  /** Greatest common divisors agree up to sign, and are the greatest in magnitude. */
  lemma GcdUnique(d: int, e: int, x: int, y: int)
    requires IsGcd(d, x, y) && IsGcd(e, x, y)
    ensures Abs(d) == Abs(e)
  {
    if d == 0 || e == 0 {
      var z, o := if d == 0 then d else e, if d == 0 then e else d;
      assert Divides(z, o);
      var k :| IsMultiple(o, z, k);
    } else {
      DivisorBound(d, e);
      DivisorBound(e, d);
    }
  }

  /** The Euclidean algorithm on any two integers; three cells rotate as in the source. */
  method Gcd(a: int, b: int) returns (r: int)
    ensures IsGcd(r, a, b)
    ensures a >= 0 && b >= 0 ==> r >= 0
    ensures a != 0 || b != 0 ==> r != 0
    ensures forall c :: (a != 0 || b != 0) && CommonDivisor(c, a, b) ==> Abs(c) <= Abs(r)
  {
    hide IsGcd;
    var g := [b, a, 0];
    var i0, i1, i2 := 0, 1, 2;
    while g[i1] != 0
      invariant |g| == 3 && {i0, i1, i2} == {0, 1, 2} && 0 <= i0 < 3 && 0 <= i1 < 3 && 0 <= i2 < 3
      invariant i0 != i1 && i1 != i2 && i0 != i2
      invariant forall d :: IsGcd(d, g[i0], g[i1]) <==> IsGcd(d, b, a)
      invariant a >= 0 && b >= 0 ==> g[i0] >= 0 && g[i1] >= 0
      decreases Abs(g[i1])
    {
      EuclideanDivision(g[i0], g[i1]);
      forall d ensures IsGcd(d, g[i0], g[i1]) <==> IsGcd(d, g[i1], g[i0] % g[i1]) {
        RemainderKeepsGcd(d, g[i0], g[i1]);
      }
      g := g[i2 := g[i0] % g[i1]];
      i0, i1, i2 := i1, i2, i0;
    }
    r := g[i0];
    GcdWithZero(r);
    GcdSymmetric(r, a, b);
    GcdIsGreatest(r, a, b);
  }

  lemma OnlyZeroIsMultipleOfZero(n: int)
    ensures Divides(0, n) ==> n == 0
  {
    if Divides(0, n) {
      var k :| IsMultiple(n, 0, k);
    }
  }

  lemma GcdIsGreatest(r: int, a: int, b: int)
    requires IsGcd(r, a, b)
    ensures a != 0 || b != 0 ==> r != 0
    ensures forall c :: (a != 0 || b != 0) && CommonDivisor(c, a, b) ==> Abs(c) <= Abs(r)
  {
    if a != 0 || b != 0 {
      assert r != 0 by {
        if r == 0 {
          OnlyZeroIsMultipleOfZero(a);
          OnlyZeroIsMultipleOfZero(b);
        }
      }
      forall c | CommonDivisor(c, a, b) ensures Abs(c) <= Abs(r) {
        DivisorBound(c, r);
      }
    }
  }

  // ---------- Inverses in the quotient ring ----------

  /** What an inverse modulo m should be: zero exactly where none exists. */
  ghost predicate IsInverse(m: int, a: int, v: int) {
    if Coprime(a, m) then Divides(m, a * v - 1) else v == 0
  }

  /** g is v * a modulo m. */
  ghost predicate Represents(m: int, a: int, g: int, v: int) {
    Divides(m, g - v * a)
  }

  lemma RepresentsStep(m: int, a: int, g0: int, v0: int, g1: int, v1: int)
    requires Represents(m, a, g0, v0) && Represents(m, a, g1, v1) && g1 != 0
    ensures Represents(m, a, g0 % g1, v0 - v1 * (g0 / g1))
  {
    var y := g0 / g1;
    EuclideanDivision(g0, g1);
    DividesCombination(m, g0 - v0 * a, g1 - v1 * a, 1, -y);
    StepAlgebra(a, g0, v0, g1, v1, y);
  }

  lemma StepAlgebra(a: int, g0: int, v0: int, g1: int, v1: int, y: int)
    ensures 1 * (g0 - v0 * a) + -y * (g1 - v1 * a) == g0 - y * g1 - (v0 - v1 * y) * a
  {
    MulDistributes(g1, -(v1 * a), -y);
    MulDistributes(v0, -(v1 * y), a);
    MulAssoc(v1, y, a);
    MulAssoc(v1, a, y);
  }

  lemma RepresentsStart(m: int, a: int)
    ensures Represents(m, a, m, 0) && Represents(m, a, a, 1)
  {
    assert IsMultiple(m - 0 * a, m, 1) && IsMultiple(a - 1 * a, m, 0);
  }

  /** A number is zero in the ring when the modulus divides it; small ones only when they are zero. */
  lemma ZeroInRing(m: int, x: int)
    requires m > 0
    ensures x % m == 0 && Abs(x) < m ==> x == 0
  {
    if x % m == 0 {
      DivModLaw(x, m);
      if x != 0 {
        ProductBound(m, x / m);
      }
    }
  }

  lemma UnitGivesInverse(m: int, a: int, g: int, v: int)
    requires Represents(m, a, g, v) && (g == 1 || g == -1)
    ensures v / g == v * g && Divides(m, a * (v * g) - 1)
  {
    DividesCombination(m, g - v * a, g - v * a, -g, 0);
    assert -g * (g - v * a) + 0 * (g - v * a) == a * (v * g) - 1 by {
      MulDistributes(g, -(v * a), -g);
      MulAssoc(v, a, g);
      MulAssoc(a, v, g);
      assert g * g == 1;
    }
  }

  lemma CoprimeIffUnit(g: int, a: int, m: int)
    requires IsGcd(g, m, a)
    ensures Coprime(a, m) <==> g == 1 || g == -1
  {
    GcdSymmetric(1, a, m);
    if Coprime(a, m) {
      GcdUnique(1, g, m, a);
    }
    if g == 1 || g == -1 {
      forall c | CommonDivisor(c, m, a) ensures Divides(c, 1) {
        var k :| IsMultiple(g, c, k);
        assert IsMultiple(1, c, k * g) by { MulAssoc(c, k, g); assert g * g == 1; }
      }
      assert IsMultiple(m, 1, m) && IsMultiple(a, 1, a);
    }
  }

  /** Where the loop test, which compares modulo m, cannot be misled. */
  predicate Trustworthy(m: int, a: int) {
    m == 1 || Abs(a) < m
  }

  /** What the loop of MultiplicativeInverse maintains. */
  ghost predicate LoopState(m: int, a: int, g0: int, v0: int, g1: int, v1: int) {
    && Represents(m, a, g0, v0) && Represents(m, a, g1, v1)
    && (forall d :: IsGcd(d, g0, g1) <==> IsGcd(d, m, a))
    && (if Abs(a) < m then Abs(g1) < m else (g0 == m && g1 == a && v0 == 0) || (g0 == a && g1 == m))
  }

  lemma LoopStateStep(m: int, a: int, g0: int, v0: int, g1: int, v1: int)
    requires m > 0 && LoopState(m, a, g0, v0, g1, v1) && g1 % m != 0
    ensures LoopState(m, a, g1, v1, g0 % g1, v0 - v1 * (g0 / g1))
    ensures Abs(g0 % g1) < Abs(g1)
  {
    hide IsGcd, Represents;
    DivModUnique(0, m, 0, 0);
    EuclideanDivision(g0, g1);
    RepresentsStep(m, a, g0, v0, g1, v1);
    forall d ensures IsGcd(d, g0, g1) <==> IsGcd(d, g1, g0 % g1) {
      RemainderKeepsGcd(d, g0, g1);
    }
    if Abs(a) >= m {
      LargeOperand(m, a);
    }
  }

  lemma LargeOperand(m: int, a: int)
    requires 0 < m <= Abs(a)
    ensures a % m != 0 ==> m % a == m
    ensures m % m == 0
  {
    DivModUnique(m, m, 1, 0);
    if m < Abs(a) {
      SmallDividend(m, a);
    } else if a == m {
      DivModUnique(a, m, 1, 0);
    } else {
      DivModUnique(a, m, -1, 0);
    }
  }

  lemma SmallDividend(x: int, y: int)
    requires 0 <= x < Abs(y)
    ensures x % y == x && x / y == 0
  {
    EuclideanDivision(x, y);
    var q := x / y;
    if q != 0 {
      assert Abs(q * y) == Abs(q) * Abs(y);
      MulMonotone(1, Abs(q), Abs(y));
    }
  }

  /** When the loop stops, the answer is the inverse exactly under the stated condition. */
  lemma LoopExit(m: int, a: int, g0: int, v0: int, g1: int, v1: int, v: int)
    requires m > 0 && LoopState(m, a, g0, v0, g1, v1) && g1 % m == 0
    requires v == if Abs(g0) == 1 then v0 / g0 else 0
    ensures IsInverse(m, a, v) <==> Trustworthy(m, a) || !Coprime(a, m)
    ensures !Trustworthy(m, a) ==> v == 0
  {
    if Abs(a) < m {
      ZeroInRing(m, g1);
      GcdWithZero(g0);
      CoprimeIffUnit(g0, a, m);
      if Abs(g0) == 1 {
        UnitGivesInverse(m, a, g0, v0);
      }
    } else if m == 1 {
      assert IsMultiple(a * v - 1, 1, a * v - 1);
      EverythingCoprimeToOne(a);
    } else {
      assert v == 0;
      if Divides(m, a * v - 1) {
        DivisorBound(m, a * v - 1);
      }
    }
  }

  lemma EverythingCoprimeToOne(a: int)
    ensures Coprime(a, 1)
  {
    assert IsMultiple(a, 1, a) && IsMultiple(1, 1, 1);
  }

  /**
   QuotientRing::MultiplicativeInverse for a positive modulus. The answer is right exactly
   when the operand is smaller than the modulus or has no inverse at all: a larger one that
   has an inverse is reported as having none.
   */
  method MultiplicativeInverse(m: int, a: int) returns (v: int)
    requires m > 0
    ensures IsInverse(m, a, v) <==> Trustworthy(m, a) || !Coprime(a, m)
    ensures !Trustworthy(m, a) ==> v == 0
  {
    hide LoopState;
    var g, vs, i0, i1, i2 := [m, a, 0], [0, 1, 0], 0, 1, 2;
    StartState(m, a);
    while g[i1] % m != 0
      invariant |g| == 3 && |vs| == 3 && 0 <= i0 < 3 && 0 <= i1 < 3 && 0 <= i2 < 3
      invariant i0 != i1 && i1 != i2 && i0 != i2
      invariant LoopState(m, a, g[i0], vs[i0], g[i1], vs[i1])
      decreases Abs(g[i1])
    {
      LoopStateStep(m, a, g[i0], vs[i0], g[i1], vs[i1]);
      assert g[i1] != 0;
      var y := g[i0] / g[i1];
      g := g[i2 := g[i0] % g[i1]];
      vs := vs[i2 := vs[i0] - vs[i1] * y];
      i0, i1, i2 := i1, i2, i0;
    }
    v := if Abs(g[i0]) == 1 then vs[i0] / g[i0] else 0;
    LoopExit(m, a, g[i0], vs[i0], g[i1], vs[i1], v);
  }

  lemma StartState(m: int, a: int)
    requires m > 0
    ensures LoopState(m, a, m, 0, a, 1)
  {
    RepresentsStart(m, a);
  }

  /** 9 has the inverse 1 modulo 4, where the algorithm answers 0: the condition above is not vacuous. */
  lemma LargeOperandWithInverse()
    ensures Coprime(9, 4) && !Trustworthy(4, 9) && IsInverse(4, 9, 1) && !IsInverse(4, 9, 0)
  {
    RemainderKeepsGcd(1, 9, 4);
    RemainderKeepsGcd(1, 4, 1);
    GcdWithZero(1);
    assert IsMultiple(9 * 1 - 1, 4, 2);
    if Divides(4, 9 * 0 - 1) {
      DivisorBound(4, 9 * 0 - 1);
      assert false;
    }
  }
}
