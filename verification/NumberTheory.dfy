/** Congruences, prime numbers and Fermat's theorem, as far as the Blum-Blum-Shub generator relies on them. */
module NumberTheory {
  import opened PowersOfTwo
  import opened Euclid

  function Pow(x: int, n: nat): int {
    if n == 0 then 1 else x * Pow(x, n - 1)
  }

  lemma {:induction false} PowAdd(x: int, m: nat, n: nat)
    ensures Pow(x, m + n) == Pow(x, m) * Pow(x, n)
  {
    if m > 0 {
      PowAdd(x, m - 1, n);
      assert m + n - 1 == m - 1 + n;
      MulAssoc(x, Pow(x, m - 1), Pow(x, n));
    }
  }

  lemma {:induction false} PowMul(x: int, m: nat, n: nat)
    ensures m * n >= 0 && Pow(x, m * n) == Pow(Pow(x, m), n)
  {
    if n > 0 {
      PowMul(x, m, n - 1);
      MulDistributes(n - 1, 1, m);
      PowAdd(x, m, m * (n - 1));
    }
  }

  // ---------- Congruence ----------

  ghost predicate Congruent(a: int, b: int, m: int) {
    Divides(m, a - b)
  }

  lemma CongruentRefl(a: int, m: int)
    ensures Congruent(a, a, m)
  {
    assert IsMultiple(a - a, m, 0);
  }

  lemma CongruentAdd(a: int, b: int, c: int, d: int, m: int)
    requires Congruent(a, b, m) && Congruent(c, d, m)
    ensures Congruent(a + c, b + d, m)
  {
    DividesCombination(m, a - b, c - d, 1, 1);
  }

  lemma CongruentMul(a: int, b: int, c: int, d: int, m: int)
    requires Congruent(a, b, m) && Congruent(c, d, m)
    ensures Congruent(a * c, b * d, m)
  {
    DividesCombination(m, a - b, c - d, c, b);
    MulDistributes(a, -b, c);
    MulDistributes(c, -d, b);
    assert c * (a - b) + b * (c - d) == a * c - b * d;
  }

  lemma {:induction false} CongruentPow(a: int, b: int, n: nat, m: int)
    requires Congruent(a, b, m)
    ensures Congruent(Pow(a, n), Pow(b, n), m)
  {
    if n == 0 {
      CongruentRefl(1, m);
    } else {
      CongruentPow(a, b, n - 1, m);
      CongruentMul(a, b, Pow(a, n - 1), Pow(b, n - 1), m);
    }
  }

  lemma ModCongruent(a: int, m: int)
    requires m > 0
    ensures Congruent(a, a % m, m) && 0 <= a % m < m
  {
    DivModLaw(a, m);
    assert IsMultiple(a - a % m, m, a / m);
  }

  /** Congruent numbers have the same residue. */
  lemma CongruentSameResidue(a: int, b: int, m: int)
    requires m > 0
    ensures Congruent(a, b, m) <==> a % m == b % m
  {
    DivModLaw(a, m);
    DivModLaw(b, m);
    if Congruent(a, b, m) {
      var k :| IsMultiple(a - b, m, k);
      MulDistributes(b / m, k, m);
      DivModUnique(a, m, b / m + k, b % m);
    }
    if a % m == b % m {
      MulDistributes(a / m, -(b / m), m);
      assert IsMultiple(a - b, m, a / m - b / m);
    }
  }

  // ---------- Primes ----------

  ghost predicate Prime(p: int) {
    p >= 2 && forall d :: d >= 1 && Divides(d, p) ==> d == 1 || d == p
  }

  /** Bezout: the greatest common divisor is an integer combination. */
  lemma {:induction false} Bezout(a: nat, b: nat) returns (d: int, s: int, t: int)
    ensures d == s * a + t * b && d >= 0 && IsGcd(d, a, b)
    decreases b
  {
    if b == 0 {
      d, s, t := a, 1, 0;
      GcdWithZero(a);
    } else {
      DivModLaw(a, b);
      var s', t';
      d, s', t' := Bezout(b, a % b);
      RemainderKeepsGcd(d, a, b);
      s, t := t', s' - t' * (a / b);
      BackSubstitute(a, b, s', t');
    }
  }

  lemma BackSubstitute(a: int, b: int, s: int, t: int)
    requires b > 0
    ensures s * b + t * (a % b) == t * a + (s - t * (a / b)) * b
  {
    DivModLaw(a, b);
    var q, r := a / b, a % b;
    assert a == q * b + r;
    MulDistributes(q * b, r, t);
    MulDistributes(s, -(t * q), b);
    MulAssoc(t, q, b);
  }

  /** A prime not dividing a has an inverse combination with it. */
  lemma PrimeCombination(p: int, a: nat) returns (s: int, t: int)
    requires Prime(p) && !Divides(p, a)
    ensures s * p + t * a == 1
  {
    var d;
    d, s, t := Bezout(p, a);
    assert Divides(d, p) && Divides(d, a);
    if d == 0 {
      OnlyZeroIsMultipleOfZero(p);
    }
  }

  /** Euclid's lemma. */
  lemma PrimeDividesProduct(p: int, a: nat, b: int)
    requires Prime(p) && Divides(p, a * b)
    ensures Divides(p, a) || Divides(p, b)
  {
    if !Divides(p, a) {
      var s, t := PrimeCombination(p, a);
      MultipleDivides(p, b);
      DividesCombination(p, p * b, a * b, s, t);
      assert s * (p * b) + t * (a * b) == b by {
        MulAssoc(s, p, b);
        MulAssoc(t, a, b);
        MulDistributes(s * p, t * a, b);
      }
    }
  }

  lemma SmallNotDivided(p: int, k: nat)
    requires p >= 2 && 0 < k < p
    ensures !Divides(p, k)
  {
    if Divides(p, k) {
      DivisorBound(p, k);
    }
  }

  /** Numbers divisible by two distinct primes are divisible by their product. */
  lemma DistinctPrimesDivide(p: int, q: int, x: int)
    requires Prime(p) && Prime(q) && p != q && Divides(p, x) && Divides(q, x)
    ensures Divides(p * q, x)
  {
    var k :| IsMultiple(x, p, k);
    PrimeDividesProduct(q, p, k);
    assert !Divides(q, p);
    var l :| IsMultiple(k, q, l);
    MulAssoc(p, q, l);
    assert IsMultiple(x, p * q, l);
  }

  lemma ProductDivides(p: int, q: int, x: int)
    requires Divides(p * q, x)
    ensures Divides(p, x) && Divides(q, x)
  {
    var k :| IsMultiple(x, p * q, k);
    MulAssoc(p, q, k);
    MulAssoc(q, p, k);
    assert IsMultiple(x, p, q * k) && IsMultiple(x, q, p * k);
  }

  // ---------- Fermat's theorem, by the binomial theorem ----------

  function Binomial(n: nat, k: nat): nat {
    if k == 0 then 1 else if n == 0 then 0 else Binomial(n - 1, k - 1) + Binomial(n - 1, k)
  }

  lemma {:induction false} BinomialZero(n: nat, k: nat)
    requires k > n
    ensures Binomial(n, k) == 0
  {
    if n > 0 {
      BinomialZero(n - 1, k - 1);
      BinomialZero(n - 1, k);
    }
  }

  lemma {:induction false} BinomialDiagonal(n: nat)
    ensures Binomial(n, n) == 1
  {
    if n > 0 {
      BinomialDiagonal(n - 1);
      BinomialZero(n - 1, n);
    }
  }

  /** Absorption: k * C(n,k) == n * C(n-1,k-1). */
  lemma {:induction false} Absorption(n: nat, k: nat)
    requires n >= 1 && k >= 1
    ensures k * Binomial(n, k) == n * Binomial(n - 1, k - 1)
  {
    if n == 1 {
      if k > 1 {
        BinomialZero(0, k - 1);
        BinomialZero(0, k);
      }
    } else if k == 1 {
      Absorption(n - 1, 1);
    } else {
      Absorption(n - 1, k - 1);
      Absorption(n - 1, k);
      AbsorptionAlgebra(n, k, Binomial(n - 1, k - 1), Binomial(n - 1, k),
                        Binomial(n - 2, k - 2), Binomial(n - 2, k - 1));
    }
  }

  lemma AbsorptionAlgebra(n: int, k: int, b1: int, b2: int, c1: int, c2: int)
    requires (k - 1) * b1 == (n - 1) * c1 && k * b2 == (n - 1) * c2 && b1 == c1 + c2
    ensures k * (b1 + b2) == n * b1
  {
    MulDistributes(b1, b2, k);
    MulDistributes(k, -1, b1);
    MulDistributes(n, -1, b1);
    MulDistributes(c1, c2, n - 1);
  }

  lemma PrimeDividesBinomial(p: int, k: nat)
    requires Prime(p) && 0 < k < p
    ensures Divides(p, Binomial(p, k))
  {
    Absorption(p, k);
    MultipleDivides(p, Binomial(p - 1, k - 1));
    PrimeDividesProduct(p, k, Binomial(p, k));
    SmallNotDivided(p, k);
  }

  /** The terms C(n,j) * a^j for j up to k. */
  function BinomialSum(n: nat, a: int, k: nat): int {
    Binomial(n, k) * Pow(a, k) + if k == 0 then 0 else BinomialSum(n, a, k - 1)
  }

  lemma {:induction false} PascalSum(n: nat, a: int, k: nat)
    requires n >= 1 && k >= 1
    ensures BinomialSum(n, a, k) == BinomialSum(n - 1, a, k) + a * BinomialSum(n - 1, a, k - 1)
  {
    var x, b, c := Pow(a, k - 1), Binomial(n - 1, k - 1), Binomial(n - 1, k);
    MulDistributes(b, c, a * x);
    MulAssoc(b, a, x);
    MulAssoc(a, b, x);
    assert b * (a * x) == a * (b * x);
    if k == 1 {
      assert BinomialSum(n, a, 0) == BinomialSum(n - 1, a, 0) == 1;
    } else {
      PascalSum(n, a, k - 1);
      MulDistributes(b * x, BinomialSum(n - 1, a, k - 2), a);
    }
  }

  lemma {:induction false} BinomialTheorem(n: nat, a: int)
    ensures Pow(a + 1, n) == BinomialSum(n, a, n)
  {
    if n > 0 {
      BinomialTheorem(n - 1, a);
      PascalSum(n, a, n);
      BinomialZero(n - 1, n);
      MulDistributes(a, 1, BinomialSum(n - 1, a, n - 1));
    }
  }

  /** Modulo p only the first and the last binomial term survive. */
  lemma {:induction false} MiddleTermsVanish(p: int, a: int, k: nat)
    requires Prime(p) && k < p
    ensures Congruent(BinomialSum(p, a, k), 1, p)
  {
    if k == 0 {
      CongruentRefl(1, p);
    } else {
      MiddleTermsVanish(p, a, k - 1);
      PrimeDividesBinomial(p, k);
      DividesCombination(p, Binomial(p, k), Binomial(p, k), Pow(a, k), 0);
      assert Congruent(Binomial(p, k) * Pow(a, k), 0, p);
      CongruentAdd(Binomial(p, k) * Pow(a, k), 0, BinomialSum(p, a, k - 1), 1, p);
    }
  }

  lemma {:induction false} Fermat(p: int, a: nat)
    requires Prime(p)
    ensures Congruent(Pow(a, p), a, p)
  {
    hide Congruent, BinomialSum;
    if a == 0 {
      CongruentRefl(0, p);
    } else {
      Fermat(p, a - 1);
      BinomialTheorem(p, a - 1);
      LastTerm(p, a - 1);
      MiddleTermsVanish(p, a - 1, p - 1);
      CongruentAdd(Pow(a - 1, p), a - 1, BinomialSum(p, a - 1, p - 1), 1, p);
    }
  }

  lemma LastTerm(n: nat, a: int)
    requires n > 0
    ensures BinomialSum(n, a, n) == Pow(a, n) + BinomialSum(n, a, n - 1)
  {
    BinomialDiagonal(n);
  }

  /** a^(p-1) is 1 modulo p for a not divisible by p. */
  lemma FermatUnit(p: int, a: nat)
    requires Prime(p) && !Divides(p, a)
    ensures Congruent(Pow(a, p - 1), 1, p)
  {
    Fermat(p, a);
    assert Pow(a, p) - a == a * (Pow(a, p - 1) - 1) by { MulDistributes(Pow(a, p - 1), -1, a); }
    PrimeDividesProduct(p, a, Pow(a, p - 1) - 1);
  }

  /** Exponents may be reduced modulo any multiple of p-1, as long as a positive one stays positive. */
  lemma ReduceExponent(p: int, phi: nat, x: nat, e: nat)
    requires Prime(p) && phi > 0 && Divides(p - 1, phi)
    requires e % phi > 0 || !Divides(p, x)
    ensures Congruent(Pow(x, e), Pow(x, e % phi), p)
  {
    var r, q := e % phi, e / phi;
    DivModLaw(e, phi);
    PowAdd(x, q * phi, r);
    if Divides(p, x) {
      PowOfMultiple(p, x, e);
      PowOfMultiple(p, x, r);
      DividesCombination(p, Pow(x, e), Pow(x, r), 1, -1);
    } else {
      var k :| IsMultiple(phi, p - 1, k);
      FermatUnit(p, x);
      assert k >= 0 by {
        if k < 0 {
          MulMonotone(k, -1, p - 1);
        }
      }
      assert q * phi == (p - 1) * (k * q) by { MulAssoc(p - 1, k, q); }
      MulMonotone(0, k, q);
      PowMul(x, p - 1, k * q);
      CongruentPow(Pow(x, p - 1), 1, k * q, p);
      PowOfOne(k * q);
      CongruentRefl(Pow(x, r), p);
      CongruentMul(Pow(x, q * phi), 1, Pow(x, r), Pow(x, r), p);
    }
  }

  lemma {:induction false} PowOfOne(n: nat)
    ensures Pow(1, n) == 1
  {
    if n > 0 {
      PowOfOne(n - 1);
    }
  }

  lemma PowOfMultiple(p: int, x: int, n: nat)
    requires Divides(p, x) && n > 0
    ensures Divides(p, Pow(x, n))
  {
    DividesCombination(p, x, x, Pow(x, n - 1), 0);
  }

  /** The order of the multiplicative group of Z/pq. */
  function Totient(p: int, q: int): (r: nat)
    requires p >= 2 && q >= 2
    ensures r > 0
  {
    MulMonotone(1, p - 1, q - 1);
    (p - 1) * (q - 1)
  }

  lemma TotientMultiples(p: int, q: int)
    requires p >= 2 && q >= 2
    ensures Divides(p - 1, Totient(p, q)) && Divides(q - 1, Totient(p, q))
  {
    assert IsMultiple(Totient(p, q), p - 1, q - 1) && IsMultiple(Totient(p, q), q - 1, p - 1);
  }

  /**
   Random access in Z/pq: raising to an exponent and raising to its residue modulo (p-1)(q-1)
   agree exactly when the residue is positive or the base is prime to both factors.
   */
  lemma ReduceExponentPQ(p: int, q: int, x: nat, e: nat)
    requires Prime(p) && Prime(q) && p != q && e > 0
    ensures Congruent(Pow(x, e), Pow(x, e % Totient(p, q)), p * q)
            <==> e % Totient(p, q) > 0 || (!Divides(p, x) && !Divides(q, x))
  {
    TotientMultiples(p, q);
    var r := e % Totient(p, q);
    DivModLaw(e, Totient(p, q));
    hide Divides, Totient, Pow;
    if r > 0 || (!Divides(p, x) && !Divides(q, x)) {
      ReduceExponent(p, Totient(p, q), x, e);
      ReduceExponent(q, Totient(p, q), x, e);
      DistinctPrimesDivide(p, q, Pow(x, e) - Pow(x, r));
    } else if Divides(p, x) {
      MultipleNotOne(p, q, x, e);
    } else {
      MultipleNotOne(q, p, x, e);
    }
  }

  /** A power of a multiple of p is never 1 modulo a multiple of p. */
  lemma MultipleNotOne(p: int, q: int, x: int, e: nat)
    requires Prime(p) && Divides(p, x) && e > 0
    ensures !Congruent(Pow(x, e), Pow(x, 0), p * q) && !Congruent(Pow(x, e), Pow(x, 0), q * p)
  {
    if Congruent(Pow(x, e), Pow(x, 0), p * q) {
      ProductDivides(p, q, Pow(x, e) - 1);
      PowOfMultiple(p, x, e);
      DividesCombination(p, Pow(x, e), Pow(x, e) - 1, 1, -1);
      DivisorBound(p, 1);
    }
  }
}
