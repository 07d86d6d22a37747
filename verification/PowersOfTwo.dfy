/** Powers of two and the bit-level view of natural numbers (Integer::GetBit, BitCount, WordCount). */
module PowersOfTwo {

  function Pow2(n: nat): (r: nat)
    ensures r > 0
  {
    if n == 0 then 1 else 2 * Pow2(n - 1)
  }

  lemma {:induction false} Pow2Add(m: nat, n: nat)
    ensures Pow2(m + n) == Pow2(m) * Pow2(n)
  {
    if m > 0 {
      Pow2Add(m - 1, n);
      assert m + n - 1 == m - 1 + n;
      MulAssoc(2, Pow2(m - 1), Pow2(n));
    }
  }

  lemma {:induction false} Pow2Monotone(m: nat, n: nat)
    requires m <= n
    ensures Pow2(m) <= Pow2(n)
  {
    if m < n {
      Pow2Monotone(m, n - 1);
    }
  }

  lemma MulAssoc(a: int, b: int, c: int)
    ensures a * b * c == a * (b * c)
  {
  }

  lemma MulDistributes(a: int, b: int, c: int)
    ensures (a + b) * c == a * c + b * c
    ensures c * (a + b) == c * a + c * b
  {
  }

  lemma DivModLaw(x: int, d: int)
    requires d > 0
    ensures x == x / d * d + x % d && 0 <= x % d < d
    ensures x >= 0 ==> x / d >= 0
  {
  }

  lemma ParityOfSum(a: int, b: int, x: int)
    requires x == 2 * a + b
    ensures x % 2 == b % 2
  {
  }

  /** Reducing modulo an even number keeps the low bit. */
  lemma ModEvenParity(x: int, half: int)
    requires half > 0
    ensures x % (2 * half) % 2 == x % 2
  {
    var h := x / (2 * half);
    DivModLaw(x, 2 * half);
    assert h * (2 * half) == 2 * (h * half) by { MulAssoc(2, h, half); MulAssoc(h, 2, half); }
    ParityOfSum(h * half, x % (2 * half), x);
  }

  lemma MulMonotone(a: int, b: int, c: int)
    requires a <= b && 0 <= c
    ensures c * a <= c * b && a * c <= b * c
  {
  }

  /** A quotient and remainder satisfying the division equation are the quotient and remainder. */
  lemma DivModUnique(x: int, d: int, q: int, r: int)
    requires d > 0 && 0 <= r < d && x == q * d + r
    ensures x / d == q && x % d == r
  {
    var q', r' := x / d, x % d;
    assert x == q' * d + r';
    if q' > q {
      MulMonotone(q + 1, q', d);
      assert false;
    } else if q' < q {
      MulMonotone(q' + 1, q, d);
      assert false;
    }
  }

  lemma DivDiv(x: nat, a: nat, b: nat)
    requires a > 0 && b > 0
    ensures a * b > 0 && x / a / b == x / (a * b)
  {
    var q, r := x / a, x % a;
    var q', r' := q / b, q % b;
    assert x == (q' * b + r') * a + r;
    assert x == q' * (a * b) + (r' * a + r);
    MulMonotone(r' + 1, b, a);
    assert a * b > 0 by { MulMonotone(1, a, b); }
    DivModUnique(x, a * b, q', r' * a + r);
  }

  /** x >> n. */
  function Shr(x: nat, n: nat): nat {
    DivModLaw(x, Pow2(n));
    x / Pow2(n)
  }

  /** The low n bits of x. */
  function Low(x: nat, n: nat): (r: nat)
    ensures r < Pow2(n)
  {
    DivModLaw(x, Pow2(n));
    x % Pow2(n)
  }

  lemma ShrLow(x: nat, n: nat)
    ensures x == Shr(x, n) * Pow2(n) + Low(x, n)
  {
    DivModLaw(x, Pow2(n));
  }

  lemma ShrZero(x: nat)
    ensures Shr(x, 0) == x
  {
  }

  lemma ShrAdd(x: nat, m: nat, n: nat)
    ensures Shr(Shr(x, m), n) == Shr(x, m + n)
  {
    Pow2Add(m, n);
    DivDiv(x, Pow2(m), Pow2(n));
  }

  /** Bit i of x (Integer::GetBit). */
  function Bit(x: nat, i: nat): (b: nat)
    ensures b <= 1
  {
    Shr(x, i) % 2
  }

  lemma ShrStep(x: nat, i: nat)
    ensures Shr(x, i) == 2 * Shr(x, i + 1) + Bit(x, i)
  {
    ShrAdd(x, i, 1);
    assert Pow2(1) == 2;
  }

  /** The number of bits in the minimal representation of x (Integer::BitCount, BitPrecision). */
  function BitCount(x: nat): nat {
    if x == 0 then 0 else 1 + BitCount(x / 2)
  }

  lemma {:induction false} BitCountBounds(x: nat)
    ensures x < Pow2(BitCount(x))
    ensures x > 0 ==> Pow2(BitCount(x) - 1) <= x
  {
    if x > 0 {
      BitCountBounds(x / 2);
    }
  }

  lemma BitCountTop(x: nat, n: nat)
    requires BitCount(x) <= n
    ensures x < Pow2(n) && Shr(x, n) == 0
  {
    BitCountBounds(x);
    Pow2Monotone(BitCount(x), n);
    DivModUnique(x, Pow2(n), 0, x);
  }

  /** How far n is from the next multiple of d. */
  function ToMultiple(n: nat, d: nat): (r: nat)
    requires d > 0
    ensures r < d
  {
    DivModLaw(n, d);
    if n % d == 0 then 0 else d - n % d
  }

  lemma ToMultipleIs(q: nat, r: nat, d: nat)
    requires r < d
    ensures ToMultiple(q * d + r, d) == if r == 0 then 0 else d - r
  {
    DivModUnique(q * d + r, d, q, r);
  }

  lemma ToMultipleCompletes(n: nat, d: nat)
    requires d > 0
    ensures (n + ToMultiple(n, d)) % d == 0
  {
    DivModLaw(n, d);
    MulDistributes(n / d, 1, d);
    if n % d == 0 {
      DivModUnique(n, d, n / d, 0);
    } else {
      DivModUnique(n + d - n % d, d, n / d + 1, 0);
    }
  }
}
