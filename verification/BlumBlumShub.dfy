/** The Blum-Blum-Shub generator: stepping, and Seek, which jumps by one exponentiation with a reduced exponent. */
module BlumBlumShub {
  import opened PowersOfTwo
  import opened Group
  import opened Simultaneous
  import opened Euclid
  import opened NumberTheory

  // ---------- The ring ModularArithmetic exponentiates in ----------

  /** The multiplicative monoid of Z/n; its elements need not be units, and inversion is not fast. */
  function ModularGroup(n: int): Group<int>
    requires n >= 2
  {
    Group(x => 0 <= x < n, 1, (a, b) => a * b % n, a => a, false)
  }

  lemma ModMulAssociative(a: int, b: int, c: int, n: int)
    requires n > 0
    ensures (a * b % n) * c % n == a * (b * c % n) % n
  {
    ModCongruent(a * b, n);
    ModCongruent(b * c, n);
    CongruentRefl(a, n);
    CongruentRefl(c, n);
    CongruentMul(a * b, a * b % n, c, c, n);
    CongruentMul(a, a, b * c, b * c % n, n);
    CongruentSameResidue(a * b * c, (a * b % n) * c, n);
    CongruentSameResidue(a * (b * c), a * (b * c % n), n);
    MulAssoc(a, b, c);
  }

  lemma ModularGroupLawful(n: int)
    requires n >= 2
    ensures Lawful(ModularGroup(n)) && Commutative(ModularGroup(n))
  {
    var g := ModularGroup(n);
    forall a: int, b: int | g.In(a) && g.In(b) ensures g.In(g.Add(a, b)) {
      DivModLaw(a * b, n);
    }
    forall a: int, b: int, c: int | g.In(a) && g.In(b) && g.In(c) ensures Regroups(g, a, b, c) {
      ModMulAssociative(a, b, c, n);
    }
    forall a: int | g.In(a) ensures g.Add(1, a) == a && g.Add(a, 1) == a {
      DivModUnique(a, n, 0, a);
    }
    forall a: int, b: int | g.In(a) && g.In(b) ensures Commute(g, a, b) {
    }
  }

  /** Repeated addition in this monoid is exponentiation modulo n. */
  lemma {:induction false} TimesIsPower(n: int, e: nat, x: int)
    requires n >= 2 && 0 <= x < n && Lawful(ModularGroup(n))
    ensures Times(ModularGroup(n), e, x) == Pow(x, e) % n
  {
    hide Lawful;
    if e == 0 {
      DivModUnique(1, n, 0, 1);
    } else {
      TimesIsPower(n, e - 1, x);
      var y := Pow(x, e - 1);
      ModCongruent(y, n);
      CongruentRefl(x, n);
      CongruentMul(y, y % n, x, x, n);
      CongruentSameResidue(y * x, y % n * x, n);
    }
  }

  /** modn.Exponentiate. */
  method Exponentiate(n: int, x: int, e: nat) returns (r: int)
    requires n >= 2 && 0 <= x < n
    ensures r == Pow(x, e) % n
  {
    ModularGroupLawful(n);
    TimesIsPower(n, e, x);
    hide Lawful;
    r := ScalarMultiply(ModularGroup(n), x, e);
  }

  // ---------- The bit stream ----------

  /** The state after k squarings of the initial one: x0^(2^(k+1)). */
  ghost function StateAfter(n: int, x0: int, k: nat): (r: nat)
    requires n > 0
    ensures r < n
  {
    DivModLaw(Pow(x0, Pow2(k + 1)), n);
    Pow(x0, Pow2(k + 1)) % n
  }

  /** Bit number t of the stream: each state gives its low bits, most significant first. */
  ghost function BitAt(n: int, x0: int, maxBits: nat, t: nat): (b: nat)
    requires n > 0 && maxBits > 0
    ensures b <= 1
  {
    DivModLaw(t, maxBits);
    Bit(StateAfter(n, x0, t / maxBits), maxBits - 1 - t % maxBits)
  }

  lemma StateSquares(n: int, x0: int, k: nat)
    requires n > 0
    ensures StateAfter(n, x0, k + 1) == StateAfter(n, x0, k) * StateAfter(n, x0, k) % n
  {
    var y := Pow(x0, Pow2(k + 1));
    PowAdd(x0, Pow2(k + 1), Pow2(k + 1));
    ModCongruent(y, n);
    CongruentMul(y, y % n, y, y % n, n);
    CongruentSameResidue(y * y, y % n * (y % n), n);
  }

  lemma FirstState(n: int, x0: int)
    requires n > 0
    ensures StateAfter(n, x0, 0) == x0 * x0 % n
  {
    assert Pow2(1) == 2;
    assert Pow(x0, 2) == x0 * Pow(x0, 1) && Pow(x0, 1) == x0 * Pow(x0, 0);
  }

  /** Where position t lies: in state k with left bits still unread. */
  ghost predicate Located(maxBits: nat, t: nat, k: nat, left: nat) {
    left <= maxBits && t == k * maxBits + (maxBits - left)
  }

  lemma LocatedQuotient(maxBits: nat, t: nat, k: nat, left: nat)
    requires Located(maxBits, t, k, left) && left > 0
    ensures t / maxBits == k && t % maxBits == maxBits - left
  {
    DivModUnique(t, maxBits, k, maxBits - left);
  }

  class BlumBlumShub {
    const p: int
    const q: int
    const n: int
    const seed: int
    const x0: int
    const maxBits: nat
    var current: int
    var bitsLeft: nat

    constructor (p: int, q: int, seed: int)
      requires p >= 2 && q >= 2
      ensures Valid() && this.p == p && this.q == q && this.seed == seed
      ensures InStep(0)
    {
      var n := p * q;
      MulMonotone(2, p, q);
      this.p, this.q, this.n, this.seed := p, q, n, seed;
      DivModLaw(seed * seed, n);
      var x0 := seed * seed % n;
      this.x0 := x0;
      current := x0 * x0 % n;
      EnoughBits(n);
      BitCountBounds(BitCount(n));
      maxBits := BitCount(BitCount(n)) - 1;
      bitsLeft := BitCount(BitCount(n)) - 1;
      new;
      FirstState(n, x0);
      assert Located(maxBits, 0, 0, bitsLeft);
    }

    /** Each state gives as many bits as the length of the modulus, itself written in binary, has after its first. */
    ghost predicate Valid() {
      && p >= 2 && q >= 2 && n == p * q && n >= 4
      && x0 == seed * seed % n && 0 <= x0 < n
      && maxBits >= 1 && Pow2(maxBits) <= BitCount(n) < Pow2(maxBits + 1)
    }

    /** The generator is about to emit bit t of the stream. */
    ghost predicate InStep(t: nat)
      requires Valid()
      reads this
    {
      exists k: nat :: Located(maxBits, t, k, bitsLeft) && current == StateAfter(n, x0, k)
    }

    /** Stepping emits the bits of the stream in order. */
    method GenerateBit(ghost t: nat) returns (b: nat)
      requires Valid() && InStep(t)
      modifies `current, `bitsLeft
      ensures InStep(t + 1) && b == BitAt(n, x0, maxBits, t)
    {
      hide StateAfter;
      ghost var k: nat :| Located(maxBits, t, k, bitsLeft) && current == StateAfter(n, x0, k);
      if bitsLeft == 0 {
        StateSquares(n, x0, k);
        k := k + 1;
        current := current * current % n;
        bitsLeft := maxBits;
        MulDistributes(k - 1, 1, maxBits);
      }
      assert Located(maxBits, t, k, bitsLeft);
      LocatedQuotient(maxBits, t, k, bitsLeft);
      bitsLeft := bitsLeft - 1;
      assert Located(maxBits, t + 1, k, bitsLeft);
      b := Bit(current, bitsLeft);
    }

    /** A byte is the number formed by the next eight bits, the first one most significant. */
    method GenerateByte(ghost t: nat) returns (b: nat)
      requires Valid() && InStep(t)
      modifies `current, `bitsLeft
      ensures InStep(t + 8) && b == FromBits(Stretch(n, x0, maxBits, t, 8)) && b < 256
    {
      hide BitAt, InStep, FromBits;
      b := 0;
      EmptyBits();
      for i := 0 to 8
        invariant InStep(t + i) && b == FromBits(Stretch(n, x0, maxBits, t, i))
      {
        var bit := GenerateBit(t + i);
        FromBitsAppend(Stretch(n, x0, maxBits, t, i), bit);
        b := 2 * b + bit;
      }
      ByteBound(Stretch(n, x0, maxBits, t, 8));
    }

    /**
     Random access agrees with stepping, for two distinct primes, exactly when the reduced
     exponent is positive or the seed is prime to the modulus.
     */
    method Seek(index: nat)
      requires Valid()
      modifies `current, `bitsLeft
      ensures Prime(p) && Prime(q) && p != q ==>
                (InStep(8 * index) <==>
                  Pow2(8 * index / maxBits + 1) % Totient(p, q) > 0 || (!Divides(p, seed) && !Divides(q, seed)))
    {
      hide StateAfter, Prime, Pow, Totient, InStep;
      var i := 8 * index;
      DivModLaw(i, maxBits);
      var k := i / maxBits;
      var full := Pow2(k + 1);
      DivModLaw(full, Totient(p, q));
      var e := full % Totient(p, q);
      current := Exponentiate(n, x0, e);
      bitsLeft := maxBits - i % maxBits;
      if Prime(p) && Prime(q) && p != q {
        SeekState(p, q, seed, x0, k, e);
        SeekPosition(i, k);
      }
    }

    /** Mid-state positions determine their state. */
    lemma SeekPosition(t: nat, k: nat)
      requires Valid() && k == t / maxBits && bitsLeft == maxBits - t % maxBits && bitsLeft > 0
      ensures InStep(t) <==> current == StateAfter(n, x0, k)
    {
      DivModLaw(t, maxBits);
      assert Located(maxBits, t, k, bitsLeft);
      forall j: nat | Located(maxBits, t, j, bitsLeft) ensures j == k {
        LocatedQuotient(maxBits, t, j, bitsLeft);
      }
    }
  }

  lemma EnoughBits(n: nat)
    requires n >= 4
    ensures BitCount(BitCount(n)) >= 2
  {
    assert BitCount(n) == 1 + BitCount(n / 2) && BitCount(n / 2) == 1 + BitCount(n / 2 / 2);
    var b := BitCount(n);
    assert BitCount(b) == 1 + BitCount(b / 2) && BitCount(b / 2) >= 1;
  }

  /** The len bits of the stream from position t on. */
  ghost function Stretch(n: int, x0: int, maxBits: nat, t: nat, len: nat): (s: seq<nat>)
    requires n > 0 && maxBits > 0
    ensures |s| == len && forall i :: 0 <= i < len ==> s[i] == BitAt(n, x0, maxBits, t + i) && s[i] <= 1
  {
    if len == 0 then [] else Stretch(n, x0, maxBits, t, len - 1) + [BitAt(n, x0, maxBits, t + len - 1)]
  }

  /** The number whose binary digits, most significant first, are bits. */
  function FromBits(bits: seq<nat>): nat {
    if bits == [] then 0 else 2 * FromBits(bits[..|bits|-1]) + bits[|bits|-1]
  }

  lemma FromBitsAppend(bits: seq<nat>, bit: nat)
    ensures FromBits(bits + [bit]) == 2 * FromBits(bits) + bit
  {
    assert (bits + [bit])[..|bits|] == bits;
  }

  lemma EmptyBits()
    ensures FromBits([]) == 0
  {
  }

  lemma ByteBound(bits: seq<nat>)
    requires |bits| == 8 && forall j :: 0 <= j < |bits| ==> bits[j] <= 1
    ensures FromBits(bits) < 256
  {
    FromBitsBits(bits);
    assert Pow2(4) == 16;
    Pow2Add(4, 4);
  }

  lemma {:induction false} FromBitsBits(bits: seq<nat>)
    requires forall j :: 0 <= j < |bits| ==> bits[j] <= 1
    ensures FromBits(bits) < Pow2(|bits|)
    ensures forall i :: 0 <= i < |bits| ==> Bit(FromBits(bits), |bits| - 1 - i) == bits[i]
  {
    if bits != [] {
      var front := bits[..|bits|-1];
      var n, m := FromBits(front), FromBits(bits);
      FromBitsBits(front);
      assert Shr(m, 1) == n by { assert Pow2(1) == 2; }
      hide Shr, FromBits;
      forall i | 0 <= i < |bits| ensures Bit(m, |bits| - 1 - i) == bits[i] {
        var j := |bits| - 1 - i;
        if j == 0 {
          ShrZero(m);
        } else {
          ShrAdd(m, 1, j - 1);
          assert Bit(n, j - 1) == front[i];
        }
      }
    }
  }

  /** A prime divides the reduced square of the seed exactly when it divides the seed. */
  lemma SeedDivisor(f: int, n: int, seed: int, x0: int)
    requires Prime(f) && n > 0 && Divides(f, n) && x0 == seed * seed % n
    ensures Divides(f, x0) <==> Divides(f, seed)
  {
    ModCongruent(seed * seed, n);
    assert Divides(n, seed * seed - x0);
    var j :| IsMultiple(n, f, j);
    var i :| IsMultiple(seed * seed - x0, n, i);
    MulAssoc(f, j, i);
    assert IsMultiple(seed * seed - x0, f, j * i);
    if Divides(f, seed) {
      DividesCombination(f, seed, seed, seed, 0);
      DividesCombination(f, seed * seed, seed * seed - x0, 1, -1);
    }
    if Divides(f, x0) {
      DividesCombination(f, x0, seed * seed - x0, 1, 1);
      var a := Abs(seed);
      assert seed * seed == a * a;
      PrimeDividesProduct(f, a, a);
      DividesCombination(f, a, a, -1, 0);
    }
  }

  /** The state Seek computes against the state stepping reaches. */
  lemma SeekState(p: int, q: int, seed: int, x0: nat, k: nat, e: nat)
    requires Prime(p) && Prime(q) && p != q
    requires p * q > 0 && x0 == seed * seed % (p * q) && e == Pow2(k + 1) % Totient(p, q)
    ensures Pow(x0, e) % (p * q) == StateAfter(p * q, x0, k) <==>
            e > 0 || (!Divides(p, seed) && !Divides(q, seed))
  {
    var n := p * q;
    assert IsMultiple(n, p, q) && IsMultiple(n, q, p);
    SeedDivisor(p, n, seed, x0);
    SeedDivisor(q, n, seed, x0);
    ReduceExponentPQ(p, q, x0, Pow2(k + 1));
    CongruentSameResidue(Pow(x0, Pow2(k + 1)), Pow(x0, e), n);
  }

  lemma SmallPrimes()
    ensures Prime(2) && Prime(3)
  {
    forall d | d >= 1 && Divides(d, 2) ensures d == 1 || d == 2 {
      DivisorBound(d, 2);
    }
    forall d | d >= 1 && Divides(d, 3) ensures d == 1 || d == 3 {
      DivisorBound(d, 3);
      var k :| IsMultiple(3, d, k);
      assert d != 2;
    }
  }

  /** The exception is real: with p = 2, q = 3 and seed 2, seeking to the very start leaves the stream. */
  lemma SeekMissesSharedFactor()
    ensures Prime(2) && Prime(3)
    ensures Pow2(0 + 1) % Totient(2, 3) == 0 && Divides(2, 2)
    ensures Pow(2 * 2 % 6, 0) % 6 != StateAfter(6, 2 * 2 % 6, 0)
  {
    SmallPrimes();
    assert IsMultiple(2, 2, 1);
    assert Pow2(1) == 2;
    FirstState(6, 4);
  }
}
