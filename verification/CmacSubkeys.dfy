/** MulU: multiplication by x of polynomials over the field of two elements, in blocks of bytes. */
module CmacSubkeys {
  import opened Blocks
  import opened ByteBits

  // ---------- Polynomials ----------

  /** A polynomial is the set of the exponents whose coefficient is one; adding is the symmetric difference. */
  type Poly = set<nat>

  function Add(p: Poly, q: Poly): Poly {
    (p - q) + (q - p)
  }

  function TimesX(p: Poly): Poly {
    set e | e in p :: e + 1
  }

  /** Of degree below n. */
  predicate Below(p: Poly, n: nat) {
    forall e :: e in p ==> e < n
  }

  /** The modulus for blocks of the given number of bytes: x^64 + x^4 + x^3 + x + 1 and so on. */
  function LowTerms(length: nat): Poly {
    if length == 8 then {4, 3, 1, 0}
    else if length == 16 then {7, 2, 1, 0}
    else if length == 32 then {10, 5, 2, 0}
    else if length == 64 then {8, 5, 2, 0}
    else {19, 6, 1, 0}
  }

  predicate Supported(length: nat) {
    length in {8, 16, 32, 64, 128}
  }

  function Modulus(length: nat): Poly {
    LowTerms(length) + {8 * length}
  }

  /**
   r is p modulo m, for m of degree n and p of degree at most n: it is of lower degree and differs by a multiple of m.
   */
  predicate IsRemainder(r: Poly, p: Poly, m: Poly, n: nat) {
    Below(r, n) && (r == p || r == Add(p, m))
  }

  // ---------- Blocks as polynomials ----------

  /** The coefficient of x^e: the last byte holds the lowest exponents. */
  predicate Coefficient(k: Bytes, e: nat)
    requires e < 8 * |k|
  {
    ByteBit(k[|k| - 1 - e / 8], e % 8)
  }

  function PolyOf(k: Bytes): Poly {
    set e | 0 <= e < 8 * |k| && Coefficient(k, e)
  }

  /** The bit that a byte hands on to the byte before it. */
  function TopBit(x: bv8): bv8 {
    x >> 7
  }

  lemma DoubleByte(x: bv8, carry: bv8, j: nat)
    requires j < 8 && carry <= 1
    ensures ByteBit(x + x + carry, j) <==> if j == 0 then carry == 1 else ByteBit(x, j - 1)
  {
  }

  lemma TopBitIs(x: bv8)
    ensures TopBit(x) <= 1 && (TopBit(x) == 1 <==> ByteBit(x, 7))
  {
  }

  function Twice(x: bv8, carry: bv8): bv8 {
    x + x + carry
  }

  /** All the bytes shifted up by one bit. */
  function Doubled(k: Bytes): (r: Bytes)
    ensures |r| == |k|
  {
    seq(|k|, p requires 0 <= p < |k| => Twice(k[p], if p + 1 < |k| then TopBit(k[p + 1]) else 0))
  }

  lemma DoubledCoefficient(k: Bytes, e: nat)
    requires e < 8 * |k|
    ensures Coefficient(Doubled(k), e) <==> e > 0 && Coefficient(k, e - 1)
  {
    var p, j := |k| - 1 - e / 8, e % 8;
    var carry := if p + 1 < |k| then TopBit(k[p + 1]) else 0;
    if p + 1 < |k| {
      TopBitIs(k[p + 1]);
    }
    DoubleByte(k[p], carry, j);
    hide ByteBit, TopBit;
    if j > 0 {
      assert (e - 1) / 8 == e / 8 && (e - 1) % 8 == j - 1;
    } else if e > 0 {
      assert (e - 1) / 8 == e / 8 - 1 && (e - 1) % 8 == 7;
    }
  }

  lemma XorCoefficient(a: Bytes, b: Bytes, e: nat)
    requires |a| == |b| && e < 8 * |a|
    ensures Coefficient(Xor(a, b), e) <==> Coefficient(a, e) != Coefficient(b, e)
  {
    hide ByteBit;
    var p := |a| - 1 - e / 8;
    XorBit(a[p], b[p], e % 8);
  }

  // ---------- The reduction ----------

  /** The byte that is exclusive-ored into the q-th byte from the end. */
  function LowByte(length: nat, q: nat): bv8 {
    if q == 0 then (if length == 8 then 0x1b else if length == 16 then 0x87 else if length == 128 then 0x43 else 0x25)
    else if q == 1 then (if length == 32 then 4 else if length == 64 then 1 else 0)
    else if q == 2 && length == 128 then 8
    else 0
  }

  function LowBytes(length: nat): (r: Bytes)
    ensures |r| == length
  {
    seq(length, p requires 0 <= p < length => LowByte(length, length - 1 - p))
  }

  lemma LowBit(length: nat, q: nat, j: nat)
    requires Supported(length) && j < 8
    ensures ByteBit(LowByte(length, q), j) <==> 8 * q + j in LowTerms(length)
  {
    NoBits(j);
  }

  lemma LowCoefficient(length: nat, e: nat)
    requires Supported(length) && e < 8 * length
    ensures Coefficient(LowBytes(length), e) <==> e in LowTerms(length)
  {
    LowBit(length, e / 8, e % 8);
  }

  /** Two bytes at a time are shifted, so that in a block of odd size the first byte is left out. */
  function Shifted(k: Bytes): (r: Bytes)
    ensures |r| == |k|
  {
    k[..|k| % 2] + Doubled(k[|k| % 2..])
  }

  /** The bit that falls out at the front. */
  function ShiftedOut(k: Bytes): bv8 {
    if |k| % 2 < |k| then TopBit(k[|k| % 2]) else 0
  }

  lemma EvenShift(k: Bytes)
    requires |k| % 2 == 0 && |k| > 0
    ensures Shifted(k) == Doubled(k) && ShiftedOut(k) == TopBit(k[0])
  {
    assert k[0..] == k;
  }

  /** Shifted up, and reduced if the highest coefficient was one. */
  function Multiplied(k: Bytes): (r: Bytes)
    ensures |r| == |k|
  {
    if ShiftedOut(k) == 1 then Xor(Shifted(k), LowBytes(|k|)) else Shifted(k)
  }

  lemma MultipliedCoefficient(k: Bytes, e: nat)
    requires Supported(|k|) && e < 8 * |k|
    ensures Coefficient(Multiplied(k), e) <==>
            (e > 0 && Coefficient(k, e - 1)) != (Coefficient(k, 8 * |k| - 1) && e in LowTerms(|k|))
  {
    TopBitIs(k[0]);
    EvenShift(k);
    assert |k| - 1 - (8 * |k| - 1) / 8 == 0 && (8 * |k| - 1) % 8 == 7;
    DoubledCoefficient(k, e);
    XorCoefficient(Doubled(k), LowBytes(|k|), e);
    LowCoefficient(|k|, e);
  }

  lemma CoefficientIs(k: Bytes, e: nat)
    ensures e in PolyOf(k) <==> e < 8 * |k| && Coefficient(k, e)
  {
  }

  lemma PolyBelow(k: Bytes)
    ensures Below(PolyOf(k), 8 * |k|)
  {
  }

  lemma TimesXIs(p: Poly, e: nat)
    ensures e in TimesX(p) <==> e > 0 && e - 1 in p
  {
    if e > 0 && e - 1 in p {
      assert e == (e - 1) + 1;
    }
  }

  /** The block MulU leaves is x times the block it found, modulo the listed polynomial. */
  lemma MultipliedIsTimesX(k: Bytes)
    requires Supported(|k|)
    ensures IsRemainder(PolyOf(Multiplied(k)), TimesX(PolyOf(k)), Modulus(|k|), 8 * |k|)
  {
    hide Coefficient, Multiplied, PolyOf, TimesX, LowTerms;
    var p, r, n := PolyOf(k), PolyOf(Multiplied(k)), 8 * |k|;
    var top := Coefficient(k, n - 1);
    forall e: nat
      ensures e in r <==> e < n && (e in TimesX(p)) != (top && e in LowTerms(|k|))
    {
      CoefficientIs(Multiplied(k), e);
      TimesXIs(p, e);
      if 0 < e < n {
        CoefficientIs(k, e - 1);
      }
      if e < n {
        MultipliedCoefficient(k, e);
      }
    }
    CoefficientIs(k, n - 1);
    PolyBelow(k);
    Conclude(p, r, n, |k|, top);
  }

  lemma Conclude(p: Poly, r: Poly, n: nat, length: nat, top: bool)
    requires n == 8 * length && Supported(length) && Below(p, n) && (top <==> n - 1 in p)
    requires forall e: nat :: e in r <==> e < n && (e in TimesX(p)) != (top && e in LowTerms(length))
    ensures IsRemainder(r, TimesX(p), Modulus(length), n)
  {
    TimesXIs(p, n);
    if top {
      forall e: nat ensures e in r <==> e in Add(TimesX(p), Modulus(length)) {
        TimesXIs(p, e);
      }
      assert r == Add(TimesX(p), Modulus(length));
    } else {
      forall e: nat ensures e in r <==> e in TimesX(p) {
        TimesXIs(p, e);
      }
      assert r == TimesX(p);
    }
  }

  /** There is only one such remainder. */
  lemma RemainderUnique(r: Poly, s: Poly, p: Poly, m: Poly, n: nat)
    requires n in m && IsRemainder(r, p, m, n) && IsRemainder(s, p, m, n)
    ensures r == s
  {
    assert n in p <==> n !in Add(p, m);
  }

  // ---------- MulU ----------

  datatype Outcome = Done | InvalidArgument

  /** The bytes from position i on are shifted, those before are not yet. */
  predicate ShiftedFrom(k: Bytes, was: Bytes, i: int) {
    && |k| == |was| && -1 <= i < |k|
    && (forall p :: i < p < |k| ==> k[p] == Doubled(was)[p])
    && (forall p :: 0 <= p <= i ==> k[p] == was[p])
  }

  function CarryInto(was: Bytes, i: int): bv8
    requires -1 <= i < |was|
  {
    if i + 1 < |was| then TopBit(was[i + 1]) else 0
  }

  /**
   Two bytes a round, from the end. An unsupported length is noticed only when there is something to reduce.
   */
  method MulU(k: array<bv8>) returns (r: Outcome)
    modifies k
    ensures r.InvalidArgument? <==> !Supported(k.Length) && ShiftedOut(old(k[..])) == 1
    ensures r.Done? ==> k[..] == Multiplied(old(k[..]))
  {
    hide Shifted, ShiftedOut, Xor, LowBytes;
    var carry := ShiftUp(k);
    if carry != 0 {
      r := Reduce(k);
    } else {
      r := Done;
    }
  }

  /** The loop: every byte doubled, and the bit that falls out at the front. */
  method ShiftUp(k: array<bv8>) returns (carry: bv8)
    modifies k
    ensures k[..] == Shifted(old(k[..])) && carry == ShiftedOut(old(k[..])) && carry <= 1
  {
    ghost var was := k[..];
    hide *;
    StartShift(was);
    carry := 0;
    var i := k.Length - 1;
    ghost var pairs: nat := 0;
    while i >= 1
      invariant -1 <= i < k.Length && i + 1 == k.Length - pairs - pairs
      invariant ShiftedFrom(k[..], was, i) && carry == CarryInto(was, i)
    {
      carry := ShiftPair(k, i, carry, was);
      i := i - 2;
      pairs := pairs + 1;
    }
    Unpaired(k.Length, pairs);
    AllShifted(k[..], was);
  }

  lemma Unpaired(n: nat, pairs: nat)
    requires 0 <= n - pairs - pairs <= 1
    ensures n % 2 == n - pairs - pairs
  {
  }

  lemma StartShift(k: Bytes)
    ensures ShiftedFrom(k, k, |k| - 1) && CarryInto(k, |k| - 1) == 0
  {
  }

  method ShiftPair(k: array<bv8>, i: nat, carry: bv8, ghost was: Bytes) returns (carry': bv8)
    requires i >= 1 && ShiftedFrom(k[..], was, i) && carry == CarryInto(was, i)
    modifies k
    ensures ShiftedFrom(k[..], was, i - 2) && carry' == CarryInto(was, i - 2)
  {
    hide TopBit, Twice;
    assert k[i] == k[..][i] == was[i] && k[i - 1] == k[..][i - 1] == was[i - 1];
    ghost var before := k[..];
    var carry2 := TopBit(k[i]);
    k[i] := Twice(k[i], carry);
    carry' := TopBit(k[i - 1]);
    k[i - 1] := Twice(k[i - 1], carry2);
    assert k[i] == Doubled(was)[i] && k[i - 1] == Doubled(was)[i - 1];
    hide Doubled;
    assert k[..] == before[i := k[i]][i - 1 := k[i - 1]];
  }

  lemma AllShifted(k: Bytes, was: Bytes)
    requires ShiftedFrom(k, was, |was| % 2 - 1)
    ensures k == Shifted(was) && CarryInto(was, |was| % 2 - 1) == ShiftedOut(was) <= 1
  {
    var s := |was| % 2;
    if s < |was| {
      TopBitIs(was[s]);
    }
    hide TopBit, Doubled;
    DoubledSuffix(was, s);
    assert k == was[..s] + Doubled(was)[s..];
  }

  lemma DoubledSuffix(k: Bytes, s: nat)
    requires s <= |k|
    ensures Doubled(k[s..]) == Doubled(k)[s..]
  {
    hide TopBit, Twice;
  }

  /** k[p] ^= c. */
  method Flip(k: array<bv8>, p: nat, c: bv8)
    requires p < k.Length
    modifies k
    ensures k[..] == Flipped(old(k[..]), p, c)
  {
    k[p] := k[p] ^ c;
  }

  function XorByte(x: bv8, y: bv8): bv8 {
    x ^ y
  }

  lemma XorLow(k: Bytes, p: nat)
    requires p < |k|
    ensures Xor(k, LowBytes(|k|))[p] == XorByte(k[p], LowByte(|k|, |k| - 1 - p))
    ensures |k| - 1 - p >= 3 ==> Xor(k, LowBytes(|k|))[p] == k[p]
  {
    XorZero(k[p]);
  }

  function Flipped(k: Bytes, p: nat, c: bv8): (r: Bytes)
    requires p < |k|
    ensures |r| == |k|
  {
    k[p := XorByte(k[p], c)]
  }

  /** Flipping the last three bytes with the bytes of the polynomial is exclusive or with all of it. */
  lemma FlipTail(k: Bytes)
    requires |k| >= 3
    ensures var n := |k|;
            Flipped(Flipped(Flipped(k, n - 3, LowByte(n, 2)), n - 2, LowByte(n, 1)), n - 1, LowByte(n, 0)) ==
            Xor(k, LowBytes(n))
  {
    hide XorByte, LowByte, Xor, LowBytes;
    var n := |k|;
    var f := Flipped(Flipped(Flipped(k, n - 3, LowByte(n, 2)), n - 2, LowByte(n, 1)), n - 1, LowByte(n, 0));
    forall p | 0 <= p < n ensures f[p] == Xor(k, LowBytes(n))[p] {
      XorLow(k, p);
    }
  }

  lemma FlipNothing(k: Bytes, p: nat)
    requires p < |k|
    ensures Flipped(k, p, 0) == k
  {
    XorZero(k[p]);
  }

  /** The switch over the block lengths. */
  method Reduce(k: array<bv8>) returns (r: Outcome)
    modifies k
    ensures r.Done? <==> Supported(k.Length)
    ensures r.Done? ==> k[..] == Xor(old(k[..]), LowBytes(k.Length))
  {
    hide Flipped, Xor, LowBytes;
    r := Done;
    ghost var was, n := k[..], k.Length;
    if n >= 3 {
      FlipTail(was);
      FlipNothing(was, n - 3);
      FlipNothing(was, n - 2);
    }
    match k.Length {
      case 8 =>
        Flip(k, 7, 0x1b);
      case 16 =>
        Flip(k, 15, 0x87);
      case 32 =>
        Flip(k, 30, 4);
        Flip(k, 31, 0x25);
      case 64 =>
        Flip(k, 62, 1);
        Flip(k, 63, 0x25);
      case 128 =>
        Flip(k, 125, 8);
        FlipNothing(k[..], 126);
        Flip(k, 126, 0x00);
        Flip(k, 127, 0x43);
      case _ =>
        r := InvalidArgument;
    }
  }
}
