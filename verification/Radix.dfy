/** Positional notation: digits most significant first, in any base. */
module Radix {
  import opened PowersOfTwo

  /** The value of the digits ds appended to a number acc. */
  function Horner(acc: nat, ds: seq<nat>, base: nat): nat
    decreases |ds|
  {
    if ds == [] then acc else Horner(acc * base + ds[0], ds[1..], base)
  }

  function Value(ds: seq<nat>, base: nat): nat {
    Horner(0, ds, base)
  }

  /** The k low digits of n. */
  function Digits(n: nat, base: nat, k: nat): (ds: seq<nat>)
    requires base >= 2
    ensures |ds| == k && forall i :: 0 <= i < k ==> ds[i] < base
  {
    if k == 0 then [] else
      DivModLaw(n, base);
      Digits(n / base, base, k - 1) + [n % base]
  }

  /** The number of digits n needs; 0 needs none. */
  function Width(n: nat, base: nat): nat
    requires base >= 2
  {
    if n == 0 then 0 else
      Shrinks(n, base);
      1 + Width(n / base, base)
  }

  lemma Shrinks(n: nat, base: nat)
    requires base >= 2 && n > 0
    ensures 0 <= n / base < n
  {
    DivModLaw(n, base);
    if n / base > 0 {
      MulMonotone(2, base, n / base);
    }
  }

  lemma {:induction false} HornerConcat(acc: nat, a: seq<nat>, b: seq<nat>, base: nat)
    ensures Horner(acc, a + b, base) == Horner(Horner(acc, a, base), b, base)
    decreases |a|
  {
    if a == [] {
      assert a + b == b;
    } else {
      assert (a + b)[1..] == a[1..] + b;
      HornerConcat(acc * base + a[0], a[1..], b, base);
    }
  }

  lemma HornerLast(acc: nat, ds: seq<nat>, d: nat, base: nat)
    ensures Horner(acc, ds + [d], base) == Horner(acc, ds, base) * base + d
  {
    HornerConcat(acc, ds, [d], base);
    assert [d][1..] == [];
  }

  /** Appending digits never makes a number smaller, and grows it by the base at each one. */
  lemma {:induction false} HornerGrows(acc: nat, ds: seq<nat>, base: nat)
    requires base >= 1
    ensures Horner(acc, ds, base) >= acc
    ensures ds != [] ==> Horner(acc, ds, base) >= acc * base
    decreases |ds|
  {
    if ds != [] {
      HornerGrows(acc * base + ds[0], ds[1..], base);
      MulMonotone(1, base, acc);
    }
  }

  /** With enough digits, nothing of n is lost. */
  lemma {:induction false} ValueOfDigits(n: nat, base: nat, k: nat)
    requires base >= 2 && Width(n, base) <= k
    ensures Value(Digits(n, base, k), base) == n
  {
    if k > 0 {
      DivModLaw(n, base);
      if n > 0 {
        Shrinks(n, base);
      } else {
        DivModUnique(0, base, 0, 0);
      }
      ValueOfDigits(n / base, base, k - 1);
      HornerLast(0, Digits(n / base, base, k - 1), n % base, base);
    }
  }

  function Power(base: nat, k: nat): nat {
    if k == 0 then 1 else base * Power(base, k - 1)
  }

  /** A number below base^k needs at most k digits. */
  lemma {:induction false} WidthBound(n: nat, base: nat, k: nat)
    requires base >= 2 && n < Power(base, k)
    ensures Width(n, base) <= k
  {
    if n > 0 && k > 0 {
      Shrinks(n, base);
      DivModLaw(n, base);
      if n / base >= Power(base, k - 1) {
        MulMonotone(Power(base, k - 1), n / base, base);
      }
      WidthBound(n / base, base, k - 1);
    }
  }

  /** The leading digit of a minimal representation is not zero. */
  lemma {:induction false} LeadingDigit(n: nat, base: nat)
    requires base >= 2 && n > 0
    ensures Width(n, base) >= 1 && Digits(n, base, Width(n, base))[0] > 0
  {
    Shrinks(n, base);
    DivModLaw(n, base);
    if n / base > 0 {
      LeadingDigit(n / base, base);
    } else {
      assert n % base == n;
    }
  }

  /** No representation of n is shorter than its width. */
  lemma {:induction false} WidthMinimal(ds: seq<nat>, base: nat)
    requires base >= 2 && forall i :: 0 <= i < |ds| ==> ds[i] < base
    ensures Width(Value(ds, base), base) <= |ds|
  {
    if ds != [] {
      var front, d := ds[..|ds|-1], ds[|ds|-1];
      WidthMinimal(front, base);
      HornerLast(0, front, d, base);
      assert ds == front + [d];
      var v := Value(front, base);
      assert Value(ds, base) == v * base + d;
      if Value(ds, base) > 0 {
        DivModUnique(v * base + d, base, v, d);
      }
    }
  }

  lemma {:induction false} PowerPositive(base: nat, k: nat)
    requires base >= 1
    ensures Power(base, k) > 0
  {
    if k > 0 {
      PowerPositive(base, k - 1);
      MulMonotone(1, base, Power(base, k - 1));
    }
  }

  /** Digit i is the number shifted down by the digits after it. */
  lemma {:induction false} DigitAt(n: nat, base: nat, k: nat, i: nat)
    requires base >= 2 && i < k
    ensures Power(base, k - 1 - i) > 0 && n / Power(base, k - 1 - i) >= 0
    ensures Digits(n, base, k)[i] == n / Power(base, k - 1 - i) % base
    decreases k
  {
    PowerPositive(base, k - 1 - i);
    DivModLaw(n, Power(base, k - 1 - i));
    if i < k - 1 {
      DivModLaw(n, base);
      DigitAt(n / base, base, k - 1, i);
      PowerPositive(base, k - 2 - i);
      DivDiv(n, base, Power(base, k - 2 - i));
    }
  }
}
