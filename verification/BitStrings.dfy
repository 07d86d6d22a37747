/** Strings of bits, most significant first, and the numbers and bytes they make up. */
module BitStrings {
  import opened PowersOfTwo

  type Bits = seq<bool>

  function Num(bits: Bits): nat {
    if bits == [] then 0 else 2 * Num(bits[..|bits|-1]) + if bits[|bits|-1] then 1 else 0
  }

  /** The k low bits of n. */
  function BitsOf(n: nat, k: nat): (r: Bits)
    ensures |r| == k
  {
    if k == 0 then [] else BitsOf(n / 2, k - 1) + [n % 2 == 1]
  }

  lemma {:induction false} NumBound(bits: Bits)
    ensures Num(bits) < Pow2(|bits|)
  {
    if bits != [] {
      NumBound(bits[..|bits|-1]);
    }
  }

  lemma {:induction false} NumConcat(a: Bits, b: Bits)
    ensures Num(a + b) == Num(a) * Pow2(|b|) + Num(b)
    decreases |b|
  {
    if b == [] {
      assert a + b == a;
    } else {
      var front := b[..|b|-1];
      NumConcat(a, front);
      assert (a + b)[..|a + b|-1] == a + front;
      MulAssoc(2, Num(a), Pow2(|front|));
      MulAssoc(Num(a), 2, Pow2(|front|));
    }
  }

  /** A bit string split at t. */
  lemma NumSplit(bits: Bits, t: nat)
    requires t <= |bits|
    ensures Num(bits) == Num(bits[..t]) * Pow2(|bits| - t) + Num(bits[t..])
    ensures Num(bits[t..]) < Pow2(|bits| - t)
  {
    hide Num, Pow2;
    var hi, lo := bits[..t], bits[t..];
    NumConcat(hi, lo);
    NumBound(lo);
    assert Num(bits) == Num(hi + lo) by {
      assert bits == hi + lo;
    }
  }

  /** Shifting a number up by b and down by a+b leaves what was above its low a bits. */
  lemma ShiftUpDown(hi: nat, lo: nat, a: nat, b: nat)
    requires lo < Pow2(a)
    ensures (hi * Pow2(a) + lo) * Pow2(b) / Pow2(a + b) == hi
    ensures (hi * Pow2(a) + lo) * Pow2(b) % Pow2(a + b) == lo * Pow2(b)
  {
    Pow2Add(a, b);
    MulDistributes(hi * Pow2(a), lo, Pow2(b));
    MulAssoc(hi, Pow2(a), Pow2(b));
    MulMonotone(lo + 1, Pow2(a), Pow2(b));
    MulDistributes(lo, 1, Pow2(b));
    DivModUnique((hi * Pow2(a) + lo) * Pow2(b), Pow2(a + b), hi, lo * Pow2(b));
  }

  lemma {:induction false} NumOfBits(n: nat, k: nat)
    requires n < Pow2(k)
    ensures Num(BitsOf(n, k)) == n
    decreases k
  {
    if k > 0 {
      NumOfBits(n / 2, k - 1);
      assert BitsOf(n, k)[..k-1] == BitsOf(n / 2, k - 1);
    }
  }

  lemma {:induction false} BitsOfNum(bits: Bits)
    ensures BitsOf(Num(bits), |bits|) == bits
    decreases |bits|
  {
    if bits != [] {
      var front, last, m := bits[..|bits|-1], bits[|bits|-1], Num(bits);
      BitsOfNum(front);
      assert m == 2 * Num(front) + if last then 1 else 0;
      assert m / 2 == Num(front) && (m % 2 == 1) == last;
      hide Num;
      assert BitsOf(m, |bits|) == front + [last];
    }
  }

  function Falses(n: nat): (r: Bits)
    ensures |r| == n
  {
    seq(n, _ => false)
  }

  lemma {:induction false} NumOfFalses(n: nat)
    ensures Num(Falses(n)) == 0
  {
    if n > 0 {
      NumOfFalses(n - 1);
      assert Falses(n)[..n-1] == Falses(n - 1);
    }
  }

  /** Zero bits at the end shift a number up. */
  lemma NumShifted(bits: Bits, n: nat)
    ensures Num(bits + Falses(n)) == Num(bits) * Pow2(n)
  {
    NumConcat(bits, Falses(n));
    NumOfFalses(n);
  }

  // ---------- Bitwise or ----------

  function OrBit(a: nat, b: nat): (r: nat)
    ensures r <= 1
  {
    if a % 2 == 1 || b % 2 == 1 then 1 else 0
  }

  /** The bitwise or of two numbers below 2^k. */
  function Or(a: nat, b: nat, k: nat): nat {
    if k == 0 then 0 else 2 * Or(a / 2, b / 2, k - 1) + OrBit(a, b)
  }

  /** Where the set bits of a lie above those of b, or is addition. */
  lemma {:induction false} OrDisjoint(a: nat, b: nat, t: nat, k: nat)
    requires t <= k && a * Pow2(t) < Pow2(k) && b < Pow2(t)
    ensures Or(a * Pow2(t), b, k) == a * Pow2(t) + b
    decreases k
  {
    if k > 0 {
      if t == 0 {
        OrZero(a, k);
      } else {
        var h := a * Pow2(t - 1);
        assert a * Pow2(t) == 2 * h by { MulAssoc(a, 2, Pow2(t - 1)); MulAssoc(2, a, Pow2(t - 1)); }
        OrDisjoint(a, b / 2, t - 1, k - 1);
        assert (2 * h) / 2 == h && (2 * h) % 2 == 0;
      }
    } else {
      assert a * Pow2(0) == a;
    }
  }

  lemma {:induction false} OrZero(a: nat, k: nat)
    requires a < Pow2(k)
    ensures Or(a, 0, k) == a
    decreases k
  {
    if k > 0 {
      OrZero(a / 2, k - 1);
    }
  }

  // ---------- Bytes and k-bit groups ----------

  type byte = x: nat | x < 256

  lemma PowEight()
    ensures Pow2(8) == 256
  {
    assert Pow2(4) == 16;
    Pow2Add(4, 4);
  }

  /** The bits of a byte string. */
  function ByteBits(s: seq<byte>): (r: Bits)
    ensures |r| == 8 * |s|
  {
    if s == [] then [] else BitsOf(s[0], 8) + ByteBits(s[1..])
  }

  lemma {:induction false} ByteBitsConcat(a: seq<byte>, b: seq<byte>)
    ensures ByteBits(a + b) == ByteBits(a) + ByteBits(b)
    decreases |a|
  {
    if a == [] {
      assert a + b == b;
    } else {
      assert (a + b)[1..] == a[1..] + b;
      ByteBitsConcat(a[1..], b);
    }
  }

  /** The whole k-bit groups of a bit string, as numbers. */
  function Groups(bits: Bits, k: nat): (r: seq<nat>)
    requires k > 0
    ensures forall i :: 0 <= i < |r| ==> r[i] < Pow2(k)
    decreases |bits|
  {
    if |bits| < k then [] else
      NumBound(bits[..k]);
      [Num(bits[..k])] + Groups(bits[k..], k)
  }

  lemma {:induction false} GroupsConcat(a: Bits, b: Bits, k: nat, n: nat)
    requires k > 0 && |a| == n * k
    ensures Groups(a + b, k) == Groups(a, k) + Groups(b, k) && |Groups(a, k)| == n
    decreases n
  {
    if n == 0 {
      assert a + b == b;
    } else {
      MulDistributes(n - 1, 1, k);
      MulMonotone(0, n - 1, k);
      assert (a + b)[..k] == a[..k] && (a + b)[k..] == a[k..] + b;
      GroupsConcat(a[k..], b, k, n - 1);
    }
  }

  /** Bytes are the 8-bit groups of their bits. */
  lemma {:induction false} GroupsOfByteBits(s: seq<byte>, tail: Bits)
    requires |tail| < 8
    ensures Groups(ByteBits(s) + tail, 8) == s
    decreases |s|
  {
    PowEight();
    var bits := ByteBits(s) + tail;
    if s != [] {
      NumOfBits(s[0], 8);
      assert bits[..8] == BitsOf(s[0], 8) && bits[8..] == ByteBits(s[1..]) + tail;
      GroupsOfByteBits(s[1..], tail);
    }
  }

  /** The bits of a string of k-bit numbers. */
  function GroupBits(ds: seq<nat>, k: nat): (r: Bits)
    ensures |r| == |ds| * k
  {
    if ds == [] then [] else
      MulDistributes(|ds| - 1, 1, k);
      BitsOf(ds[0], k) + GroupBits(ds[1..], k)
  }

  lemma {:induction false} GroupBitsConcat(a: seq<nat>, b: seq<nat>, k: nat)
    ensures GroupBits(a + b, k) == GroupBits(a, k) + GroupBits(b, k)
    decreases |a|
  {
    if a == [] {
      assert a + b == b;
    } else {
      assert (a + b)[1..] == a[1..] + b;
      GroupBitsConcat(a[1..], b, k);
    }
  }

  /** Grouping and spelling out again returns the bits that were grouped. */
  lemma {:induction false} GroupBitsOfGroups(bits: Bits, k: nat, n: nat)
    requires k > 0 && |bits| == n * k
    ensures GroupBits(Groups(bits, k), k) == bits
    decreases n
  {
    if n > 0 {
      MulDistributes(n - 1, 1, k);
      MulMonotone(0, n - 1, k);
      BitsOfNum(bits[..k]);
      GroupBitsOfGroups(bits[k..], k, n - 1);
      assert bits == bits[..k] + bits[k..];
      assert Groups(bits, k)[1..] == Groups(bits[k..], k);
    }
  }
}
