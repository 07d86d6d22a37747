/** Byte strings, exclusive or, zero padding and the CBC chain shared by the block-cipher modes. */
module Blocks {
  import opened PowersOfTwo

  type Bytes = seq<bv8>

  function Xor(a: Bytes, b: Bytes): (r: Bytes)
    requires |a| == |b|
    ensures |r| == |a|
  {
    seq(|a|, i requires 0 <= i < |a| => a[i] ^ b[i])
  }

  lemma XorInvolution(a: Bytes, b: Bytes)
    requires |a| == |b|
    ensures Xor(Xor(a, b), b) == a
  {
    forall i | 0 <= i < |a| ensures Xor(Xor(a, b), b)[i] == a[i] {
      XorCancels(a[i], b[i]);
    }
  }

  lemma XorCancels(x: bv8, y: bv8)
    ensures (x ^ y) ^ y == x
  {
  }

  lemma XorZero(x: bv8)
    ensures x ^ 0 == x && 0 ^ x == x
  {
  }

  function Zeros(n: nat): (r: Bytes)
    ensures |r| == n
  {
    seq(n, _ => 0)
  }

  lemma XorZeros(b: Bytes)
    ensures Xor(Zeros(|b|), b) == b
  {
    forall i | 0 <= i < |b| ensures Xor(Zeros(|b|), b)[i] == b[i] {
      XorZero(b[i]);
    }
  }

  /** A block cipher's encryption as an arbitrary length-preserving function. */
  ghost predicate IsCipher(E: Bytes -> Bytes, size: nat) {
    size > 0 && forall b: Bytes {:trigger E(b)} :: |b| == size ==> |E(b)| == size
  }

  /** The CBC chain over the whole blocks of data, starting from x. */
  ghost function CbcChain(E: Bytes -> Bytes, size: nat, x: Bytes, data: Bytes): (r: Bytes)
    requires IsCipher(E, size) && |x| == size
    ensures |r| == size
    decreases |data|
  {
    if |data| < size then x
    else CbcChain(E, size, E(Xor(x, data[..size])), data[size..])
  }

  lemma {:induction false} CbcChainConcat(E: Bytes -> Bytes, size: nat, x: Bytes, a: Bytes, b: Bytes)
    requires IsCipher(E, size) && |x| == size && |a| % size == 0
    ensures CbcChain(E, size, x, a + b) == CbcChain(E, size, CbcChain(E, size, x, a), b)
    decreases |a|
  {
    if |a| == 0 {
      assert a + b == b;
    } else {
      MultipleAtLeast(|a|, size);
      assert (a + b)[..size] == a[..size] && (a + b)[size..] == a[size..] + b;
      CbcChainConcat(E, size, E(Xor(x, a[..size])), a[size..], b);
    }
  }

  lemma CbcChainOneBlock(E: Bytes -> Bytes, size: nat, x: Bytes, b: Bytes)
    requires IsCipher(E, size) && |x| == size && |b| == size
    ensures CbcChain(E, size, x, b) == E(Xor(x, b))
  {
    assert b[..size] == b && b[size..] == [];
  }

  /** A positive multiple is at least one, and stays a multiple below. */
  lemma MultipleAtLeast(n: nat, size: nat)
    requires size > 0 && n > 0 && n % size == 0
    ensures n >= size && (n - size) % size == 0
  {
    DivModLaw(n, size);
    assert n / size != 0;
    MulMonotone(1, n / size, size);
    MulDistributes(n / size, -1, size);
    DivModUnique(n - size, size, n / size - 1, 0);
  }

  // ---------- The last block of a message ----------

  /**
   How many bytes of a message of n bytes come before its last block; the last block is empty only if the message is.
   */
  function HeadLength(n: nat, size: nat): (r: nat)
    requires size > 0
    ensures r <= n
  {
    if n <= size then 0 else size + HeadLength(n - size, size)
  }

  lemma {:induction false} HeadBound(n: nat, size: nat)
    requires size > 0
    ensures n - HeadLength(n, size) <= size && (n > 0 ==> HeadLength(n, size) < n) && HeadLength(n, size) % size == 0
    decreases n
  {
    if n > size {
      HeadBound(n - size, size);
      AddMultiple(HeadLength(n - size, size), size);
    }
  }

  lemma AddMultiple(n: nat, size: nat)
    requires size > 0 && n % size == 0
    ensures (n + size) % size == 0
  {
    DivModLaw(n, size);
    MulDistributes(n / size, 1, size);
    DivModUnique(n + size, size, n / size + 1, 0);
  }

  /** A message cut after whole blocks, with one to size bytes left, is cut where the definition cuts it. */
  lemma {:induction false} HeadIs(a: nat, b: nat, size: nat)
    requires size > 0 && a % size == 0 && b <= size && (a > 0 ==> b > 0)
    ensures HeadLength(a + b, size) == a
    decreases a
  {
    if a > 0 {
      MultipleAtLeast(a, size);
      HeadIs(a - size, b, size);
    }
  }

  lemma SumOfMultiples(m: nat, n: nat, size: nat)
    requires size > 0 && m % size == 0 && n % size == 0
    ensures (m + n) % size == 0
  {
    DivModLaw(m, size);
    DivModLaw(n, size);
    MulDistributes(m / size, n / size, size);
    DivModUnique(m + n, size, m / size + n / size, 0);
  }

  // ---------- Big-endian integers ----------

  /** The low 8*k bits of n, most significant byte first (PutWord with BIG_ENDIAN_ORDER). */
  function BigEndian(n: nat, k: nat): (r: Bytes)
    ensures |r| == k
  {
    if k == 0 then [] else BigEndian(n / 256, k - 1) + [(n % 256) as bv8]
  }

  lemma {:induction false} BigEndianSuffix(n: nat, k: nat, j: nat)
    requires j <= k
    ensures BigEndian(n, k)[k - j..] == BigEndian(n, j)
  {
    if j > 0 {
      BigEndianSuffix(n / 256, k - 1, j - 1);
    }
  }
}
