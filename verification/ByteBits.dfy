/** The single bits of bytes. */
module ByteBits {
  function Mask(j: nat): bv8
    requires j < 8
  {
    if j == 0 then 1 else if j == 1 then 2 else if j == 2 then 4 else if j == 3 then 8
    else if j == 4 then 16 else if j == 5 then 32 else if j == 6 then 64 else 128
  }

  predicate ByteBit(x: bv8, j: nat)
    requires j < 8
  {
    x & Mask(j) != 0
  }

  lemma XorBit(x: bv8, y: bv8, j: nat)
    requires j < 8
    ensures ByteBit(x ^ y, j) <==> ByteBit(x, j) != ByteBit(y, j)
  {
    XorMasked(x, y, Mask(j));
  }

  lemma XorMasked(x: bv8, y: bv8, m: bv8)
    requires m & (m - 1) == 0
    ensures (x ^ y) & m != 0 <==> (x & m != 0) != (y & m != 0)
  {
  }

  lemma AndBit(x: bv8, y: bv8, j: nat)
    requires j < 8
    ensures ByteBit(x & y, j) <==> ByteBit(x, j) && ByteBit(y, j)
  {
    AndMasked(x, y, Mask(j));
  }

  lemma AndMasked(x: bv8, y: bv8, m: bv8)
    requires m & (m - 1) == 0
    ensures (x & y) & m != 0 <==> x & m != 0 && y & m != 0
  {
  }

  lemma OrBit(x: bv8, y: bv8, j: nat)
    requires j < 8
    ensures ByteBit(x | y, j) <==> ByteBit(x, j) || ByteBit(y, j)
  {
    OrMasked(x, y, Mask(j));
  }

  lemma OrMasked(x: bv8, y: bv8, m: bv8)
    ensures (x | y) & m != 0 <==> x & m != 0 || y & m != 0
  {
  }

  lemma NoBits(j: nat)
    requires j < 8
    ensures !ByteBit(0, j)
  {
  }

  /** Bytes with the same bits are the same. */
  lemma SameBits(x: bv8, y: bv8)
    requires forall j :: 0 <= j < 8 ==> (ByteBit(x, j) <==> ByteBit(y, j))
    ensures x == y
  {
    assert ByteBit(x, 0) == ByteBit(y, 0) && ByteBit(x, 1) == ByteBit(y, 1) && ByteBit(x, 2) == ByteBit(y, 2);
    assert ByteBit(x, 3) == ByteBit(y, 3) && ByteBit(x, 4) == ByteBit(y, 4) && ByteBit(x, 5) == ByteBit(y, 5);
    assert ByteBit(x, 6) == ByteBit(y, 6) && ByteBit(x, 7) == ByteBit(y, 7);
    MaskedBits(x, y);
  }

  lemma MaskedBits(x: bv8, y: bv8)
    requires (x & 1 != 0) == (y & 1 != 0) && (x & 2 != 0) == (y & 2 != 0)
    requires (x & 4 != 0) == (y & 4 != 0) && (x & 8 != 0) == (y & 8 != 0)
    requires (x & 16 != 0) == (y & 16 != 0) && (x & 32 != 0) == (y & 32 != 0)
    requires (x & 64 != 0) == (y & 64 != 0) && (x & 128 != 0) == (y & 128 != 0)
    ensures x == y
  {
  }

  lemma NextByte(b: bv8)
    ensures b as nat < 255 ==> (b + 1) as nat == b as nat + 1
  {
  }

  lemma ByteOfValue(b: bv8)
    ensures (b as nat) as bv8 == b
  {
  }

  /** Every number below 256 is the value of a byte. */
  lemma {:induction false} ByteWithValue(n: nat) returns (b: bv8)
    requires n < 256
    ensures b as nat == n
  {
    if n == 0 {
      b := 0;
    } else {
      b := ByteWithValue(n - 1);
      NextByte(b);
      b := b + 1;
    }
  }

  lemma ByteReadsBack(n: nat)
    requires n < 256
    ensures (n as bv8) as nat == n
  {
    var b := ByteWithValue(n);
    ByteOfValue(b);
  }
}
