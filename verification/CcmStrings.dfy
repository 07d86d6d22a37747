/** What CCM authenticates can be read back: no two messages give strings of which one begins the other. */
module CcmStrings {
  import opened PowersOfTwo
  import opened Radix
  import opened ByteBits
  import opened Blocks
  import opened CcmSpec
  import opened Ccm
  import opened CcmProtocol

  // ---------- Numbers in bytes ----------

  function BigEndianValue(b: Bytes): nat {
    if b == [] then 0 else BigEndianValue(b[..|b| - 1]) * 256 + b[|b| - 1] as nat
  }

  lemma {:induction false} BigEndianReadsBack(n: nat, k: nat)
    requires n < Power(256, k)
    ensures BigEndianValue(BigEndian(n, k)) == n
    decreases k
  {
    if k > 0 {
      var b := BigEndian(n, k);
      assert b[..k - 1] == BigEndian(n / 256, k - 1);
      BigEndianReadsBack(n / 256, k - 1);
      ByteReadsBack(n % 256);
    }
  }

  // ---------- The fields of the first block ----------

  /** Bit 6, bits 3 to 5, and bits 0 to 2 of the flag byte. */
  predicate HasHeader(flag: bv8) {
    flag as nat / 64 == 1
  }

  function DigestSizeIn(flag: bv8): nat {
    flag as nat / 8 % 8 * 2 + 2
  }

  function LengthBytesIn(flag: bv8): (l: nat)
    ensures 1 <= l <= 8
  {
    flag as nat % 8 + 1
  }

  lemma FlagValue(headerLength: nat, digestSize: nat, l: nat)
    requires ValidDigestSize(digestSize) && 2 <= l <= 8
    ensures FlagByte(headerLength, digestSize, l) as nat ==
            (if headerLength > 0 then 64 else 0) + 8 * ((digestSize - 2) / 2) + (l - 1)
  {
    ByteReadsBack((if headerLength > 0 then 64 else 0) + 8 * ((digestSize - 2) / 2) + (l - 1));
  }

  /** The flag byte tells whether there is a header, the size of the tag, and the number of length bytes. */
  lemma FlagFields(headerLength: nat, digestSize: nat, l: nat)
    requires ValidDigestSize(digestSize) && 2 <= l <= 8
    ensures HasHeader(FlagByte(headerLength, digestSize, l)) <==> headerLength > 0
    ensures DigestSizeIn(FlagByte(headerLength, digestSize, l)) == digestSize
    ensures LengthBytesIn(FlagByte(headerLength, digestSize, l)) == l
  {
    hide *;
    FlagValue(headerLength, digestSize, l);
    HalfDigestSize(digestSize);
    FieldsIn(FlagByte(headerLength, digestSize, l), if headerLength > 0 then 1 else 0, (digestSize - 2) / 2, l - 1);
  }

  lemma HalfDigestSize(digestSize: nat)
    requires ValidDigestSize(digestSize)
    ensures 0 <= (digestSize - 2) / 2 < 8 && (digestSize - 2) / 2 * 2 + 2 == digestSize
  {
  }

  lemma FieldsIn(flag: bv8, a: nat, b: nat, c: nat)
    requires a <= 1 && b < 8 && c < 8 && flag as nat == 64 * a + 8 * b + c
    ensures (HasHeader(flag) <==> a == 1) && DigestSizeIn(flag) == b * 2 + 2 && LengthBytesIn(flag) == c + 1
  {
    Fields(flag as nat, a, b, c);
  }

  lemma Fields(v: nat, a: nat, b: nat, c: nat)
    requires a <= 1 && b < 8 && c < 8 && v == 64 * a + 8 * b + c
    ensures v / 64 == a && v / 8 % 8 == b && v % 8 == c
  {
  }

  // ---------- Reading ----------

  datatype Contents = Contents(digestSize: nat, nonce: Bytes, header: Bytes, message: Bytes)

  /** n bytes from position a on, if there are so many. */
  function Slice(s: Bytes, a: nat, n: nat): Bytes {
    if a + n <= |s| then s[a..a + n] else []
  }

  /** The header's length, and the number of bytes that tell it. */
  function ReadPrefix(s: Bytes): (nat, nat) {
    if Slice(s, 0, 2) == [255, 254] then (BigEndianValue(Slice(s, 2, 4)), 6)
    else if Slice(s, 0, 2) == [255, 255] then (BigEndianValue(Slice(s, 2, 8)), 10)
    else (BigEndianValue(Slice(s, 0, 2)), 2)
  }

  /** Reads nonce, header and message, and the tag size, off the front of a string. */
  function Read(s: Bytes): Contents
    requires |s| >= 16
  {
    var l := LengthBytesIn(s[0]);
    var (n, p) := if HasHeader(s[0]) then ReadPrefix(s[16..]) else (0, 0);
    var start := 16 + (p + n + ToMultiple(p + n, 16));
    Contents(DigestSizeIn(s[0]), Slice(s, 1, 15 - l), Slice(s, 16 + p, n),
             Slice(s, start, BigEndianValue(Slice(s, 16 - l, l))))
  }

  lemma SliceOfMiddle(a: Bytes, b: Bytes, c: Bytes)
    ensures Slice(a + b + c, |a|, |b|) == b
  {
  }

  /** A header length in front of anything, of whatever length, is read back. */
  lemma PrefixReadsBack(n: nat, more: Bytes)
    requires 0 < n < Power(256, 8)
    ensures ReadPrefix(HeaderPrefix(n) + more) == (n, |HeaderPrefix(n)|)
  {
    hide BigEndian, BigEndianValue;
    Powers();
    var s := HeaderPrefix(n) + more;
    if n < 0xff00 {
      BigEndianReadsBack(n, 2);
      assert Slice(s, 0, 2) == BigEndian(n, 2);
      NoMark(n);
    } else if n < 0x1_0000_0000 {
      BigEndianReadsBack(n, 4);
      assert Slice(s, 0, 2) == [255, 254] && Slice(s, 2, 4) == BigEndian(n, 4);
    } else {
      BigEndianReadsBack(n, 8);
      assert Slice(s, 0, 2) == [255, 255] && Slice(s, 2, 8) == BigEndian(n, 8);
    }
  }

  lemma Powers()
    ensures Power(256, 2) == 0x1_0000 && Power(256, 4) == 0x1_0000_0000
  {
    assert Power(256, 1) == 256 * Power(256, 0);
    assert Power(256, 3) == 256 * Power(256, 2);
  }

  /** A short length cannot be taken for a mark: that is what the bound of 0xff00 is for. */
  lemma NoMark(n: nat)
    requires n < 0xff00
    ensures BigEndian(n, 2) != [255, 254] && BigEndian(n, 2) != [255, 255]
  {
    Powers();
    BigEndianReadsBack(n, 2);
    hide BigEndian;
    MarkValues();
  }

  lemma MarkValues()
    ensures BigEndianValue([255, 254]) == 0xfffe && BigEndianValue([255, 255]) == 0xffff
  {
    assert BigEndianValue([255]) == BigEndianValue([]) * 256 + 255;
    assert [255, 254][..1] == [255] && [255, 255][..1] == [255];
  }

  // ---------- What was authenticated ----------

  /** The lengths fit the fields they are given. */
  predicate Fits(c: Contents) {
    && ValidDigestSize(c.digestSize) && ValidNonce(c.nonce)
    && |c.header| < Power(256, 8) && |c.message| < Power(256, LengthBytes(c.nonce))
  }

  function StringOf(c: Contents): Bytes
    requires Fits(c)
  {
    Authenticated(c.digestSize, c.nonce, c.header, c.message)
  }

  function First(c: Contents): (b: Bytes)
    requires Fits(c)
    ensures |b| == 16
  {
    FirstBlock(c.nonce, |c.header|, |c.message|, c.digestSize)
  }

  function Header(c: Contents): Bytes
    requires Fits(c)
  {
    HeaderPrefix(|c.header|) + c.header
  }

  lemma FirstReads(c: Contents, more: Bytes)
    requires Fits(c)
    ensures var s, l := First(c) + more, LengthBytes(c.nonce);
            && LengthBytesIn(s[0]) == l && DigestSizeIn(s[0]) == c.digestSize && (HasHeader(s[0]) <==> c.header != [])
            && Slice(s, 1, 15 - l) == c.nonce
            && BigEndianValue(Slice(s, 16 - l, l)) == |c.message|
  {
    var l := LengthBytes(c.nonce);
    FlagFields(|c.header|, c.digestSize, l);
    BigEndianReadsBack(|c.message|, l);
    hide FlagByte, BigEndian, BigEndianValue, Power, LengthBytesIn, DigestSizeIn, HasHeader;
    var flag, length := [FlagByte(|c.header|, c.digestSize, l)], BigEndian(|c.message|, l);
    assert First(c) + more == flag + c.nonce + (length + more) == flag + c.nonce + length + more;
    SliceOfMiddle(flag, c.nonce, length + more);
    SliceOfMiddle(flag + c.nonce, length, more);
  }

  /** The header is found behind its length. */
  lemma HeaderReads(c: Contents, more: Bytes)
    requires Fits(c) && c.header != []
    ensures var s := First(c) + (Header(c) + more);
            var p := |HeaderPrefix(|c.header|)|;
            ReadPrefix(s[16..]) == (|c.header|, p) && Slice(s, 16 + p, |c.header|) == c.header
  {
    hide HeaderPrefix, FirstBlock, ReadPrefix;
    var prefix := HeaderPrefix(|c.header|);
    var s := First(c) + (Header(c) + more);
    assert s[16..] == prefix + (c.header + more);
    PrefixReadsBack(|c.header|, c.header + more);
    assert s == First(c) + prefix + c.header + more;
    SliceOfMiddle(First(c) + prefix, c.header, more);
  }

  /** The string is the first block, the header, the fill, and the message with its fill. */
  lemma Parts(c: Contents, more: Bytes)
    requires Fits(c)
    ensures StringOf(c) + more ==
            First(c) + (Header(c) + (Zeros(ToMultiple(|Header(c)|, 16)) + (Pad(c.message) + more)))
    ensures Slice(StringOf(c) + more, 16 + (|Header(c)| + ToMultiple(|Header(c)|, 16)), |c.message|) == c.message
  {
    hide HeaderPrefix, FirstBlock, ToMultiple;
    var first, header := First(c), Header(c);
    var fill, fill2 := Zeros(ToMultiple(|header|, 16)), Zeros(ToMultiple(|c.message|, 16));
    var s := StringOf(c) + more;
    assert s == first + (header + fill) + (c.message + fill2) + more;
    assert s == first + (header + (fill + (c.message + fill2 + more)));
    assert s == first + (header + fill) + c.message + (fill2 + more);
    SliceOfMiddle(first + (header + fill), c.message, fill2 + more);
  }

  /** Whatever comes after it, what was authenticated is read back from the string. */
  lemma ReadsBack(c: Contents, more: Bytes)
    requires Fits(c)
    ensures |StringOf(c) + more| >= 16 && Read(StringOf(c) + more) == c
  {
    hide First, StringOf, Pad, ReadPrefix, BigEndianValue, ToMultiple, Zeros, HeaderPrefix, LengthBytesIn, DigestSizeIn,
      HasHeader, Slice, Power;
    var s, l := StringOf(c) + more, LengthBytes(c.nonce);
    Parts(c, more);
    var rest := Zeros(ToMultiple(|Header(c)|, 16)) + (Pad(c.message) + more);
    FirstReads(c, Header(c) + rest);
    EmptyPrefix();
    EmptySlice(s);
    if c.header != [] {
      HeaderReads(c, rest);
    }
  }

  lemma EmptySlice(s: Bytes)
    requires |s| >= 16
    ensures Slice(s, 16, 0) == []
  {
  }

  lemma EmptyPrefix()
    ensures HeaderPrefix(0) == []
  {
  }

  /** No string begins another: if it does, digest size, nonce, header and message are all the same. */
  lemma PrefixFree(c: Contents, d: Contents)
    requires Fits(c) && Fits(d) && |StringOf(c)| <= |StringOf(d)| && StringOf(d)[..|StringOf(c)|] == StringOf(c)
    ensures c == d
  {
    hide StringOf, Read;
    var more := StringOf(d)[|StringOf(c)|..];
    assert StringOf(c) + more == StringOf(d) == StringOf(d) + [];
    ReadsBack(c, more);
    ReadsBack(d, []);
  }

  lemma {:induction false} BytesAreBits(l: nat)
    ensures Power(256, l) == Pow2(8 * l)
    decreases l
  {
    if l > 0 {
      BytesAreBits(l - 1);
      Pow2Add(8, 8 * (l - 1));
      assert Pow2(8) == 256 by {
        assert Pow2(4) == 16;
        Pow2Add(4, 4);
      }
    }
  }

  /** The limits that the code tests are those of the fields. */
  lemma LimitsFit(nonce: Bytes)
    requires ValidNonce(nonce)
    ensures MaxMessageLength(LengthBytes(nonce)) + 1 == Power(256, LengthBytes(nonce)) && MAX_LWORD + 1 == Power(256, 8)
  {
    Powers();
    BytesAreBits(LengthBytes(nonce));
    hide Pow2;
    assert Power(256, 8) == 0x1_0000_0000_0000_0000 by {
      assert Power(256, 5) == 256 * Power(256, 4);
      assert Power(256, 7) == 256 * Power(256, 6);
    }
  }
}
