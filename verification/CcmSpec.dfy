/** CCM as RFC 3610 defines it, in one shot: the string that is authenticated, the tag and the ciphertext. */
module CcmSpec {
  import opened Blocks
  import opened PowersOfTwo

  const BLOCK := 16

  /** A block cipher, and the key stream of its counter mode: byte number n under a first counter block. */
  datatype Key = Key(encrypt: Bytes -> Bytes, stream: (Bytes, nat) -> bv8)

  ghost predicate ValidKey(key: Key) {
    IsCipher(key.encrypt, BLOCK)
  }

  predicate ValidDigestSize(m: int) {
    m % 2 == 0 && 4 <= m <= 16
  }

  predicate ValidNonce(nonce: Bytes) {
    7 <= |nonce| <= 13
  }

  /** The number of bytes left for the message length (section 2.1). */
  function LengthBytes(nonce: Bytes): (l: nat)
    requires ValidNonce(nonce)
    ensures 2 <= l <= 8
  {
    15 - |nonce|
  }

  /** Whether there is a header, the size of the tag and the number of length bytes, in one byte. */
  function FlagByte(headerLength: nat, digestSize: nat, l: nat): bv8
    requires ValidDigestSize(digestSize) && 2 <= l <= 8
  {
    ((if headerLength > 0 then 64 else 0) + 8 * ((digestSize - 2) / 2) + (l - 1)) as bv8
  }

  /** Block B0 of section 2.2. */
  function FirstBlock(nonce: Bytes, headerLength: nat, messageLength: nat, digestSize: nat): (b: Bytes)
    requires ValidNonce(nonce) && ValidDigestSize(digestSize)
    ensures |b| == BLOCK
  {
    var l := LengthBytes(nonce);
    [FlagByte(headerLength, digestSize, l)] + nonce + BigEndian(messageLength, l)
  }

  /** The length of the header as section 2.2 prefixes it. */
  function HeaderPrefix(n: nat): (r: Bytes)
    ensures |r| <= 10 && (n > 0 ==> |r| >= 2)
  {
    if n == 0 then []
    else if n < 0xff00 then BigEndian(n, 2)
    else if n < 0x1_0000_0000 then [0xff, 0xfe] + BigEndian(n, 4)
    else [0xff, 0xff] + BigEndian(n, 8)
  }

  /** Zero bytes up to the next multiple of the block size. */
  function Pad(s: Bytes): (r: Bytes)
    ensures |r| % BLOCK == 0
  {
    ToMultipleCompletes(|s|, BLOCK);
    s + Zeros(ToMultiple(|s|, BLOCK))
  }

  /** What section 2.2 authenticates: the first block, the header with its length, and the message, each filled up. */
  function Authenticated(digestSize: nat, nonce: Bytes, header: Bytes, message: Bytes): Bytes
    requires ValidNonce(nonce) && ValidDigestSize(digestSize)
  {
    FirstBlock(nonce, |header|, |message|, digestSize) + Pad(HeaderPrefix(|header|) + header) + Pad(message)
  }

  /** The CBC-MAC of section 2.2, before it is encrypted. */
  ghost function Mac(key: Key, digestSize: nat, nonce: Bytes, header: Bytes, message: Bytes): (r: Bytes)
    requires ValidKey(key) && ValidNonce(nonce) && ValidDigestSize(digestSize)
    ensures |r| == BLOCK
  {
    CbcChain(key.encrypt, BLOCK, Zeros(BLOCK), Authenticated(digestSize, nonce, header, message))
  }

  /** The first counter block A0 of section 2.3. */
  function CounterBlock(nonce: Bytes): Bytes
    requires ValidNonce(nonce)
  {
    [(LengthBytes(nonce) - 1) as bv8] + nonce + Zeros(LengthBytes(nonce))
  }

  /** Key stream bytes from..from+len. */
  function KeyStream(key: Key, iv: Bytes, from: nat, len: nat): (r: Bytes)
    ensures |r| == len
  {
    seq(len, i requires 0 <= i < len => key.stream(iv, from + i))
  }

  lemma KeyStreamSplit(key: Key, iv: Bytes, from: nat, m: nat, n: nat)
    ensures KeyStream(key, iv, from, m + n) == KeyStream(key, iv, from, m) + KeyStream(key, iv, from + m, n)
  {
  }

  /** Sections 2.3 and 2.4: the message is masked by the key stream after block 0, the tag by block 0. */
  ghost function Seal(key: Key, digestSize: nat, nonce: Bytes, header: Bytes, message: Bytes): (r: (Bytes, Bytes))
    requires ValidKey(key) && ValidNonce(nonce) && ValidDigestSize(digestSize)
    ensures |r.0| == |message|
  {
    (Mask(key, nonce, message), Tag(key, digestSize, nonce, header, message))
  }

  function Mask(key: Key, nonce: Bytes, data: Bytes): (r: Bytes)
    requires ValidNonce(nonce)
    ensures |r| == |data|
  {
    Xor(data, KeyStream(key, CounterBlock(nonce), BLOCK, |data|))
  }

  ghost function Tag(key: Key, digestSize: nat, nonce: Bytes, header: Bytes, message: Bytes): (r: Bytes)
    requires ValidKey(key) && ValidNonce(nonce) && ValidDigestSize(digestSize)
    ensures |r| == BLOCK
  {
    Xor(Mac(key, digestSize, nonce, header, message), KeyStream(key, CounterBlock(nonce), 0, BLOCK))
  }

  /** Masking twice is the identity, so opening a sealed message recomputes the same plaintext and tag. */
  lemma MaskTwice(key: Key, nonce: Bytes, data: Bytes)
    requires ValidNonce(nonce)
    ensures Mask(key, nonce, Mask(key, nonce, data)) == data
  {
    XorInvolution(data, KeyStream(key, CounterBlock(nonce), BLOCK, |data|));
  }

  /** Masking a message in two parts, the second at its own position. */
  lemma MaskConcat(key: Key, nonce: Bytes, a: Bytes, b: Bytes)
    requires ValidNonce(nonce)
    ensures Mask(key, nonce, a + b) ==
            Mask(key, nonce, a) + Xor(b, KeyStream(key, CounterBlock(nonce), BLOCK + |a|, |b|))
  {
    KeyStreamSplit(key, CounterBlock(nonce), BLOCK, |a|, |b|);
    var k1 := KeyStream(key, CounterBlock(nonce), BLOCK, |a|);
    var k2 := KeyStream(key, CounterBlock(nonce), BLOCK + |a|, |b|);
    assert Xor(a + b, k1 + k2) == Xor(a, k1) + Xor(b, k2);
  }

  /** The chain taken section by section, as the streaming code takes it. */
  lemma MacInSections(key: Key, digestSize: nat, nonce: Bytes, header: Bytes, message: Bytes)
    requires ValidKey(key) && ValidNonce(nonce) && ValidDigestSize(digestSize)
    ensures var b0 := key.encrypt(FirstBlock(nonce, |header|, |message|, digestSize));
            && |b0| == BLOCK
            && Mac(key, digestSize, nonce, header, message) ==
               CbcChain(key.encrypt, BLOCK,
                        CbcChain(key.encrypt, BLOCK, b0, Pad(HeaderPrefix(|header|) + header)),
                        Pad(message))
  {
    hide FirstBlock, Pad, HeaderPrefix, CbcChain, Xor, Zeros;
    var E := key.encrypt;
    var first := FirstBlock(nonce, |header|, |message|, digestSize);
    var h := Pad(HeaderPrefix(|header|) + header);
    CbcChainConcat(E, BLOCK, Zeros(BLOCK), first + h, Pad(message));
    CbcChainConcat(E, BLOCK, Zeros(BLOCK), first, h);
    CbcChainOneBlock(E, BLOCK, Zeros(BLOCK), first);
    XorZeros(first);
  }
}
