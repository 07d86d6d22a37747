/**
 AuthenticatedSymmetricCipherBase and CCM_Base: a buffering layer over the CBC-MAC and
 the counter-mode key stream, driven through a protocol of stages. Whatever way the header
 and the message are cut into calls, the tag is that of the one-shot definition.
 */
module Ccm {
  import opened Blocks
  import opened CcmSpec

  datatype Stage = Start | KeySet | IVSet | AuthUntransformed | AuthTransformed | AuthFooter

  /** A call's result or the exception it throws. */
  datatype Outcome<T> = Ok(value: T) | BadState | InvalidArgument

  const MAX_LWORD: nat := 0xffff_ffff_ffff_ffff

  /** The number of bytes that fill no block. */
  function Rem(n: nat): (r: nat)
    ensures r < BLOCK && r <= n
  {
    n % BLOCK
  }

  // ---------- One section: a CBC chain with a partly filled block ----------

  /**
   The bytes fed so far have been chained from start as far as they fill blocks; the rest,
   n bytes, waits in the first half of the buffer, whose second half holds the chain.
   */
  ghost predicate Section(E: Bytes -> Bytes, start: Bytes, fed: Bytes, buf: Bytes, n: nat) {
    && IsCipher(E, BLOCK) && |start| == BLOCK && |buf| == 2 * BLOCK
    && n == Rem(|fed|)
    && buf[..n] == fed[|fed| - n..]
    && buf[BLOCK..] == CbcChain(E, BLOCK, start, fed)
  }

  /** A tail that fills no block does not enter the chain. */
  lemma ChainIgnoresTail(E: Bytes -> Bytes, x: Bytes, a: Bytes, tail: Bytes)
    requires IsCipher(E, BLOCK) && |x| == BLOCK && |a| % BLOCK == 0 && |tail| < BLOCK
    ensures CbcChain(E, BLOCK, x, a + tail) == CbcChain(E, BLOCK, x, a)
  {
    CbcChainConcat(E, BLOCK, x, a, tail);
  }

  lemma WholePart(n: nat)
    ensures (n - Rem(n)) % BLOCK == 0
  {
  }

  lemma SumAligned(a: Bytes, b: Bytes)
    requires Rem(|a|) == 0
    ensures Rem(|a + b|) == Rem(|b|)
  {
  }

  lemma ChainAligned(E: Bytes -> Bytes, x: Bytes, a: Bytes, b: Bytes)
    requires IsCipher(E, BLOCK) && |x| == BLOCK && Rem(|a|) == 0
    ensures CbcChain(E, BLOCK, x, a + b) == CbcChain(E, BLOCK, CbcChain(E, BLOCK, x, a), b)
  {
    CbcChainConcat(E, BLOCK, x, a, b);
  }

  lemma RemSmall(m: nat, n: nat)
    requires Rem(m) + n < BLOCK
    ensures Rem(m + n) == Rem(m) + n && m + n - Rem(m + n) == m - Rem(m)
  {
  }

  lemma RemFull(m: nat, n: nat)
    requires Rem(m) + n == BLOCK
    ensures Rem(m + n) == 0
  {
  }

  lemma ChainOfWholePart(E: Bytes -> Bytes, x: Bytes, data: Bytes)
    requires IsCipher(E, BLOCK) && |x| == BLOCK
    ensures CbcChain(E, BLOCK, x, data) == CbcChain(E, BLOCK, x, data[..|data| - Rem(|data|)])
  {
    hide *;
    var k := |data| - Rem(|data|);
    WholePart(|data|);
    CutAt(data, k);
    ChainIgnoresTail(E, x, data[..k], data[k..]);
  }

  lemma CutAt(s: Bytes, k: nat)
    requires k <= |s|
    ensures s[..k] + s[k..] == s
  {
  }

  lemma SuffixOfConcat(a: Bytes, b: Bytes, n: nat)
    requires n <= |b|
    ensures (a + b)[|a + b| - n..] == b[|b| - n..]
  {
  }

  /** Chaining what follows a whole number of blocks. */
  lemma SectionExtend(E: Bytes -> Bytes, start: Bytes, fed: Bytes, buf: Bytes, input: Bytes, buf': Bytes)
    requires Section(E, start, fed, buf, 0) && |buf'| == 2 * BLOCK
    requires buf'[BLOCK..] == CbcChain(E, BLOCK, buf[BLOCK..], input)
    requires buf'[..Rem(|input|)] == input[|input| - Rem(|input|)..]
    ensures Section(E, start, fed + input, buf', Rem(|input|))
  {
    hide CbcChain, Rem;
    SuffixOfConcat(fed, input, Rem(|input|));
    SumAligned(fed, input);
    ChainAligned(E, start, fed, input);
  }

  lemma SectionEmpty(E: Bytes -> Bytes, buf: Bytes)
    requires IsCipher(E, BLOCK) && |buf| == 2 * BLOCK
    ensures Section(E, buf[BLOCK..], [], buf, 0)
  {
  }

  /** Filling up the waiting block and chaining it. */
  lemma SectionComplete(E: Bytes -> Bytes, start: Bytes, fed: Bytes, buf: Bytes, n: nat, fill: Bytes, buf': Bytes)
    requires Section(E, start, fed, buf, n) && n > 0 && |fill| == BLOCK - n && |buf'| == 2 * BLOCK
    requires buf'[BLOCK..] == E(Xor(buf[BLOCK..], buf[..n] + fill))
    ensures Section(E, start, fed + fill, buf', 0)
  {
    hide CbcChain, Rem;
    var k := |fed| - n;
    var block := buf[..n] + fill;
    WholePart(|fed|);
    RemFull(|fed|, |fill|);
    ChainOfWholePart(E, start, fed);
    CbcChainConcat(E, BLOCK, start, fed[..k], block);
    CbcChainOneBlock(E, BLOCK, buf[BLOCK..], block);
    assert fed + fill == fed[..k] + block;
  }

  lemma SectionAppend(E: Bytes -> Bytes, start: Bytes, fed: Bytes, buf: Bytes, n: nat, input: Bytes, buf': Bytes)
    requires Section(E, start, fed, buf, n) && n + |input| < BLOCK && |buf'| == 2 * BLOCK
    requires buf'[BLOCK..] == buf[BLOCK..] && buf'[..n + |input|] == buf[..n] + input
    ensures Section(E, start, fed + input, buf', n + |input|)
  {
    hide CbcChain, Rem;
    RemSmall(|fed|, |input|);
    ChainOfWholePart(E, start, fed);
    ChainOfWholePart(E, start, fed + input);
    assert (fed + input)[..|fed| - n] == fed[..|fed| - n];
    assert (fed + input)[|fed| - n..] == fed[|fed| - n..] + input;
  }

  /** Padding with zeros: chaining the waiting bytes closes the section. */
  lemma SectionClose(E: Bytes -> Bytes, start: Bytes, fed: Bytes, buf: Bytes, n: nat)
    requires Section(E, start, fed, buf, n)
    ensures CbcChain(E, BLOCK, start, Pad(fed)) ==
            if n == 0 then buf[BLOCK..] else E(Xor(buf[BLOCK..], buf[..n] + Zeros(BLOCK - n)))
  {
    hide CbcChain;
    if n == 0 {
      assert Pad(fed) == fed;
    } else {
      WholePart(|fed|);
      var k := |fed| - n;
      ChainOfWholePart(E, start, fed);
      CbcChainConcat(E, BLOCK, start, fed[..k], buf[..n] + Zeros(BLOCK - n));
      CbcChainOneBlock(E, BLOCK, buf[BLOCK..], buf[..n] + Zeros(BLOCK - n));
      assert Pad(fed) == fed[..k] + (buf[..n] + Zeros(BLOCK - n));
    }
  }

  // ---------- Buffer operations ----------

  /** s with data written over it from position at on. */
  function Put(s: Bytes, at: nat, data: Bytes): (r: Bytes)
    requires at + |data| <= |s|
    ensures |r| == |s|
  {
    s[..at] + data + s[at + |data|..]
  }

  /** memcpy(a + at, data, |data|). */
  method CopyInto(a: array<bv8>, at: nat, data: Bytes)
    requires at + |data| <= a.Length
    modifies a
    ensures a[..] == Put(old(a[..]), at, data)
  {
    forall i | 0 <= i < |data| {
      a[at + i] := data[i];
    }
  }

  /** xorbuf(cbcBuffer, m_buffer, n) followed by ProcessBlock(cbcBuffer). */
  method ChainWaiting(a: array<bv8>, E: Bytes -> Bytes, n: nat)
    requires IsCipher(E, BLOCK) && a.Length == 2 * BLOCK && n <= BLOCK
    modifies a
    ensures a[..BLOCK] == old(a[..BLOCK])
    ensures a[BLOCK..] == E(Xor(old(a[BLOCK..]), old(a[..n]) + Zeros(BLOCK - n)))
  {
    ghost var cbc, waiting := a[BLOCK..], a[..n] + Zeros(BLOCK - n);
    forall i | 0 <= i < n {
      a[BLOCK + i] := a[BLOCK + i] ^ a[i];
    }
    forall i | 0 <= i < BLOCK ensures a[BLOCK + i] == Xor(cbc, waiting)[i] {
      if i >= n {
        XorZero(cbc[i]);
      }
    }
    assert a[BLOCK..] == Xor(cbc, waiting);
    CopyInto(a, BLOCK, E(a[BLOCK..]));
  }

  /** CCM_Base::AuthenticateBlocks: the chain over the whole blocks of data; the number of bytes left over. */
  method AuthenticateBlocks(a: array<bv8>, E: Bytes -> Bytes, data: Bytes) returns (leftOver: nat)
    requires IsCipher(E, BLOCK) && a.Length == 2 * BLOCK
    modifies a
    ensures leftOver == Rem(|data|)
    ensures a[..BLOCK] == old(a[..BLOCK])
    ensures a[BLOCK..] == CbcChain(E, BLOCK, old(a[BLOCK..]), data)
  {
    var rest := data;
    while |rest| >= BLOCK
      invariant Rem(|rest|) == Rem(|data|)
      invariant a[..BLOCK] == old(a[..BLOCK])
      invariant CbcChain(E, BLOCK, a[BLOCK..], rest) == CbcChain(E, BLOCK, old(a[BLOCK..]), data)
      decreases |rest|
    {
      var next := E(Xor(a[BLOCK..], rest[..BLOCK]));
      CopyInto(a, BLOCK, next);
      assert a[BLOCK..] == next;
      rest := rest[BLOCK..];
    }
    leftOver := |rest|;
  }

  /** AuthenticatedSymmetricCipherBase::AuthenticateData. */
  method AuthenticateData(a: array<bv8>, E: Bytes -> Bytes, num: nat, input: Bytes, ghost start: Bytes,
                          ghost fed: Bytes)
    returns (num': nat)
    requires a.Length == 2 * BLOCK && Section(E, start, fed, a[..], num)
    modifies a
    ensures Section(E, start, fed + input, a[..], num')
  {
    hide CbcChain, Rem;
    var rest := input;
    ghost var done := fed;
    ghost var before := a[..];
    if num != 0 {
      if num + |input| >= BLOCK {
        var fill := input[..BLOCK - num];
        CopyInto(a, num, fill);
        assert a[..BLOCK] == before[..num] + fill && a[BLOCK..] == before[BLOCK..];
        CbcChainOneBlock(E, BLOCK, a[BLOCK..], a[..BLOCK]);
        var zero := AuthenticateBlocks(a, E, a[..BLOCK]);
        SectionComplete(E, start, fed, before, num, fill, a[..]);
        rest := input[BLOCK - num..];
        done := fed + fill;
        assert fed + input == done + rest;
      } else {
        CopyInto(a, num, input);
        SectionAppend(E, start, fed, before, num, input, a[..]);
        return num + |input|;
      }
    }
    num' := FeedAligned(a, E, rest, start, done);
  }

  /** The part of AuthenticateData after the waiting bytes have been dealt with. */
  method FeedAligned(a: array<bv8>, E: Bytes -> Bytes, input: Bytes, ghost start: Bytes, ghost fed: Bytes)
    returns (num: nat)
    requires a.Length == 2 * BLOCK && Section(E, start, fed, a[..], 0)
    modifies a
    ensures Section(E, start, fed + input, a[..], num)
  {
    var len := |input|;
    ghost var before := a[..];
    if len >= BLOCK {
      var leftOver := AuthenticateBlocks(a, E, input);
      len := leftOver;
    }
    CopyInto(a, 0, input[|input| - len..]);
    SectionExtend(E, start, fed, before, input, a[..]);
    num := len;
  }
}
