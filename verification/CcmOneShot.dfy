/** AuthenticatedSymmetricCipher::EncryptAndAuthenticate and DecryptAndVerify on the CCM object. */
module CcmOneShot {
  import opened Options
  import opened Blocks
  import opened CcmSpec
  import opened Ccm
  import opened CcmProtocol

  /** Whether a message of n bytes may be sent under a nonce. */
  predicate Sendable(iv: Bytes, n: nat) {
    ValidNonce(iv) && n <= MaxMessageLength(LengthBytes(iv))
  }

  /** All of header and message have been put in, as declared, and the tag is still to come. */
  ghost predicate Fed(m: Members, h: History, iv: Bytes, header: Bytes, message: Bytes) {
    && Keyed(m) && ValidNonce(iv) && InMessageStage(m.stage) && !Mismatched(m)
    && h.declared && h.nonce == iv && h.header == header && h.message == message
  }

  /** The calls that both directions begin with: nonce, lengths, header, message. */
  method Feed(c: CcmCipher, iv: Bytes, header: Bytes, input: Bytes) returns (r: Outcome<Bytes>)
    requires c.Valid() && |header| <= MAX_LWORD
    modifies c, c.buffer
    ensures c.Valid() && c.m.key == old(c.m.key) && c.m.digestSize == old(c.m.digestSize)
    ensures r == BadState <==> old(c.m.stage) == Start
    ensures r.Ok? <==> old(c.m.stage) != Start && Sendable(iv, |input|)
    ensures r.Ok? ==>
              && r.value == Mask(old(c.m.key), iv, input)
              && Fed(c.m, c.h, iv, header, if c.forward then input else r.value)
  {
    hide ValidState, Mask, MaxMessageLength;
    var a := c.Resynchronize(iv);
    if !a.Ok? {
      return if a.BadState? then BadState else InvalidArgument;
    }
    NonceLength(c.m, c.h, c.buffer[..]);
    var b := c.SpecifyDataLengths(|header|, |input|, 0);
    if !b.Ok? {
      return InvalidArgument;
    }
    var d := c.Update(header);
    assert [] + header == header;
    DeclaredTotals(c.m, c.h, c.buffer[..]);
    var e := c.ProcessData(input);
    assert e.Ok?;
    DeclaredTotals(c.m, c.h, c.buffer[..]);
    MaskTwice(c.m.key, iv, e.value);
    assert [] + input == input && [] + e.value == e.value;
    r := e;
  }

  lemma NonceLength(m: Members, h: History, buf: Bytes)
    requires ValidState(m, h, buf) && m.stage == IVSet
    ensures ValidNonce(h.nonce) && m.l == LengthBytes(h.nonce)
  {
  }

  lemma DeclaredTotals(m: Members, h: History, buf: Bytes)
    requires ValidState(m, h, buf) && h.declared
    ensures Keyed(m) && ValidNonce(h.nonce) && m.totalHeader == |h.header| && m.totalMessage == |h.message|
    ensures m.stage == IVSet || InMessageStage(m.stage) ==> m.totalFooter == 0
    ensures InMessageStage(m.stage) ==> h.ciphertext == Mask(m.key, h.nonce, h.message)
  {
  }

  lemma KeyedState(m: Members, h: History, buf: Bytes)
    requires ValidState(m, h, buf) && m.stage != Start
    ensures Keyed(m)
  {
  }

  /** On an encryption object, the sealed message and as much of its tag as is asked for. */
  method EncryptAndAuthenticate(c: CcmCipher, iv: Bytes, header: Bytes, message: Bytes, macSize: nat)
    returns (r: Outcome<(Bytes, Bytes)>)
    requires c.Valid() && |header| <= MAX_LWORD && macSize <= BLOCK
    modifies c, c.buffer
    ensures c.Valid()
    ensures r == BadState <==> old(c.m.stage) == Start
    ensures r.Ok? <==> old(c.m.stage) != Start && Sendable(iv, |message|)
    ensures r.Ok? && c.forward ==>
              && Keyed(old(c.m))
              && var (ciphertext, tag) := Seal(old(c.m.key), old(c.m.digestSize), iv, header, message);
                 r.value == (ciphertext, tag[..macSize])
  {
    hide ValidState, Mask, Tag, MaxMessageLength, Mismatched;
    var a := Feed(c, iv, header, message);
    match a {
      case Ok(out) =>
        var b := c.TruncatedFinal(macSize);
        assert b.Ok?;
        r := Ok((out, b.value));
      case BadState => r := BadState;
      case InvalidArgument => r := InvalidArgument;
    }
  }

  /**
   On a decryption object, the message and whether the tag it came with is the right one;
   a tag longer than the digest is refused, though encryption gives it out.
   */
  method DecryptAndVerify(c: CcmCipher, mac: Bytes, iv: Bytes, header: Bytes, ciphertext: Bytes)
    returns (r: Outcome<(Bytes, bool)>)
    requires c.Valid() && |header| <= MAX_LWORD
    modifies c, c.buffer
    ensures c.Valid()
    ensures r == BadState <==> old(c.m.stage) == Start
    ensures r.Ok? <==> old(c.m.stage) != Start && Sendable(iv, |ciphertext|) && |mac| <= old(c.m.digestSize)
    ensures r.Ok? && !c.forward ==>
              && Keyed(old(c.m))
              && var (key, message) := (old(c.m.key), r.value.0);
                 && message == Mask(key, iv, ciphertext)
                 && (r.value.1 <==> mac == Tag(key, old(c.m.digestSize), iv, header, message)[..|mac|])
  {
    hide ValidState, Mask, Tag, MaxMessageLength, Mismatched;
    if c.m.stage != Start {
      KeyedState(c.m, c.h, c.buffer[..]);
    }
    var a := Feed(c, iv, header, ciphertext);
    match a {
      case Ok(out) =>
        var b := c.TruncatedVerify(mac);
        r := if b.Ok? then Ok((out, b.value)) else InvalidArgument;
      case BadState => r := BadState;
      case InvalidArgument => r := InvalidArgument;
    }
  }

  /** What was sealed opens to the message, and verifies, exactly when the tag kept is no longer than the digest. */
  method SealThenOpen(e: CcmCipher, d: CcmCipher, iv: Bytes, header: Bytes, message: Bytes, macSize: nat)
    returns (sealed: Outcome<(Bytes, Bytes)>, found: Outcome<(Bytes, bool)>)
    requires e.Valid() && d.Valid() && e != d && e.buffer != d.buffer && e.forward && !d.forward
    requires e.m.stage != Start && d.m.stage != Start && e.m.key == d.m.key && e.m.digestSize == d.m.digestSize
    requires |header| <= MAX_LWORD && macSize <= BLOCK
    modifies e, e.buffer, d, d.buffer
    ensures sealed.Ok? <==> Sendable(iv, |message|)
    ensures sealed.Ok? ==> |sealed.value.1| == macSize
    ensures sealed.Ok? ==>
              found == if macSize <= old(d.m.digestSize) then Ok((message, true)) else InvalidArgument
  {
    hide ValidState, Mask, Tag, MaxMessageLength;
    sealed := EncryptAndAuthenticate(e, iv, header, message, macSize);
    found := InvalidArgument;
    if sealed.Ok? {
      MaskTwice(d.m.key, iv, message);
      found := DecryptAndVerify(d, sealed.value.1, iv, header, sealed.value.0);
    }
  }

  /** Under a digest of four bytes a tag of sixteen is given out, and refused when it comes back. */
  method LongTagRefused(key: Key) returns (sealed: Outcome<(Bytes, Bytes)>, found: Outcome<(Bytes, bool)>)
    requires ValidKey(key)
    ensures sealed.Ok? && |sealed.value.1| == 16 && found == InvalidArgument
  {
    hide ValidState;
    var e := new CcmCipher(true);
    var d := new CcmCipher(false);
    var nonce := Zeros(7);
    var _ := e.SetKey(key, 4, Some(nonce));
    var _ := d.SetKey(key, 4, Some(nonce));
    sealed, found := SealThenOpen(e, d, nonce, [], [], 16);
  }
}
