/** The CCM object: its stages, its error conditions, and the one-shot entry points built on it. */
module CcmProtocol {
  import opened Options
  import opened PowersOfTwo
  import opened Blocks
  import opened CcmSpec
  import opened Ccm

  /** The longest message the nonce leaves room for (MaxMessageLength). */
  function MaxMessageLength(l: nat): nat {
    if l < 8 then Pow2(8 * l) - 1 else MAX_LWORD
  }

  /** The object's data members, but for the byte buffer. counter and position stand for the counter-mode object. */
  datatype Members = Members(
    stage: Stage, key: Key, digestSize: int, l: nat,
    aadLength: nat, messageLength: nat, buffered: nat,
    totalHeader: nat, totalMessage: nat, totalFooter: nat,
    counter: Bytes, position: nat)

  /**
   What has been put in since the nonce was set, the message both as plaintext and as
   ciphertext, and the section being chained. pristine: the first half of the buffer still
   holds the first counter block. declared:
   the lengths were given before any header byte, and no call has failed since.
   */
  datatype History = History(
    nonce: Bytes, header: Bytes, message: Bytes, ciphertext: Bytes,
    start: Bytes, fed: Bytes, pristine: bool, declared: bool)

  predicate Running(stage: Stage) {
    stage != Start && stage != KeySet
  }

  ghost predicate Keyed(m: Members) {
    ValidKey(m.key) && ValidDigestSize(m.digestSize)
  }

  ghost predicate ValidState(m: Members, h: History, buf: Bytes) {
    && |buf| == 2 * BLOCK
    && (m.stage != Start ==> Keyed(m))
    && (Running(m.stage) ==>
          && ValidNonce(h.nonce) && m.l == LengthBytes(h.nonce) && m.counter == CounterBlock(h.nonce)
          && Section(m.key.encrypt, h.start, h.fed, buf, m.buffered))
    && (m.stage == IVSet && h.pristine ==> buf[..BLOCK] == m.counter)
    && (m.stage == AuthFooter ==> m.totalFooter > 0)
    && (h.declared ==> Running(m.stage) && Faithful(m, h))
  }

  /** The first block the declared lengths give, chained from zero. */
  ghost function Opened(m: Members, nonce: Bytes): (b: Bytes)
    requires Keyed(m) && ValidNonce(nonce)
    ensures |b| == BLOCK
  {
    m.key.encrypt(FirstBlock(nonce, m.aadLength, m.messageLength, m.digestSize))
  }

  /** The section being chained is the one the stage calls for. */
  ghost predicate Faithful(m: Members, h: History)
    requires Keyed(m) && ValidNonce(h.nonce)
  {
    && m.totalHeader == |h.header| && m.totalMessage == |h.message|
    && (m.stage == IVSet ==> AwaitingMessage(m, h))
    && (m.stage == AuthUntransformed || m.stage == AuthTransformed ==> InMessage(m, h))
  }

  ghost predicate AwaitingMessage(m: Members, h: History)
    requires Keyed(m) && ValidNonce(h.nonce)
  {
    && h.message == [] && h.ciphertext == [] && m.position == BLOCK && m.totalFooter == 0
    && h.start == Opened(m, h.nonce) && h.fed == HeaderPrefix(m.aadLength) + h.header
  }

  ghost predicate InMessage(m: Members, h: History)
    requires Keyed(m) && ValidNonce(h.nonce)
  {
    && m.aadLength == |h.header| && m.position == BLOCK + |h.message| && m.totalFooter == 0
    && h.start == CbcChain(m.key.encrypt, BLOCK, Opened(m, h.nonce), Pad(HeaderPrefix(m.aadLength) + h.header))
    && h.fed == h.message
    && h.ciphertext == Mask(m.key, h.nonce, h.message)
  }

  /** Nothing has been put in since the nonce was set. */
  ghost predicate Untouched(m: Members, h: History) {
    && m.stage == IVSet && m.totalHeader == m.totalMessage == m.totalFooter == 0 && m.position == BLOCK
    && h.header == [] && h.message == [] && h.ciphertext == [] && h.fed == [] && h.pristine
  }

  /** The stores of UncheckedSpecifyDataLengths into the chain half of the buffer, nonce last. */
  method LoadFirstBlock(buffer: array<bv8>, E: Bytes -> Bytes, flag: bv8, l: nat, messageLength: nat)
    requires IsCipher(E, BLOCK) && buffer.Length == 2 * BLOCK && 2 <= l <= 8
    modifies buffer
    ensures buffer[..BLOCK] == old(buffer[..BLOCK])
    ensures buffer[BLOCK..] == E([flag] + old(buffer[1..BLOCK - l]) + BigEndian(messageLength, l))
  {
    ghost var before := buffer[..];
    var nonce := buffer[1..BLOCK - l];
    FirstBlockLayout(before, flag, nonce, BigEndian(messageLength, 8));
    BigEndianSuffix(messageLength, 8, l);
    hide Put;
    CopyInto(buffer, BLOCK, [flag]);
    CopyInto(buffer, 2 * BLOCK - 8, BigEndian(messageLength, 8));
    CopyInto(buffer, BLOCK + 1, nonce);
    var block := buffer[BLOCK..];
    assert block == buffer[..][BLOCK..];
    PutBack(buffer[..], E(block));
    CopyInto(buffer, BLOCK, E(block));
    assert buffer[BLOCK..] == buffer[..][BLOCK..] && buffer[..BLOCK] == buffer[..][..BLOCK];
  }

  /** Flag, then nonce, then as many length bytes as the nonce has left. */
  lemma FirstBlockLayout(buf: Bytes, flag: bv8, nonce: Bytes, length: Bytes)
    requires |buf| == 2 * BLOCK && 7 <= |nonce| <= 13 && |length| == 8
    ensures var s := Put(Put(Put(buf, BLOCK, [flag]), 2 * BLOCK - 8, length), BLOCK + 1, nonce);
            s[..BLOCK] == buf[..BLOCK] && s[BLOCK..] == [flag] + nonce + length[|nonce| - 7..]
  {
  }

  lemma PutBack(buf: Bytes, block: Bytes)
    requires |buf| == 2 * BLOCK && |block| == BLOCK
    ensures Put(buf, BLOCK, block)[..BLOCK] == buf[..BLOCK] && Put(buf, BLOCK, block)[BLOCK..] == block
  {
  }

  lemma SectionShort(E: Bytes -> Bytes, fed: Bytes, buf: Bytes)
    requires IsCipher(E, BLOCK) && |buf| == 2 * BLOCK && |fed| < BLOCK && buf[..|fed|] == fed
    ensures Section(E, buf[BLOCK..], fed, buf, |fed|)
  {
  }

  class CcmCipher {
    const forward: bool
    const buffer: array<bv8>
    var m: Members
    ghost var h: History

    constructor (forward: bool)
      ensures Valid() && m.stage == Start && this.forward == forward && fresh(buffer)
    {
      this.forward := forward;
      buffer := new bv8[2 * BLOCK];
      m := Members(Start, Key(b => b, (b, n) => 0), 0, 0, 0, 0, 0, 0, 0, 0, [], 0);
      h := History([], [], [], [], [], [], false, false);
    }

    ghost predicate Valid()
      reads this, buffer
    {
      ValidState(m, h, buffer[..])
    }

    /**
     SetKey: the digest size is stored before it is looked at, and the nonce, which must be
     among the parameters, only after the key has been set.
     */
    method SetKey(key: Key, digestSize: int, iv: Option<Bytes>) returns (r: Outcome<()>)
      requires Valid() && ValidKey(key)
      modifies this, buffer
      ensures Valid() && !h.declared && m.key == key && m.digestSize == digestSize
      ensures r == if ValidDigestSize(digestSize) && iv.Some? && ValidNonce(iv.value) then Ok(()) else InvalidArgument
      ensures r.Ok? ==> m.stage == IVSet && h.nonce == iv.value && Untouched(m, h)
      ensures !r.Ok? ==> m.stage == if ValidDigestSize(digestSize) then KeySet else Start
    {
      h := h.(declared := false);
      m := m.(buffered := 0, stage := Start, key := key, digestSize := digestSize);
      if digestSize % 2 > 0 || digestSize < 4 || digestSize > 16 {
        return InvalidArgument;
      }
      m := m.(l := 8, stage := KeySet);
      if iv == None || |iv.value| < 7 || |iv.value| > 13 {
        return InvalidArgument;
      }
      r := Resynchronize(iv.value);
    }

    /** Resynchronize: a nonce of 7 to 13 bytes starts a new message. */
    method Resynchronize(iv: Bytes) returns (r: Outcome<()>)
      requires Valid()
      modifies this, buffer
      ensures Valid() && !h.declared && m.key == old(m.key) && m.digestSize == old(m.digestSize)
      ensures r == (if old(m.stage) == Start then BadState else if !ValidNonce(iv) then InvalidArgument else Ok(()))
      ensures r.Ok? ==>
                && m.stage == IVSet && m.totalHeader == m.totalMessage == m.totalFooter == 0 && m.position == BLOCK
                && h.nonce == iv && Untouched(m, h)
      ensures r == BadState ==> m == old(m)
      ensures r == InvalidArgument ==> m.stage == KeySet
    {
      assert buffer.Length == 2 * BLOCK;
      hide ValidState, CounterBlock;
      CountOnly(m, h, buffer[..], 0);
      h := h.(declared := false);
      if m.stage == Start {
        return BadState;
      }
      Restarted(m, h, buffer[..]);
      m := m.(buffered := 0, totalHeader := 0, totalMessage := 0, totalFooter := 0, stage := KeySet);
      if |iv| < 7 || |iv| > 13 {
        return InvalidArgument;
      }
      var first := LoadCounter(buffer, iv);
      m := m.(l := BLOCK - 1 - |iv|, counter := first, position := BLOCK, aadLength := 0, messageLength := 0,
              stage := IVSet);
      h := History(iv, [], [], [], buffer[BLOCK..], [], true, false);
      NonceSet(m, iv, buffer[..]);
      assert buffer[..][BLOCK..] == buffer[BLOCK..];
      r := Ok(());
    }

    /** SpecifyDataLengths: the first block and the header's length prefix are authenticated. */
    method SpecifyDataLengths(headerLength: nat, messageLength: nat, footerLength: nat) returns (r: Outcome<()>)
      requires Valid() && headerLength <= MAX_LWORD
      modifies this, buffer
      ensures Valid()
      ensures r == (if messageLength > MaxMessageLength(old(m.l)) || footerLength > 0 then InvalidArgument
                    else if old(m.stage) != IVSet then BadState
                    else Ok(()))
      ensures r.Ok? ==>
                && m == old(m).(aadLength := headerLength, messageLength := messageLength, buffered := m.buffered)
                && h == old(h).(start := h.start, fed := h.fed, pristine := h.pristine, declared := h.declared)
                && (h.declared <==> old(Untouched(m, h)))
      ensures !r.Ok? ==> m == old(m) && h == old(h)
    {
      assert buffer.Length == 2 * BLOCK;
      hide ValidState, MaxMessageLength;
      if messageLength > MaxMessageLength(m.l) || footerLength > 0 {
        return InvalidArgument;
      }
      if m.stage != IVSet {
        return BadState;
      }
      ghost var h';
      m, h' := DeclareLengths(buffer, m, h, headerLength, messageLength);
      h := h';
      r := Ok(());
    }

    /** Update: header bytes before the message, footer bytes after it. */
    method Update(input: Bytes) returns (r: Outcome<()>)
      requires Valid()
      modifies this, buffer
      ensures Valid()
      ensures input == [] ==> r == Ok(()) && m == old(m) && h == old(h)
      ensures input != [] ==>
                r == (if !Running(old(m.stage)) then BadState
                      else if old(InMessageStage(m.stage) && m.messageLength != m.totalMessage) then InvalidArgument
                      else Ok(()))
      ensures !r.Ok? ==> m == old(m) && h == old(h)
      ensures r.Ok? && input != [] && old(m.stage) == IVSet ==>
                && m == old(m).(buffered := m.buffered, totalHeader := old(m.totalHeader) + |input|)
                && h == old(h).(header := old(h.header) + input, fed := h.fed, pristine := false)
      ensures r.Ok? && input != [] && old(m.stage) != IVSet ==> m.stage == AuthFooter
    {
      assert buffer.Length == 2 * BLOCK;
      hide ValidState;
      if |input| == 0 {
        return Ok(());
      }
      ghost var h';
      match m.stage {
        case Start => return BadState;
        case KeySet => return BadState;
        case IVSet =>
          m, h' := FeedHeader(buffer, m, h, input);
        case AuthFooter =>
          m, h' := FeedFooter(buffer, m, h, input);
        case _ =>
          if m.messageLength != m.totalMessage {
            return InvalidArgument;
          }
          m, h' := CloseForFooter(buffer, m, h, input);
      }
      h := h';
      r := Ok(());
    }

    /** ProcessData: masks the next part of the message; its plaintext is authenticated in either direction. */
    method ProcessData(input: Bytes) returns (r: Outcome<Bytes>)
      requires Valid()
      modifies this, buffer
      ensures Valid()
      ensures var total := old(m.totalMessage) + |input|;
              && m.totalMessage == total
              && (r == InvalidArgument <==>
                    || (Running(old(m.stage)) && total > MaxMessageLength(old(m.l)))
                    || (old(m.stage == IVSet && m.aadLength != m.totalHeader)))
              && (r == BadState <==>
                    || !Running(old(m.stage))
                    || (old(m.stage) == AuthFooter && total <= MaxMessageLength(old(m.l))))
      ensures !r.Ok? ==> m == old(m).(totalMessage := m.totalMessage) && h == old(h).(declared := false)
      ensures r.Ok? ==>
                && |r.value| == |input|
                && m.stage == (if old(m.stage) == IVSet then MessageStage(forward) else old(m.stage))
                && m == old(m).(stage := m.stage, totalMessage := m.totalMessage,
                                buffered := m.buffered, position := m.position)
                && var plainIn := m.stage == AuthUntransformed;
                   h == old(h).(message := old(h.message) + (if plainIn then input else r.value),
                                ciphertext := old(h.ciphertext) + (if plainIn then r.value else input),
                                start := h.start, fed := h.fed)
    {
      assert buffer.Length == 2 * BLOCK;
      hide ValidState, MaxMessageLength;
      ghost var h0 := h;
      if Running(m.stage) && m.totalMessage + |input| > MaxMessageLength(m.l) {
        CountOnly(m, h, buffer[..], |input|);
        m, h := m.(totalMessage := m.totalMessage + |input|), h.(declared := false);
        return InvalidArgument;
      }
      if !Running(m.stage) || m.stage == AuthFooter {
        CountOnly(m, h, buffer[..], |input|);
        m, h := m.(totalMessage := m.totalMessage + |input|), h.(declared := false);
        return BadState;
      }
      ghost var h';
      if m.stage == IVSet {
        if m.aadLength != m.totalHeader {
          CountOnly(m, h, buffer[..], |input|);
          m, h := m.(totalMessage := m.totalMessage + |input|), h.(declared := false);
          return InvalidArgument;
        }
        m, h' := EnterMessage(buffer, m, h, MessageStage(forward));
        h := h';
      }
      var out;
      m, out, h' := FeedMessage(buffer, m, h, input);
      h := h';
      r := Ok(out);
    }

    /** TruncatedFinal: the tag, unless the lengths are not those declared. */
    method TruncatedFinal(macSize: nat) returns (r: Outcome<Bytes>)
      requires Valid() && (Running(m.stage) ==> macSize <= BLOCK)
      modifies this, buffer
      ensures Valid() && !h.declared
      ensures r == InvalidArgument <==> old(Mismatched(m))
      ensures r == BadState <==> old(!Mismatched(m) && !Running(m.stage))
      ensures !r.Ok? ==> m.stage == old(m.stage)
      ensures r.Ok? ==> m.stage == KeySet && |r.value| == macSize
      ensures r.Ok? && old(h.declared) ==>
                && ValidKey(old(m.key)) && ValidNonce(old(h.nonce)) && ValidDigestSize(old(m.digestSize))
                && r.value == Tag(old(m.key), old(m.digestSize), old(h.nonce), old(h.header), old(h.message))[..macSize]
    {
      assert buffer.Length == 2 * BLOCK;
      hide ValidState, Tag;
      var stage := m.stage;
      if m.totalHeader > MAX_LWORD || m.totalFooter > 0 || !Running(m.stage) {
        CountOnly(m, h, buffer[..], 0);
        h := h.(declared := false);
        return if m.totalHeader > MAX_LWORD || m.totalFooter > 0 then InvalidArgument else BadState;
      }
      FooterHasFooter(m, h, buffer[..]);
      ghost var h';
      if m.stage == IVSet {
        if m.aadLength != m.totalHeader {
          CountOnly(m, h, buffer[..], 0);
          h := h.(declared := false);
          return InvalidArgument;
        }
        // the message stage stands for falling through to the last confidential block
        m, h' := EnterMessage(buffer, m, h, MessageStage(forward));
        h := h';
      }
      if m.messageLength != m.totalMessage {
        GiveUp(m, h, buffer[..], stage);
        m, h := m.(stage := stage), h.(pristine := false, declared := false);
        return InvalidArgument;
      }
      var tag;
      m, tag, h' := FinishMessage(buffer, m, h, macSize);
      h := h';
      r := Ok(tag);
    }

    /** TruncatedVerify: a tag longer than the digest is refused before anything is computed. */
    method TruncatedVerify(mac: Bytes) returns (r: Outcome<bool>)
      requires Valid()
      modifies this, buffer
      ensures Valid()
      ensures |mac| > DigestSize(old(m)) ==> r == InvalidArgument && m == old(m) && h == old(h)
      ensures |mac| <= DigestSize(old(m)) ==>
                && (r == InvalidArgument <==> old(Mismatched(m)))
                && (r == BadState <==> old(!Mismatched(m) && !Running(m.stage)))
                && (r.Ok? ==> m.stage == KeySet)
      ensures r.Ok? && old(h.declared) ==>
                && ValidKey(old(m.key)) && ValidNonce(old(h.nonce)) && ValidDigestSize(old(m.digestSize))
                && (r.value <==>
                      mac == Tag(old(m.key), old(m.digestSize), old(h.nonce), old(h.header), old(h.message))[..|mac|])
    {
      if Running(m.stage) {
        DigestFits(m, h, buffer[..]);
      }
      hide ValidState, Tag, Mismatched;
      if |mac| > DigestSize(m) {
        return InvalidArgument;
      }
      var calculated := TruncatedFinal(|mac|);
      r := match calculated
        case Ok(tag) => Ok(tag == mac)
        case BadState => BadState
        case InvalidArgument => InvalidArgument;
    }
  }

  lemma Restarted(m: Members, h: History, buf: Bytes)
    requires ValidState(m, h, buf) && m.stage != Start && !h.declared
    ensures var m' := m.(buffered := 0, totalHeader := 0, totalMessage := 0, totalFooter := 0, stage := KeySet);
            Keyed(m) && ValidState(m', h, buf)
  {
  }

  /** The first counter block is written to the first half of the buffer. */
  method LoadCounter(buffer: array<bv8>, iv: Bytes) returns (first: Bytes)
    requires buffer.Length == 2 * BLOCK && ValidNonce(iv)
    modifies buffer
    ensures first == CounterBlock(iv) == buffer[..][..BLOCK]
  {
    first := [(BLOCK - 1 - |iv| - 1) as bv8] + iv + Zeros(BLOCK - 1 - |iv|);
    CopyInto(buffer, 0, first);
    assert buffer[..][..BLOCK] == first;
  }

  lemma NonceSet(m: Members, iv: Bytes, buf: Bytes)
    requires Keyed(m) && m.stage == IVSet && ValidNonce(iv) && m.l == LengthBytes(iv) && m.counter == CounterBlock(iv)
    requires m.buffered == 0 && |buf| == 2 * BLOCK && buf[..BLOCK] == m.counter
    ensures ValidState(m, History(iv, [], [], [], buf[BLOCK..], [], true, false), buf)
  {
    hide Section;
    SectionEmpty(m.key.encrypt, buf);
  }

  /** DigestSize() returns the signed member as an unsigned number. */
  function DigestSize(m: Members): (n: nat)
    ensures m.digestSize >= 0 ==> n == m.digestSize
  {
    if m.digestSize >= 0 then m.digestSize else m.digestSize % 0x1_0000_0000
  }

  /** The lengths put in exceed what is allowed or are not those declared. */
  predicate Mismatched(m: Members) {
    || m.totalHeader > MAX_LWORD
    || m.totalFooter > 0
    || (m.stage == IVSet && m.aadLength != m.totalHeader)
    || (Running(m.stage) && m.stage != AuthFooter && m.messageLength != m.totalMessage)
  }

  lemma DigestFits(m: Members, h: History, buf: Bytes)
    requires ValidState(m, h, buf) && Running(m.stage)
    ensures DigestSize(m) <= BLOCK
  {
  }

  predicate InMessageStage(stage: Stage) {
    stage == AuthUntransformed || stage == AuthTransformed
  }

  /** The bytes waiting at the end of a section are padded and chained. */
  method CloseSection(buffer: array<bv8>, E: Bytes -> Bytes, n: nat, ghost start: Bytes, ghost fed: Bytes)
    requires buffer.Length == 2 * BLOCK && Section(E, start, fed, buffer[..], n)
    modifies buffer
    ensures buffer[BLOCK..] == CbcChain(E, BLOCK, start, Pad(fed))
  {
    hide CbcChain;
    SectionClose(E, start, fed, buffer[..], n);
    assert buffer[..][BLOCK..] == buffer[BLOCK..] && buffer[..][..n] == buffer[..n];
    if n > 0 {
      ChainWaiting(buffer, E, n);
    }
  }

  method FeedHeader(buffer: array<bv8>, m: Members, ghost h: History, input: Bytes)
    returns (m': Members, ghost h': History)
    requires ValidState(m, h, buffer[..]) && m.stage == IVSet && buffer.Length == 2 * BLOCK && input != []
    modifies buffer
    ensures ValidState(m', h', buffer[..])
    ensures m' == m.(buffered := m'.buffered, totalHeader := m.totalHeader + |input|)
    ensures h' == h.(header := h.header + input, fed := h'.fed, pristine := false)
  {
    hide Section, Pad, FirstBlock, HeaderPrefix, CbcChain;
    var n := AuthenticateData(buffer, m.key.encrypt, m.buffered, input, h.start, h.fed);
    m' := m.(buffered := n, totalHeader := m.totalHeader + |input|);
    h' := h.(header := h.header + input, fed := h.fed + input, pristine := false);
    assert HeaderPrefix(m.aadLength) + h.header + input == HeaderPrefix(m.aadLength) + (h.header + input);
  }

  method FeedFooter(buffer: array<bv8>, m: Members, ghost h: History, input: Bytes)
    returns (m': Members, ghost h': History)
    requires ValidState(m, h, buffer[..]) && m.stage == AuthFooter && buffer.Length == 2 * BLOCK
    modifies buffer
    ensures ValidState(m', h', buffer[..]) && m'.stage == AuthFooter
  {
    hide Section, Pad, FirstBlock, HeaderPrefix, CbcChain;
    var n := AuthenticateData(buffer, m.key.encrypt, m.buffered, input, h.start, h.fed);
    m' := m.(buffered := n, totalFooter := m.totalFooter + |input|);
    h' := h.(fed := h.fed + input);
  }

  method CloseForFooter(buffer: array<bv8>, m: Members, ghost h: History, input: Bytes)
    returns (m': Members, ghost h': History)
    requires ValidState(m, h, buffer[..]) && InMessageStage(m.stage) && buffer.Length == 2 * BLOCK && input != []
    modifies buffer
    ensures ValidState(m', h', buffer[..]) && m'.stage == AuthFooter
  {
    hide Section, Pad, FirstBlock, HeaderPrefix, CbcChain;
    CloseSection(buffer, m.key.encrypt, m.buffered, h.start, h.fed);
    SectionEmpty(m.key.encrypt, buffer[..]);
    ghost var start := buffer[..][BLOCK..];
    var n := AuthenticateData(buffer, m.key.encrypt, 0, input, start, []);
    assert [] + input == input;
    m' := m.(buffered := n, stage := AuthFooter, totalFooter := m.totalFooter + |input|);
    h' := h.(start := start, fed := input);
  }

  /** The header's length prefix, if there is a header, waits at the front of the buffer. */
  method PlacePrefix(buffer: array<bv8>, headerLength: nat, buffered: nat) returns (n: nat)
    requires buffer.Length == 2 * BLOCK && buffered < BLOCK
    modifies buffer
    ensures n < BLOCK && buffer[BLOCK..] == old(buffer[BLOCK..])
    ensures if headerLength > 0 then n == |HeaderPrefix(headerLength)| && buffer[..n] == HeaderPrefix(headerLength)
            else n == buffered && buffer[..] == old(buffer[..])
  {
    n := buffered;
    if headerLength > 0 {
      if headerLength < 65536 - 256 {
        CopyInto(buffer, 0, BigEndian(headerLength, 2));
        n := 2;
      } else if headerLength < 0x1_0000_0000 {
        CopyInto(buffer, 0, [255, 254] + BigEndian(headerLength, 4));
        n := 6;
      } else {
        CopyInto(buffer, 0, [255, 255] + BigEndian(headerLength, 8));
        n := 10;
      }
    }
  }

  /** The part of UncheckedSpecifyDataLengths that stores. */
  method DeclareLengths(buffer: array<bv8>, m: Members, ghost h: History, headerLength: nat, messageLength: nat)
    returns (m': Members, ghost h': History)
    requires ValidState(m, h, buffer[..]) && m.stage == IVSet && buffer.Length == 2 * BLOCK
    modifies buffer
    ensures ValidState(m', h', buffer[..])
    ensures m' == m.(aadLength := headerLength, messageLength := messageLength, buffered := m'.buffered)
    ensures h' == h.(start := h'.start, fed := h'.fed, pristine := h'.pristine, declared := Untouched(m, h))
  {
    hide ValidState, Section, FirstBlock, HeaderPrefix, BigEndian, FlagByte;
    ghost var buf0 := buffer[..];
    ReadyToDeclare(m, h, buf0, headerLength, messageLength);
    FlagIs(headerLength, m.digestSize, m.l);
    var flag: bv8 := (64 * (if headerLength > 0 then 1 else 0) + 8 * ((m.digestSize - 2) / 2) + (m.l - 1)) as bv8;
    assert buffer[1..BLOCK - m.l] == buf0[1..BLOCK - m.l];
    LoadFirstBlock(buffer, m.key.encrypt, flag, m.l, messageLength);
    var n := PlacePrefix(buffer, headerLength, m.buffered);
    m' := m.(aadLength := headerLength, messageLength := messageLength, buffered := n);
    assert buffer[..][BLOCK..] == buffer[BLOCK..] && buffer[..][..n] == buffer[..n];
    assert headerLength == 0 ==> buffer[..][..BLOCK] == buf0[..BLOCK];
    h' := h.(start := buffer[BLOCK..], fed := buffer[..n], pristine := h.pristine && headerLength == 0,
             declared := Untouched(m, h));
    SectionShort(m.key.encrypt, buffer[..n], buffer[..]);
    DeclareKeepsValid(m, h, buf0, m', h', buffer[..]);
  }

  lemma FlagIs(headerLength: nat, digestSize: nat, l: nat)
    requires ValidDigestSize(digestSize) && 2 <= l <= 8
    ensures 0 <= 64 * (if headerLength > 0 then 1 else 0) + 8 * ((digestSize - 2) / 2) + (l - 1) < 256
    ensures FlagByte(headerLength, digestSize, l) ==
            (64 * (if headerLength > 0 then 1 else 0) + 8 * ((digestSize - 2) / 2) + (l - 1)) as bv8
  {
  }

  /** While nothing has been put in, the buffer holds the first counter block, and in it the nonce. */
  lemma ReadyToDeclare(m: Members, h: History, buf: Bytes, headerLength: nat, messageLength: nat)
    requires ValidState(m, h, buf) && m.stage == IVSet
    ensures |buf| == 2 * BLOCK && Keyed(m) && ValidNonce(h.nonce) && 2 <= m.l <= 8 && m.buffered < BLOCK
    ensures Untouched(m, h) ==>
              [FlagByte(headerLength, m.digestSize, m.l)]
              + buf[1..BLOCK - m.l] + BigEndian(messageLength, m.l)
              == FirstBlock(h.nonce, headerLength, messageLength, m.digestSize)
  {
    hide FlagByte, BigEndian, CbcChain;
    if Untouched(m, h) {
      assert buf[1..BLOCK - m.l] == buf[..BLOCK][1..BLOCK - m.l] == h.nonce;
    }
  }

  lemma DeclareKeepsValid(m: Members, h: History, buf: Bytes, m': Members, h': History, buf': Bytes)
    requires ValidState(m, h, buf) && m.stage == IVSet && |buf'| == 2 * BLOCK
    requires m' == m.(aadLength := m'.aadLength, messageLength := m'.messageLength, buffered := m'.buffered)
    requires h' == h.(start := buf'[BLOCK..], fed := h'.fed, pristine := h.pristine && m'.aadLength == 0,
                      declared := Untouched(m, h))
    requires |h'.fed| < BLOCK && Section(m.key.encrypt, h'.start, h'.fed, buf', m'.buffered)
    requires if m'.aadLength > 0 then h'.fed == HeaderPrefix(m'.aadLength)
             else m'.buffered == m.buffered && |h'.fed| == m.buffered && buf'[..BLOCK] == buf[..BLOCK]
    requires Keyed(m') && ValidNonce(h.nonce)
    requires Untouched(m, h) ==> h'.start == Opened(m', h.nonce)
    ensures ValidState(m', h', buf')
  {
    SectionBuffered(m.key.encrypt, h.start, h.fed, buf, m.buffered);
  }

  lemma SectionBuffered(E: Bytes -> Bytes, start: Bytes, fed: Bytes, buf: Bytes, n: nat)
    requires Section(E, start, fed, buf, n)
    ensures n < BLOCK && (fed == [] ==> n == 0)
  {
  }

  /** Authentication is on the plaintext: before the mask when encrypting, after it when decrypting. */
  function MessageStage(forward: bool): Stage {
    if forward then AuthUntransformed else AuthTransformed
  }

  /** Counting more message bytes, or giving up the promise, disturbs nothing else. */
  lemma CountOnly(m: Members, h: History, buf: Bytes, n: nat)
    requires ValidState(m, h, buf)
    ensures ValidState(m.(totalMessage := m.totalMessage + n), h.(declared := false), buf)
    ensures ValidState(m, h.(declared := false), buf)
  {
  }

  /** A failed close leaves the stage where it was. */
  lemma GiveUp(m: Members, h: History, buf: Bytes, stage: Stage)
    requires ValidState(m, h, buf) && InMessageStage(m.stage) && (stage == IVSet || InMessageStage(stage))
    ensures ValidState(m.(stage := stage), h.(pristine := false, declared := false), buf)
  {
  }

  lemma FooterHasFooter(m: Members, h: History, buf: Bytes)
    requires ValidState(m, h, buf)
    ensures m.stage == AuthFooter ==> m.totalFooter > 0
  {
  }

  /** The header section is closed and the message section opened. */
  method EnterMessage(buffer: array<bv8>, m: Members, ghost h: History, stage: Stage)
    returns (m': Members, ghost h': History)
    requires ValidState(m, h, buffer[..]) && m.stage == IVSet && buffer.Length == 2 * BLOCK
    requires m.aadLength == m.totalHeader && InMessageStage(stage)
    modifies buffer
    ensures ValidState(m', h', buffer[..])
    ensures m' == m.(stage := stage, buffered := 0)
    ensures h' == h.(start := h'.start, fed := [])
  {
    hide Section, Pad, FirstBlock, HeaderPrefix, CbcChain;
    CloseSection(buffer, m.key.encrypt, m.buffered, h.start, h.fed);
    SectionEmpty(m.key.encrypt, buffer[..]);
    assert buffer[BLOCK..] == buffer[..][BLOCK..];
    m' := m.(stage := stage, buffered := 0);
    h' := h.(start := buffer[BLOCK..], fed := []);
    assert h.declared ==> Mask(m.key, h.nonce, []) == [];
  }

  method FeedMessage(buffer: array<bv8>, m: Members, ghost h: History, input: Bytes)
    returns (m': Members, out: Bytes, ghost h': History)
    requires ValidState(m, h, buffer[..]) && InMessageStage(m.stage) && buffer.Length == 2 * BLOCK
    modifies buffer
    ensures ValidState(m', h', buffer[..]) && |out| == |input|
    ensures m' == m.(totalMessage := m.totalMessage + |input|, buffered := m'.buffered,
                     position := m.position + |input|)
    ensures h' == h.(message := h.message + (if m.stage == AuthUntransformed then input else out),
                     ciphertext := h.ciphertext + (if m.stage == AuthUntransformed then out else input), fed := h'.fed)
  {
    hide Section, Pad, FirstBlock, HeaderPrefix, CbcChain, CounterBlock;
    out := Xor(input, KeyStream(m.key, m.counter, m.position, |input|));
    var plain := if m.stage == AuthUntransformed then input else out;
    var n := AuthenticateData(buffer, m.key.encrypt, m.buffered, plain, h.start, h.fed);
    m' := m.(totalMessage := m.totalMessage + |input|, buffered := n, position := m.position + |input|);
    h' := h.(message := h.message + plain,
             ciphertext := h.ciphertext + (if m.stage == AuthUntransformed then out else input),
             fed := h.fed + plain);
    if h.declared {
      MaskConcat(m.key, h.nonce, h.message, plain);
      XorInvolution(input, KeyStream(m.key, m.counter, m.position, |input|));
    }
  }

  /** The message section is closed, and the chain masked by key stream block 0. */
  method FinishMessage(buffer: array<bv8>, m: Members, ghost h: History, macSize: nat)
    returns (m': Members, tag: Bytes, ghost h': History)
    requires ValidState(m, h, buffer[..]) && InMessageStage(m.stage) && buffer.Length == 2 * BLOCK
    requires m.messageLength == m.totalMessage && macSize <= BLOCK
    modifies buffer
    ensures ValidState(m', h', buffer[..]) && m'.stage == KeySet && !h'.declared && |tag| == macSize
    ensures h.declared ==>
              && ValidKey(m.key) && ValidNonce(h.nonce) && ValidDigestSize(m.digestSize)
              && tag == Tag(m.key, m.digestSize, h.nonce, h.header, h.message)[..macSize]
  {
    hide Section, Pad, FirstBlock, HeaderPrefix, CbcChain, CounterBlock;
    if h.declared {
      MacInSections(m.key, m.digestSize, h.nonce, h.header, h.message);
    }
    CloseSection(buffer, m.key.encrypt, m.buffered, h.start, h.fed);
    tag := Xor(buffer[BLOCK..][..macSize], KeyStream(m.key, m.counter, 0, macSize));
    TagPrefix(m.key, m.counter, buffer[BLOCK..], macSize);
    hide Xor, KeyStream;
    m' := m.(position := macSize, buffered := 0, stage := KeySet);
    h' := h.(declared := false);
  }

  lemma TagPrefix(key: Key, counter: Bytes, chain: Bytes, n: nat)
    requires |chain| == BLOCK && n <= BLOCK
    ensures Xor(chain[..n], KeyStream(key, counter, 0, n)) == Xor(chain, KeyStream(key, counter, 0, BLOCK))[..n]
  {
  }
}
