/** BaseN_Decoder: characters of k bits regrouped into bytes; characters without a value are skipped. */
module BaseNDecoder {
  import opened PowersOfTwo
  import opened BitStrings
  import opened BitPacking

  /** A lookup array: the value of every character, or -1. */
  predicate ValidLookup(lookup: seq<int>, k: nat) {
    |lookup| == 256 && forall c :: 0 <= c < 256 ==> -1 <= lookup[c] < Pow2(k)
  }

  // ---------- What a decoded message is ----------

  /** The values of those characters that have one. */
  function Digits(lookup: seq<int>, s: seq<byte>): (r: seq<nat>)
    requires |lookup| == 256
  {
    if s == [] then [] else (if lookup[s[0]] < 0 then [] else [lookup[s[0]]]) + Digits(lookup, s[1..])
  }

  lemma {:induction false} DigitsConcat(lookup: seq<int>, a: seq<byte>, b: seq<byte>)
    requires |lookup| == 256
    ensures Digits(lookup, a + b) == Digits(lookup, a) + Digits(lookup, b)
    decreases |a|
  {
    if a == [] {
      assert a + b == b;
    } else {
      assert (a + b)[1..] == a[1..] + b;
      DigitsConcat(lookup, a[1..], b);
    }
  }

  /** The bytes that the bits of the values make up; bits left over are dropped. */
  function DecodeMessage(lookup: seq<int>, k: nat, s: seq<byte>): seq<nat>
    requires |lookup| == 256
  {
    Groups(GroupBits(Digits(lookup, s), k), 8)
  }

  // ---------- Packing one value ----------

  /** Or-ing into a byte sees only the low eight bits. */
  lemma {:induction false} OrLow(a: nat, b: nat, k: nat)
    ensures Or(a, b, k) == Or(a, b % Pow2(k), k)
    decreases k
  {
    if k > 0 {
      var p := Pow2(k - 1);
      var c := b % Pow2(k);
      DivModLaw(b, 2 * p);
      var q := b / (2 * p);
      assert b == q * (2 * p) + c;
      MulAssoc(q, 2, p);
      MulAssoc(2, q, p);
      assert b == 2 * (q * p) + c;
      DivModUnique(b / 2, p, q, c / 2);
      OrLow(a / 2, b / 2, k - 1);
    }
  }

  /** A value's bits, split where the open byte ends. */
  lemma SplitValue(v: nat, k: nat, t: nat)
    requires v < Pow2(k) && t < k < 8
    ensures Num(BitsOf(v, k)[..t]) == Shr(v, k - t)
    ensures v * Pow2(8 - (k - t)) % 256 == Num(BitsOf(v, k)[t..]) * Pow2(8 - (k - t))
  {
    hide Num, Pow2, BitsOf;
    var bits := BitsOf(v, k);
    NumOfBits(v, k);
    NumSplit(bits, t);
    PowEight();
    ShiftUpDown(Num(bits[..t]), Num(bits[t..]), k - t, 8 - (k - t));
    DivModUnique(v, Pow2(k - t), Num(bits[..t]), Num(bits[t..]));
  }

  /** A value that fits the open byte. */
  lemma PackFits(buf: seq<byte>, bytePos: nat, bitPos: nat, bits: Bits, v: nat, k: nat)
    requires v < Pow2(k) && Packed(buf, 8, bytePos, bitPos, bits) && bytePos < |buf| && bitPos + k <= 8
    ensures var cell := Or(buf[bytePos], v * Pow2(8 - bitPos - k), 8);
            && cell < 256
            && (bitPos + k == 8 ==> Packed(buf[bytePos := cell], 8, bytePos + 1, 0, bits + BitsOf(v, k)))
            && (bitPos + k < 8 ==> Packed(buf[bytePos := cell], 8, bytePos, bitPos + k, bits + BitsOf(v, k)))
  {
    hide Packed, Num, Or, Pow2, BitsOf;
    NumOfBits(v, k);
    Append(buf, 8, bytePos, bitPos, bits, BitsOf(v, k));
  }

  /** A value that runs over into the next byte. */
  lemma PackAcross(buf: seq<byte>, bytePos: nat, bitPos: nat, bits: Bits, v: nat, k: nat)
    requires v < Pow2(k) && k < 8 && bitPos < 8 && Packed(buf, 8, bytePos, bitPos, bits)
    requires bytePos + 1 < |buf| && bitPos + k > 8
    ensures var cell := Or(buf[bytePos], Shr(v, bitPos + k - 8), 8);
            var next := Or(buf[bytePos + 1], v * Pow2(16 - bitPos - k), 8);
            && cell < 256 && next < 256
            && Packed(buf[bytePos := cell][bytePos + 1 := next], 8, bytePos + 1, bitPos + k - 8, bits + BitsOf(v, k))
  {
    hide Packed, Num, Or, Pow2, BitsOf, Shr;
    var t, new' := 8 - bitPos, BitsOf(v, k);
    SplitValue(v, k, t);
    PowZero();
    PowEight();
    Append(buf, 8, bytePos, bitPos, bits, new'[..t]);
    var cell := Or(buf[bytePos], Shr(v, bitPos + k - 8), 8);
    var buf1 := buf[bytePos := cell];
    OrLow(buf1[bytePos + 1], v * Pow2(8 - (k - t)), 8);
    Append(buf1, 8, bytePos + 1, 0, bits + new'[..t], new'[t..]);
    Regroup(bits, new', t);
  }

  /** Room for a value that runs over means that the next byte is there. */
  lemma NextOpen(buf: seq<byte>, bytePos: nat, bitPos: nat, bits: Bits, k: nat)
    requires Packed(buf, 8, bytePos, bitPos, bits) && k >= 1 && |bits| + k <= |buf| * 8
    ensures bytePos < |buf| && bitPos < 8 && (bitPos + k > 8 ==> bytePos + 1 < |buf|)
  {
  }

  /** The bits of one value are packed, over one or two bytes. */
  method PackValue(outBuf: array<byte>, k: nat, bytePos: nat, bitPos: nat, value: nat, ghost bits: Bits)
    returns (bytePos': nat, bitPos': nat)
    requires ValidLog2Base(k) && value < Pow2(k)
    requires Packed(outBuf[..], 8, bytePos, bitPos, bits) && |bits| + k <= outBuf.Length * 8
    modifies outBuf
    ensures Packed(outBuf[..], 8, bytePos', bitPos', bits + BitsOf(value, k))
  {
    hide Num, Or, Shr, BitsOf, Pow2, Packed;
    ghost var before := outBuf[..];
    NextOpen(before, bytePos, bitPos, bits, k);
    var newBitPos := bitPos + k;
    if newBitPos <= 8 {
      PackFits(before, bytePos, bitPos, bits, value, k);
      outBuf[bytePos] := Or(outBuf[bytePos], value * Pow2(8 - newBitPos), 8);
      assert outBuf[..] == before[bytePos := outBuf[bytePos]];
    } else {
      PackAcross(before, bytePos, bitPos, bits, value, k);
      outBuf[bytePos] := Or(outBuf[bytePos], Shr(value, newBitPos - 8), 8);
      outBuf[bytePos + 1] := Or(outBuf[bytePos + 1], value * Pow2(16 - newBitPos), 8);
      ghost var half: seq<byte> := before[bytePos := outBuf[bytePos]];
      assert outBuf[..] == half[bytePos + 1 := outBuf[bytePos + 1]];
    }
    bytePos', bitPos' := bytePos, newBitPos;
    while bitPos' >= 8
      invariant || (bytePos' == bytePos && bitPos' == newBitPos)
                || (newBitPos >= 8 && bytePos' == bytePos + 1 && bitPos' == newBitPos - 8)
    {
      bytePos', bitPos' := bytePos' + 1, bitPos' - 8;
    }
  }

  // ---------- The decoder's state ----------

  /** Values whose bytes have been sent, in whole blocks, and values that wait. */
  datatype History = History(taken: seq<byte>, done: seq<nat>, waiting: seq<nat>, blocks: nat, sent: seq<byte>)

  ghost const START := History([], [], [], 0, [])

  ghost predicate State(buf: seq<byte>, k: nat, lookup: seq<int>, bytePos: nat, bitPos: nat, h: History) {
    && ValidLog2Base(k) && ValidLookup(lookup, k) && |buf| * 8 == BlockBits(k)
    && Digits(lookup, h.taken) == h.done + h.waiting
    && |h.done| * k == h.blocks * BlockBits(k) && |h.waiting| * k < BlockBits(k)
    && h.sent == Groups(GroupBits(h.done, k), 8)
    && (bytePos == 0 && bitPos == 0 <==> h.waiting == [])
    && (h.waiting != [] ==> Packed(buf, 8, bytePos, bitPos, GroupBits(h.waiting, k)))
  }

  lemma GroupBitsSnoc(ds: seq<nat>, v: nat, k: nat)
    ensures GroupBits(ds + [v], k) == GroupBits(ds, k) + BitsOf(v, k)
  {
    GroupBitsConcat(ds, [v], k);
    assert GroupBits([v], k) == BitsOf(v, k) + GroupBits([], k);
  }

  lemma RoomForValue(k: nat, n: nat)
    requires ValidLog2Base(k) && n * k < BlockBits(k)
    ensures (n + 1) * k <= BlockBits(k)
  {
    var size := BlockBits(k) / k;
    assert BlockBits(k) == size * k;
    if n >= size {
      MulMonotone(size, n, k);
    }
    MulMonotone(n + 1, size, k);
  }

  /** The bytes of whole blocks of values and of what follows them. */
  lemma BytesOfBlocks(done: seq<nat>, rest: seq<nat>, k: nat, blocks: nat)
    requires ValidLog2Base(k) && |done| * k == blocks * BlockBits(k)
    ensures Groups(GroupBits(done + rest, k), 8) == Groups(GroupBits(done, k), 8) + Groups(GroupBits(rest, k), 8)
  {
    hide Groups, GroupBits;
    var size := BlockBits(k) / 8;
    assert BlockBits(k) == size * 8;
    MulAssoc(blocks, size, 8);
    GroupBitsConcat(done, rest, k);
    GroupsConcat(GroupBits(done, k), GroupBits(rest, k), 8, blocks * size);
  }

  /** Both positions are zero exactly when nothing is packed. */
  lemma NothingPacked(buf: seq<byte>, bytePos: nat, bitPos: nat, bits: Bits)
    requires Packed(buf, 8, bytePos, bitPos, bits)
    ensures bytePos == 0 && bitPos == 0 <==> bits == []
  {
  }

  lemma TakeSkipped(lookup: seq<int>, taken: seq<byte>, c: byte)
    requires |lookup| == 256
    ensures Digits(lookup, taken + [c]) == Digits(lookup, taken) + if lookup[c] < 0 then [] else [lookup[c]]
  {
    DigitsConcat(lookup, taken, [c]);
    assert [c][1..] == [];
  }

  /** One round of the loop of Put2, for a character with a value. */
  method PutValue(outBuf: array<byte>, lookup: seq<int>, k: nat, bytePos: nat, bitPos: nat, c: byte, ghost h: History)
    returns (bytePos': nat, bitPos': nat, out: seq<byte>, ghost h': History)
    requires State(outBuf[..], k, lookup, bytePos, bitPos, h) && lookup[c] >= 0
    modifies outBuf
    ensures State(outBuf[..], k, lookup, bytePos', bitPos', h')
    ensures h'.taken == h.taken + [c] && h'.sent == h.sent + out
  {
    hide Groups, GroupBits, BlockBits, Pow2, Packed, BitsOf, Digits;
    var value: nat := lookup[c];
    if bytePos == 0 && bitPos == 0 {
      Clear(outBuf);
      PackedEmpty(outBuf[..], 8);
      NoDigits(k);
    }
    RoomForValue(k, |h.waiting|);
    MulDistributes(|h.waiting|, 1, k);
    bytePos', bitPos' := PackValue(outBuf, k, bytePos, bitPos, value, GroupBits(h.waiting, k));
    ghost var waiting := h.waiting + [value];
    GroupBitsSnoc(h.waiting, value, k);
    TakeSkipped(lookup, h.taken, c);
    assert h.done + h.waiting + [value] == h.done + waiting;
    BlockFull(outBuf[..], 8, bytePos', bitPos', GroupBits(waiting, k));
    if bytePos' == outBuf.Length {
      out := outBuf[..];
      bytePos', bitPos' := 0, 0;
      BytesOfBlocks(h.done, waiting, k, h.blocks);
      h' := History(h.taken + [c], h.done + waiting, [], h.blocks + 1, h.sent + out);
      MulDistributes(h.blocks, 1, BlockBits(k));
      MulDistributes(|h.done|, |waiting|, k);
    } else {
      out := [];
      NothingPacked(outBuf[..], bytePos', bitPos', GroupBits(waiting, k));
      h' := h.(waiting := waiting, taken := h.taken + [c]);
      assert h'.sent == h.sent + [];
    }
  }

  lemma NoDigits(k: nat)
    ensures GroupBits([], k) == []
  {
  }

  /** What is still to be sent when the message ends: the whole bytes in the buffer. */
  lemma DecodingEnds(buf: seq<byte>, k: nat, lookup: seq<int>, bytePos: nat, bitPos: nat, h: History)
    requires State(buf, k, lookup, bytePos, bitPos, h)
    ensures bytePos <= |buf| && h.sent + buf[..bytePos] == DecodeMessage(lookup, k, h.taken)
  {
    hide Groups, GroupBits, BlockBits, Pow2, Digits, Num;
    BytesOfBlocks(h.done, h.waiting, k, h.blocks);
    if h.waiting == [] {
      NoBytes(k);
    }
  }

  lemma NoBytes(k: nat)
    ensures Groups(GroupBits([], k), 8) == []
  {
  }

  // ---------- The filter ----------

  method OutputBlockSize(k: nat) returns (size: nat)
    requires ValidLog2Base(k)
    ensures size * 8 == BlockBits(k)
  {
    var i: nat := k;
    while i % 8 != 0
      invariant i % k == 0 && k <= i <= BlockBits(k)
      decreases BlockBits(k) - i
    {
      NextMultiple(i, k);
      i := i + k;
    }
    OnlyBlockBits(i, k);
    size := i / 8;
  }

  lemma NextMultiple(i: nat, k: nat)
    requires ValidLog2Base(k) && i % k == 0 && i <= BlockBits(k) && i % 8 != 0
    ensures (i + k) % k == 0 && i + k <= BlockBits(k)
  {
    var q, size := i / k, BlockBits(k) / k;
    assert i != BlockBits(k);
    hide BlockBits;
    DivModLaw(i, k);
    DivModLaw(BlockBits(k), k);
    if q >= size {
      MulMonotone(size, q, k);
    }
    MulMonotone(q + 1, size, k);
    MulDistributes(q, 1, k);
    DivModUnique(i + k, k, q + 1, 0);
  }

  lemma OnlyBlockBits(i: nat, k: nat)
    requires ValidLog2Base(k) && i % k == 0 && k <= i <= BlockBits(k) && i % 8 == 0
    ensures i == BlockBits(k)
  {
  }

  class Decoder {
    const lookup: seq<int>
    const bitsPerChar: nat
    const outBuf: array<byte>
    var bytePos: nat
    var bitPos: nat
    ghost var h: History

    ghost predicate Valid()
      reads this, outBuf
    {
      State(outBuf[..], bitsPerChar, lookup, bytePos, bitPos, h)
    }

    constructor (lookup: seq<int>, k: nat)
      requires ValidLog2Base(k) && ValidLookup(lookup, k)
      ensures Valid() && fresh(outBuf) && h == START
      ensures this.lookup == lookup && bitsPerChar == k
    {
      this.lookup, bitsPerChar := lookup, k;
      bytePos, bitPos, h := 0, 0, START;
      var size := OutputBlockSize(k);
      outBuf := new byte[size];
    }

    /** However a message is cut into calls, what has been sent at its end is what it decodes to. */
    method Put2(input: seq<byte>, messageEnd: bool) returns (out: seq<byte>)
      requires Valid()
      modifies this, outBuf
      ensures Valid()
      ensures !messageEnd ==> h.taken == old(h.taken) + input && h.sent == old(h.sent) + out
      ensures messageEnd ==> old(h.sent) + out == DecodeMessage(lookup, bitsPerChar, old(h.taken) + input)
      ensures messageEnd ==> h == START
    {
      hide State, DecodeMessage, ValidLog2Base, ValidLookup;
      ghost var first := outBuf[..];
      StateEmpty(first, first, bitsPerChar, lookup, bytePos, bitPos, h);
      out := [];
      for i := 0 to |input|
        invariant Valid() && |lookup| == 256
        invariant h.taken == old(h.taken) + input[..i] && h.sent == old(h.sent) + out
      {
        var c := input[i];
        assert input[..i + 1] == input[..i] + [c];
        if lookup[c] < 0 {
          Skip(outBuf[..], bitsPerChar, lookup, bytePos, bitPos, h, c);
          h := h.(taken := h.taken + [c]);
          continue;
        }
        var more;
        bytePos, bitPos, more, h := PutValue(outBuf, lookup, bitsPerChar, bytePos, bitPos, c, h);
        out := out + more;
      }
      assert input[..|input|] == input;
      if messageEnd {
        DecodingEnds(outBuf[..], bitsPerChar, lookup, bytePos, bitPos, h);
        ghost var last := outBuf[..][..bytePos];
        assert old(h.sent) + (out + last) == h.sent + last;
        out := out + outBuf[..bytePos];
        assert outBuf[..bytePos] == last;
        StateEmpty(first, outBuf[..], bitsPerChar, lookup, old(bytePos), old(bitPos), old(h));
        bytePos, bitPos, h := 0, 0, START;
      }
    }
  }

  lemma StateEmpty(buf: seq<byte>, buf': seq<byte>, k: nat, lookup: seq<int>, bytePos: nat, bitPos: nat, h: History)
    requires State(buf, k, lookup, bytePos, bitPos, h) && |buf'| == |buf|
    ensures State(buf', k, lookup, 0, 0, START) && |lookup| == 256
  {
  }

  lemma Skip(buf: seq<byte>, k: nat, lookup: seq<int>, bytePos: nat, bitPos: nat, h: History, c: byte)
    requires State(buf, k, lookup, bytePos, bitPos, h) && lookup[c] < 0
    ensures State(buf, k, lookup, bytePos, bitPos, h.(taken := h.taken + [c]))
  {
    hide Packed, Groups, GroupBits, Digits;
    TakeSkipped(lookup, h.taken, c);
  }

  method Initialize(lookup: seq<int>, log2Base: int) returns (d: Decoder?)
    requires ValidLog2Base(log2Base) ==> ValidLookup(lookup, log2Base)
    ensures d != null <==> ValidLog2Base(log2Base)
    ensures d != null ==> fresh(d) && fresh(d.outBuf) && d.Valid() && d.h == START
    ensures d != null ==> d.lookup == lookup && d.bitsPerChar == log2Base
  {
    if log2Base <= 0 || log2Base >= 8 {
      return null;
    }
    d := new Decoder(lookup, log2Base);
  }
}
