/** BaseN_Encoder: bytes regrouped into characters of k bits, for k from 1 to 7. */
module BaseNEncoder {
  import opened PowersOfTwo
  import opened BitStrings
  import opened BitPacking

  // ---------- What an encoded message is ----------

  function Chars(alphabet: seq<byte>, ds: seq<nat>): (r: seq<byte>)
    requires forall i :: 0 <= i < |ds| ==> ds[i] < |alphabet|
    ensures |r| == |ds|
  {
    seq(|ds|, i requires 0 <= i < |ds| => alphabet[ds[i]])
  }

  /** The zero bits that complete the last character. */
  function Fill(n: nat, k: nat): (r: nat)
    requires ValidLog2Base(k)
    ensures r < k
  {
    ToMultiple(n, k)
  }

  /** The k-bit values of a message. */
  function Values(k: nat, message: seq<byte>): (r: seq<nat>)
    requires ValidLog2Base(k)
    ensures forall i :: 0 <= i < |r| ==> r[i] < Pow2(k)
  {
    var bits := ByteBits(message);
    Groups(bits + Falses(Fill(|bits|, k)), k)
  }

  function Repeat(c: byte, n: nat): (r: seq<byte>)
    ensures |r| == n && forall i :: 0 <= i < n ==> r[i] == c
  {
    seq(n, _ => c)
  }

  /** How many padding characters bring n characters to a multiple of the block size. */
  function PadCount(n: nat, k: nat): nat
    requires ValidLog2Base(k)
  {
    ToMultiple(n, BlockBits(k) / k)
  }

  /** The whole encoding; padding is -1 for none. */
  function EncodeMessage(alphabet: seq<byte>, k: nat, padding: int, message: seq<byte>): seq<byte>
    requires ValidLog2Base(k) && Pow2(k) <= |alphabet| && -1 <= padding < 256
  {
    var cs := Chars(alphabet, Values(k, message));
    if padding == -1 then cs else cs + Repeat(padding, PadCount(|cs|, k))
  }

  // ---------- Packing one byte ----------

  lemma TopBits(rem: Bits, target: nat)
    requires 1 <= |rem| <= 8 && 1 <= target <= 8
    ensures Shr(Num(rem) * Pow2(8 - |rem|), 8 - target) ==
            if |rem| >= target then Num(rem[..target]) else Num(rem) * Pow2(target - |rem|)
  {
    hide Num, Pow2;
    var r := |rem|;
    if r >= target {
      NumSplit(rem, target);
      ShiftUpDown(Num(rem[..target]), Num(rem[target..]), r - target, 8 - r);
    } else {
      ShiftDown(Num(rem), target - r, 8 - target);
    }
  }

  lemma ShiftDown(n: nat, a: nat, b: nat)
    ensures n * Pow2(a + b) / Pow2(b) == n * Pow2(a)
  {
    Pow2Add(a, b);
    MulAssoc(n, Pow2(a), Pow2(b));
    DivModUnique(n * Pow2(a + b), Pow2(b), n * Pow2(a), 0);
  }

  /** Shifting the source byte up by the bits taken leaves the others at its top. */
  lemma ShiftSource(rem: Bits, target: nat)
    requires 1 <= target < |rem| <= 8
    ensures Num(rem) * Pow2(8 - |rem|) * Pow2(target) % 256 == Num(rem[target..]) * Pow2(8 - |rem| + target)
  {
    hide Num, Pow2;
    var r := |rem|;
    var s := 8 - r + target;
    NumSplit(rem, target);
    PowEight();
    Pow2Add(8 - r, target);
    MulAssoc(Num(rem), Pow2(8 - r), Pow2(target));
    ShiftUpDown(Num(rem[..target]), Num(rem[target..]), r - target, s);
  }

  /** Room for more bits means that a cell is still open. */
  lemma CellOpen(buf: seq<byte>, w: nat, bytePos: nat, bitPos: nat, bits: Bits, more: nat)
    requires Packed(buf, w, bytePos, bitPos, bits) && more >= 1 && |bits| + more <= |buf| * w
    ensures bytePos < |buf| && bitPos < w
  {
    if bytePos >= |buf| {
      MulMonotone(|buf|, bytePos, w);
    }
  }

  /** One round of the inner loop, on values: a character is completed. */
  lemma PackFull(buf: seq<byte>, k: nat, bytePos: nat, bitPos: nat, bits: Bits, rem: Bits)
    requires bitPos < k <= 8 && Packed(buf, k, bytePos, bitPos, bits)
    requires bytePos < |buf| && k - bitPos <= |rem| <= 8
    ensures var cell := Or(buf[bytePos], Shr(Num(rem) * Pow2(8 - |rem|), 8 - k + bitPos), 8);
            cell < 256 && Packed(buf[bytePos := cell], k, bytePos + 1, 0, bits + rem[..k - bitPos])
  {
    hide Packed, Num, Or, Pow2, Shr;
    TopBits(rem, k - bitPos);
    PowZero();
    Append(buf, k, bytePos, bitPos, bits, rem[..k - bitPos]);
  }

  /** One round of the inner loop, on values: the source runs out first. */
  lemma PackPart(buf: seq<byte>, k: nat, bytePos: nat, bitPos: nat, bits: Bits, rem: Bits)
    requires bitPos < k <= 8 && Packed(buf, k, bytePos, bitPos, bits)
    requires bytePos < |buf| && 1 <= |rem| < k - bitPos
    ensures var cell := Or(buf[bytePos], Shr(Num(rem) * Pow2(8 - |rem|), 8 - k + bitPos), 8);
            cell < 256 && Packed(buf[bytePos := cell], k, bytePos, bitPos + |rem|, bits + rem)
  {
    hide Packed, Num, Or, Pow2, Shr;
    TopBits(rem, k - bitPos);
    Append(buf, k, bytePos, bitPos, bits, rem);
  }

  /** The bits of one byte are packed, over as many characters as they take. */
  method PackByte(outBuf: array<byte>, k: nat, bytePos: nat, bitPos: nat, source: byte, ghost bits: Bits)
    returns (bytePos': nat, bitPos': nat)
    requires ValidLog2Base(k) && Packed(outBuf[..], k, bytePos, bitPos, bits) && |bits| + 8 <= outBuf.Length * k
    modifies outBuf
    ensures Packed(outBuf[..], k, bytePos', bitPos', bits + BitsOf(source, 8))
  {
    hide Num, Or, Shr, BitsOf, Pow2, Packed;
    bytePos', bitPos' := bytePos, bitPos;
    var b: nat, bitsLeftInSource := source, 8;
    ghost var rem, packed := BitsOf(source, 8), bits;
    SourceStart(source);
    while true
      invariant 1 <= bitsLeftInSource == |rem| <= 8 && b == Num(rem) * Pow2(8 - |rem|)
      invariant packed + rem == bits + BitsOf(source, 8)
      invariant Packed(outBuf[..], k, bytePos', bitPos', packed)
      decreases bitsLeftInSource
    {
      CellOpen(outBuf[..], k, bytePos', bitPos', packed, |rem|);
      ghost var before := outBuf[..];
      var bitsLeftInTarget := k - bitPos';
      if bitsLeftInSource >= bitsLeftInTarget {
        PackFull(before, k, bytePos', bitPos', packed, rem);
        outBuf[bytePos'] := Or(outBuf[bytePos'], Shr(b, 8 - bitsLeftInTarget), 8);
        assert outBuf[..] == before[bytePos' := outBuf[bytePos']];
        bytePos', bitPos' := bytePos' + 1, 0;
        Regroup(packed, rem, bitsLeftInTarget);
        packed := packed + rem[..bitsLeftInTarget];
        bitsLeftInSource := bitsLeftInSource - bitsLeftInTarget;
        if bitsLeftInSource == 0 {
          assert packed == packed + rem[bitsLeftInTarget..];
          return;
        }
        ShiftSource(rem, bitsLeftInTarget);
        b := b * Pow2(bitsLeftInTarget) % 256;
        rem := rem[bitsLeftInTarget..];
      } else {
        PackPart(before, k, bytePos', bitPos', packed, rem);
        outBuf[bytePos'] := Or(outBuf[bytePos'], Shr(b, 8 - bitsLeftInTarget), 8);
        assert outBuf[..] == before[bytePos' := outBuf[bytePos']];
        bitPos' := bitPos' + bitsLeftInSource;
        return;
      }
    }
  }

  lemma SourceStart(source: byte)
    ensures source == Num(BitsOf(source, 8)) * Pow2(0)
  {
    PowEight();
    NumOfBits(source, 8);
    PowZero();
  }


  // ---------- The encoder's state ----------

  /**
   What the encoder has been given of this message, and what it has sent on: whole blocks are sent, the rest waits.
   */
  datatype History = History(done: seq<byte>, waiting: seq<byte>, blocks: nat, sent: seq<byte>) {
    function Taken(): seq<byte> { done + waiting }
  }

  ghost predicate State(buf: seq<byte>, k: nat, alphabet: seq<byte>, bytePos: nat, bitPos: nat, h: History) {
    && ValidLog2Base(k) && Pow2(k) <= |alphabet| && |buf| * k == BlockBits(k)
    && 8 * |h.done| == h.blocks * BlockBits(k) && 8 * |h.waiting| < BlockBits(k)
    && h.sent == Chars(alphabet, Groups(ByteBits(h.done), k))
    && (bytePos == 0 <==> h.waiting == []) && (bytePos == 0 ==> bitPos == 0)
    && (h.waiting != [] ==> Packed(buf, k, bytePos, bitPos, ByteBits(h.waiting)))
  }

  /** The characters the last, incomplete block has: the open one counts, filled up with zero bits. */
  lemma LastCharacters(buf: seq<byte>, k: nat, bytePos: nat, bitPos: nat, bits: Bits)
    requires ValidLog2Base(k) && Packed(buf, k, bytePos, bitPos, bits)
    ensures var n := if bitPos > 0 then bytePos + 1 else bytePos;
            n <= |buf| && buf[..n] == Groups(bits + Falses(Fill(|bits|, k)), k)
  {
    FillIs(bytePos, bitPos, k);
    hide Fill;
    if bitPos > 0 {
      OpenCharacter(buf, k, bytePos, bitPos, bits);
    } else {
      hide Groups, Num;
      assert bits + Falses(0) == bits;
    }
  }

  lemma OpenCharacter(buf: seq<byte>, k: nat, bytePos: nat, bitPos: nat, bits: Bits)
    requires Packed(buf, k, bytePos, bitPos, bits) && bitPos > 0
    ensures bytePos + 1 <= |buf| && bitPos < k && buf[..bytePos + 1] == Groups(bits + Falses(k - bitPos), k)
  {
    hide Groups, Num, Pow2;
    PartSize(bits, k, bytePos, bitPos);
    NumShifted(bits[bytePos * k..], k - bitPos);
    GroupsAfter(bits, k, bytePos, bitPos, Falses(k - bitPos));
    assert buf[..bytePos + 1] == buf[..bytePos] + [buf[bytePos]];
  }

  lemma FillIs(n: nat, part: nat, k: nat)
    requires ValidLog2Base(k) && part < k
    ensures Fill(n * k + part, k) == if part == 0 then 0 else k - part
  {
    ToMultipleIs(n, part, k);
  }

  /** Replaces the first n values by their characters. */
  method Translate(outBuf: array<byte>, n: nat, alphabet: seq<byte>)
    requires n <= outBuf.Length && forall i :: 0 <= i < n ==> outBuf[i] < |alphabet|
    modifies outBuf
    ensures outBuf[..n] == Chars(alphabet, old(outBuf[..n]))
  {
    for i := 0 to n
      invariant forall j :: 0 <= j < i ==> outBuf[j] == alphabet[old(outBuf[j])]
      invariant forall j :: i <= j < n ==> outBuf[j] == old(outBuf[j])
    {
      outBuf[i] := alphabet[outBuf[i]];
    }
  }

  lemma ByteBitsSnoc(s: seq<byte>, b: byte)
    ensures ByteBits(s + [b]) == ByteBits(s) + BitsOf(b, 8)
  {
    ByteBitsConcat(s, [b]);
    assert ByteBits([b]) == BitsOf(b, 8) + ByteBits([]);
  }

  lemma CharsConcat(alphabet: seq<byte>, a: seq<nat>, b: seq<nat>)
    requires forall i :: 0 <= i < |a| ==> a[i] < |alphabet|
    requires forall i :: 0 <= i < |b| ==> b[i] < |alphabet|
    ensures forall i :: 0 <= i < |a + b| ==> (a + b)[i] < |alphabet|
    ensures Chars(alphabet, a + b) == Chars(alphabet, a) + Chars(alphabet, b)
  {
  }

  /** The characters of some whole blocks and what follows them. */
  lemma GroupsOfBlocks(done: seq<byte>, bits: Bits, k: nat, blocks: nat)
    requires ValidLog2Base(k) && 8 * |done| == blocks * BlockBits(k)
    ensures Groups(ByteBits(done) + bits, k) == Groups(ByteBits(done), k) + Groups(bits, k)
    ensures |Groups(ByteBits(done), k)| == blocks * (BlockBits(k) / k)
  {
    hide Groups, ByteBits;
    var size := BlockBits(k) / k;
    assert BlockBits(k) == size * k;
    MulAssoc(blocks, size, k);
    GroupsConcat(ByteBits(done), bits, k, blocks * size);
  }

  /** A completed block joins what has been sent. */
  lemma SendBlock(alphabet: seq<byte>, k: nat, h: History, block: seq<byte>)
    requires ValidLog2Base(k) && Pow2(k) <= |alphabet| && 8 * |h.done| == h.blocks * BlockBits(k)
    ensures Chars(alphabet, Groups(ByteBits(h.done + block), k)) ==
            Chars(alphabet, Groups(ByteBits(h.done), k)) + Chars(alphabet, Groups(ByteBits(block), k))
  {
    hide Groups, ByteBits, BlockBits, Pow2;
    ByteBitsConcat(h.done, block);
    GroupsOfBlocks(h.done, ByteBits(block), k, h.blocks);
    CharsConcat(alphabet, Groups(ByteBits(h.done), k), Groups(ByteBits(block), k));
  }

  /** One round of the outer loop of Put2. */
  method PutByte(outBuf: array<byte>, alphabet: seq<byte>, k: nat, bytePos: nat, bitPos: nat, b: byte, ghost h: History)
    returns (bytePos': nat, bitPos': nat, out: seq<byte>, ghost h': History)
    requires State(outBuf[..], k, alphabet, bytePos, bitPos, h)
    modifies outBuf
    ensures State(outBuf[..], k, alphabet, bytePos', bitPos', h')
    ensures h'.Taken() == h.Taken() + [b] && h'.sent == h.sent + out
  {
    hide Groups, ByteBits, BlockBits, Pow2, Packed, BitsOf, Chars;
    if bytePos == 0 {
      Clear(outBuf);
      PackedEmpty(outBuf[..], k);
      NoBits();
    }
    RoomForByte(k, |h.waiting|);
    bytePos', bitPos' := PackByte(outBuf, k, bytePos, bitPos, b, ByteBits(h.waiting));
    ghost var waiting := h.waiting + [b];
    ByteBitsSnoc(h.waiting, b);
    BlockFull(outBuf[..], k, bytePos', bitPos', ByteBits(waiting));
    if bytePos' == outBuf.Length {
      assert outBuf[..bytePos'] == outBuf[..];
      Translate(outBuf, bytePos', alphabet);
      out := outBuf[..bytePos'];
      bytePos', bitPos' := 0, 0;
      SendBlock(alphabet, k, h, waiting);
      h' := History(h.done + waiting, [], h.blocks + 1, h.sent + out);
      MulDistributes(h.blocks, 1, BlockBits(k));
    } else {
      out := [];
      h' := h.(waiting := waiting);
      assert h'.sent == h.sent + [];
    }
  }

  lemma NoBits()
    ensures ByteBits([]) == []
  {
  }

  lemma RoomForByte(k: nat, n: nat)
    requires ValidLog2Base(k) && 8 * n < BlockBits(k)
    ensures 8 * n + 8 <= BlockBits(k)
  {
  }

  // ---------- The end of a message ----------

  lemma FillAfterBlocks(n: nat, more: nat, k: nat)
    requires ValidLog2Base(k)
    ensures Fill(n * k + more, k) == Fill(more, k)
  {
    DivModLaw(more, k);
    MulDistributes(n, more / k, k);
    FillIs(n + more / k, more % k, k);
    FillIs(more / k, more % k, k);
  }

  /** A message's values, its first blocks taken apart from the rest. */
  lemma ValuesOfBlocks(k: nat, done: seq<byte>, rest: seq<byte>, blocks: nat)
    requires ValidLog2Base(k) && 8 * |done| == blocks * BlockBits(k)
    ensures Values(k, done + rest) == Groups(ByteBits(done), k) + Values(k, rest)
  {
    hide Groups, ByteBits, Pow2;
    var size, tail := BlockBits(k) / k, ByteBits(rest);
    assert BlockBits(k) == size * k;
    MulAssoc(blocks, size, k);
    FillAfterBlocks(blocks * size, |tail|, k);
    hide Fill, BlockBits;
    ByteBitsConcat(done, rest);
    var fill := Falses(Fill(|tail|, k));
    assert ByteBits(done) + tail + fill == ByteBits(done) + (tail + fill);
    GroupsOfBlocks(done, tail + fill, k, blocks);
  }

  lemma PadIs(blocks: nat, n: nat, k: nat)
    requires ValidLog2Base(k) && n <= BlockBits(k) / k
    ensures var size := BlockBits(k) / k;
            size > 0 && PadCount(blocks * size + n, k) == if n == 0 then 0 else size - n
  {
    var size := BlockBits(k) / k;
    hide BlockBits, ToMultiple;
    if n == size {
      MulDistributes(blocks, 1, size);
      ToMultipleIs(blocks + 1, 0, size);
    } else {
      ToMultipleIs(blocks, n, size);
    }
  }

  /**
   What is still to be sent when the message ends: the characters waiting and, if there are any, padding up to a block.
   */
  lemma EncodingEnds(alphabet: seq<byte>, k: nat, padding: int, h: History)
    requires ValidLog2Base(k) && Pow2(k) <= |alphabet| && -1 <= padding < 256
    requires 8 * |h.done| == h.blocks * BlockBits(k)
    requires h.sent == Chars(alphabet, Groups(ByteBits(h.done), k))
    requires |Values(k, h.waiting)| <= BlockBits(k) / k
    ensures var cs, size := Chars(alphabet, Values(k, h.waiting)), BlockBits(k) / k;
            EncodeMessage(alphabet, k, padding, h.Taken()) ==
            h.sent + cs + if padding == -1 || cs == [] then [] else Repeat(padding, size - |cs|)
  {
    hide Groups, ByteBits, Pow2, Values, BlockBits, PadCount;
    ValuesOfBlocks(k, h.done, h.waiting, h.blocks);
    GroupsOfBlocks(h.done, [], k, h.blocks);
    CharsConcat(alphabet, Groups(ByteBits(h.done), k), Values(k, h.waiting));
    PadIs(h.blocks, |Values(k, h.waiting)|, k);
  }

  /** The message-end part of Put2. */
  method Finish(outBuf: array<byte>, alphabet: seq<byte>, k: nat, padding: int, bytePos: nat, bitPos: nat,
                ghost h: History)
    returns (out: seq<byte>)
    requires State(outBuf[..], k, alphabet, bytePos, bitPos, h) && -1 <= padding < 256
    modifies outBuf
    ensures h.sent + out == EncodeMessage(alphabet, k, padding, h.Taken())
  {
    hide Groups, ByteBits, Pow2, Packed, Fill, EncodeMessage, Chars;
    var n := if bitPos > 0 then bytePos + 1 else bytePos;
    Leftover(outBuf[..], k, alphabet, bytePos, bitPos, h);
    hide BlockBits, Values, State;
    EncodingEnds(alphabet, k, padding, h);
    assert outBuf[..n] == Values(k, h.waiting);
    Translate(outBuf, n, alphabet);
    ghost var cs := outBuf[..n];
    if padding != -1 && n > 0 {
      forall i | n <= i < outBuf.Length {
        outBuf[i] := padding;
      }
      out := outBuf[..];
      assert out == cs + Repeat(padding, outBuf.Length - n);
      assert h.sent + cs + Repeat(padding, outBuf.Length - n) == h.sent + out;
    } else {
      out := outBuf[..n];
      assert h.sent + cs + [] == h.sent + out;
    }
  }

  /** The values still in the buffer when the message ends. */
  lemma Leftover(buf: seq<byte>, k: nat, alphabet: seq<byte>, bytePos: nat, bitPos: nat, h: History)
    requires State(buf, k, alphabet, bytePos, bitPos, h)
    ensures var n := if bitPos > 0 then bytePos + 1 else bytePos;
            n <= |buf| && buf[..n] == Values(k, h.waiting)
    ensures |buf| == BlockBits(k) / k
  {
    hide Groups, ByteBits, Pow2, Packed, Chars;
    DivModUnique(BlockBits(k), k, |buf|, 0);
    if h.waiting == [] {
      NoBits();
      NoValues(k);
    } else {
      LastCharacters(buf, k, bytePos, bitPos, ByteBits(h.waiting));
    }
  }

  lemma NoValues(k: nat)
    requires ValidLog2Base(k)
    ensures Values(k, []) == []
  {
    assert ByteBits([]) + Falses(0) == [];
  }

  // ---------- The filter ----------

  /** The initializer's search for the first multiple of 8 that k divides. */
  method OutputBlockSize(k: nat) returns (size: nat)
    requires ValidLog2Base(k)
    ensures size * k == BlockBits(k)
  {
    var i := 8;
    while i % k != 0
      invariant i % 8 == 0 && 8 <= i <= BlockBits(k)
      decreases BlockBits(k) - i
    {
      i := i + 8;
    }
    size := i / k;
  }

  class Encoder {
    const alphabet: seq<byte>
    const bitsPerChar: nat
    const padding: int
    const outBuf: array<byte>
    var bytePos: nat
    var bitPos: nat
    ghost var h: History

    ghost predicate Valid()
      reads this, outBuf
    {
      -1 <= padding < 256 && State(outBuf[..], bitsPerChar, alphabet, bytePos, bitPos, h)
    }

    constructor (alphabet: seq<byte>, k: nat, padding: int)
      requires ValidLog2Base(k) && Pow2(k) <= |alphabet| && -1 <= padding < 256
      ensures Valid() && fresh(outBuf) && h == History([], [], 0, [])
      ensures this.alphabet == alphabet && bitsPerChar == k && this.padding == padding
    {
      this.alphabet, bitsPerChar, this.padding := alphabet, k, padding;
      bytePos, bitPos, h := 0, 0, History([], [], 0, []);
      var size := OutputBlockSize(k);
      outBuf := new byte[size];
    }

    /** However a message is cut into calls, what has been sent at its end is its encoding. */
    method Put2(input: seq<byte>, messageEnd: bool) returns (out: seq<byte>)
      requires Valid()
      modifies this, outBuf
      ensures Valid()
      ensures !messageEnd ==> h.Taken() == old(h.Taken()) + input && h.sent == old(h.sent) + out
      ensures messageEnd ==> old(h.sent) + out == EncodeMessage(alphabet, bitsPerChar, padding, old(h.Taken()) + input)
      ensures messageEnd ==> h == History([], [], 0, [])
    {
      hide State, EncodeMessage, ValidLog2Base;
      out := [];
      for i := 0 to |input|
        invariant Valid()
        invariant h.Taken() == old(h.Taken()) + input[..i] && h.sent == old(h.sent) + out
      {
        var more;
        bytePos, bitPos, more, h := PutByte(outBuf, alphabet, bitsPerChar, bytePos, bitPos, input[i], h);
        assert input[..i + 1] == input[..i] + [input[i]];
        out := out + more;
      }
      assert input[..|input|] == input;
      if messageEnd {
        var last := Finish(outBuf, alphabet, bitsPerChar, padding, bytePos, bitPos, h);
        assert old(h.sent) + (out + last) == h.sent + last;
        StateEmpty(old(outBuf[..]), outBuf[..], bitsPerChar, alphabet, old(bytePos), old(bitPos), old(h));
        out := out + last;
        bytePos, bitPos, h := 0, 0, History([], [], 0, []);
      }
    }
  }

  lemma StateEmpty(buf: seq<byte>, buf': seq<byte>, k: nat, alphabet: seq<byte>, bytePos: nat, bitPos: nat, h: History)
    requires State(buf, k, alphabet, bytePos, bitPos, h) && |buf'| == |buf|
    ensures State(buf', k, alphabet, 0, 0, History([], [], 0, []))
  {
  }

  /** IsolatedInitialize: the number of bits per character is checked; padding is used only when wanted. */
  method Initialize(alphabet: seq<byte>, log2Base: int, paddingByte: int, pad: bool) returns (e: Encoder?)
    requires -1 <= paddingByte < 256 && (ValidLog2Base(log2Base) ==> Pow2(log2Base) <= |alphabet|)
    ensures e != null <==> ValidLog2Base(log2Base)
    ensures e != null ==> fresh(e) && fresh(e.outBuf) && e.Valid() && e.h == History([], [], 0, [])
    ensures e != null ==> e.alphabet == alphabet && e.bitsPerChar == log2Base
    ensures e != null ==> e.padding == if pad then paddingByte else -1
  {
    if log2Base <= 0 || log2Base >= 8 {
      return null;
    }
    var padding := if paddingByte != -1 && pad then paddingByte else -1;
    e := new Encoder(alphabet, log2Base, padding);
  }
}
