/**
 A buffer of cells, each taking w bits, being filled bit by bit from the top: the state both base-2^k filters keep.
 */
module BitPacking {
  import opened PowersOfTwo
  import opened BitStrings

  predicate ValidLog2Base(k: int) {
    1 <= k <= 7
  }

  /** The least common multiple of 8 and k. */
  function BlockBits(k: nat): (n: nat)
    requires ValidLog2Base(k)
    ensures n > 0 && n % k == 0 && n % 8 == 0
  {
    if k == 3 || k == 6 then 24 else if k == 5 then 40 else if k == 7 then 56 else 8
  }

  /** The bits packed so far: whole cells, then part of a cell, then cells still zero. */
  ghost predicate Packed(buf: seq<byte>, w: nat, bytePos: nat, bitPos: nat, bits: Bits) {
    && 1 <= w <= 8 && bitPos < w && bytePos <= |buf|
    && |bits| == bytePos * w + bitPos
    && buf[..bytePos] == Groups(bits, w)
    && (bytePos == |buf| ==> bitPos == 0)
    && (bytePos < |buf| ==> buf[bytePos] == Num(bits[bytePos * w..]) * Pow2(w - bitPos))
    && (forall i :: bytePos < i < |buf| ==> buf[i] == 0)
  }

  lemma PackedEmpty(buf: seq<byte>, w: nat)
    requires 1 <= w <= 8 && forall i :: 0 <= i < |buf| ==> buf[i] == 0
    ensures Packed(buf, w, 0, 0, [])
  {
  }

  lemma PowUpToEight(n: nat)
    requires n <= 8
    ensures Pow2(n) <= 256
  {
    PowEight();
    Pow2Monotone(n, 8);
  }

  /** What or-ing new bits, shifted to where the cell is free, makes of the cell. */
  function CellAfter(cell: nat, w: nat, bitPos: nat, new': Bits): nat
    requires bitPos + |new'| <= w
  {
    Or(cell, Num(new') * Pow2(w - bitPos - |new'|), 8)
  }

  lemma CellGains(part: Bits, w: nat, new': Bits)
    requires 1 <= w <= 8 && |part| < w && |part| + |new'| <= w
    ensures CellAfter(Num(part) * Pow2(w - |part|), w, |part|, new') == Num(part + new') * Pow2(w - |part| - |new'|)
    ensures CellAfter(Num(part) * Pow2(w - |part|), w, |part|, new') < 256
  {
    hide Num, Pow2, Or;
    var t, s := w - |part|, w - |part| - |new'|;
    var x := Num(new') * Pow2(s);
    NumBound(new');
    NumBound(part);
    NumBound(part + new');
    ShiftBound(Num(new'), |new'|, s);
    ShiftBound(Num(part), |part|, t);
    ShiftBound(Num(part + new'), |part + new'|, s);
    PowUpToEight(w);
    PowEight();
    OrDisjoint(Num(part), x, t, 8);
    NumConcat(part, new');
    Pow2Add(|new'|, s);
    MulDistributes(Num(part) * Pow2(|new'|), Num(new'), Pow2(s));
    MulAssoc(Num(part), Pow2(|new'|), Pow2(s));
  }

  lemma ShiftBound(n: nat, a: nat, b: nat)
    requires n < Pow2(a)
    ensures n * Pow2(b) < Pow2(a + b)
  {
    Pow2Add(a, b);
    MulMonotone(n + 1, Pow2(a), Pow2(b));
    MulDistributes(n, 1, Pow2(b));
  }

  lemma PartSize(bits: Bits, w: nat, bytePos: nat, bitPos: nat)
    requires |bits| == bytePos * w + bitPos
    ensures bytePos * w <= |bits| && |bits[bytePos * w..]| == bitPos
  {
  }

  /** Bits that fit the open cell are packed by one or; a cell that becomes full is left behind. */
  lemma Append(buf: seq<byte>, w: nat, bytePos: nat, bitPos: nat, bits: Bits, new': Bits)
    requires Packed(buf, w, bytePos, bitPos, bits) && bytePos < |buf| && bitPos + |new'| <= w
    ensures CellAfter(buf[bytePos], w, bitPos, new') < 256
    ensures var buf' := buf[bytePos := CellAfter(buf[bytePos], w, bitPos, new')];
            if bitPos + |new'| == w then Packed(buf', w, bytePos + 1, 0, bits + new')
            else Packed(buf', w, bytePos, bitPos + |new'|, bits + new')
  {
    if bitPos + |new'| == w {
      AppendFull(buf, w, bytePos, bitPos, bits, new');
    } else {
      AppendPart(buf, w, bytePos, bitPos, bits, new');
    }
  }

  lemma AppendFull(buf: seq<byte>, w: nat, bytePos: nat, bitPos: nat, bits: Bits, new': Bits)
    requires Packed(buf, w, bytePos, bitPos, bits) && bytePos < |buf| && bitPos + |new'| == w
    ensures CellAfter(buf[bytePos], w, bitPos, new') < 256
    ensures Packed(buf[bytePos := CellAfter(buf[bytePos], w, bitPos, new')], w, bytePos + 1, 0, bits + new')
  {
    PartSize(bits, w, bytePos, bitPos);
    var done, part := bits[..bytePos * w], bits[bytePos * w..];
    CellGains(part, w, new');
    PowZero();
    hide CellAfter, Num, Pow2, Groups;
    var cell := CellAfter(buf[bytePos], w, bitPos, new');
    GroupsAfter(bits, w, bytePos, bitPos, new');
    MulDistributes(bytePos, 1, w);
    assert buf[bytePos := cell][..bytePos + 1] == buf[..bytePos] + [cell];
    AllPacked(bits + new', (bytePos + 1) * w);
  }

  lemma AppendPart(buf: seq<byte>, w: nat, bytePos: nat, bitPos: nat, bits: Bits, new': Bits)
    requires Packed(buf, w, bytePos, bitPos, bits) && bytePos < |buf| && bitPos + |new'| < w
    ensures CellAfter(buf[bytePos], w, bitPos, new') < 256
    ensures Packed(buf[bytePos := CellAfter(buf[bytePos], w, bitPos, new')], w, bytePos, bitPos + |new'|, bits + new')
  {
    PartSize(bits, w, bytePos, bitPos);
    var part := bits[bytePos * w..];
    CellGains(part, w, new');
    hide CellAfter, Num, Pow2, Groups;
    var cell := CellAfter(buf[bytePos], w, bitPos, new');
    GroupsAfter(bits, w, bytePos, bitPos, new');
    assert buf[bytePos := cell][..bytePos] == buf[..bytePos];
    SliceOfConcat(bits, new', bytePos * w);
  }

  lemma SliceOfConcat(a: Bits, b: Bits, n: nat)
    requires n <= |a|
    ensures (a + b)[n..] == a[n..] + b
  {
  }

  lemma GroupsAfter(bits: Bits, w: nat, n: nat, bitPos: nat, new': Bits)
    requires w > 0 && bitPos < w && |bits| == n * w + bitPos && bitPos + |new'| <= w
    ensures n * w <= |bits|
    ensures Groups(bits + new', w) ==
            Groups(bits, w) + if bitPos + |new'| == w then [Num(bits[n * w..] + new')] else []
  {
    hide *;
    PartSize(bits, w, n, bitPos);
    var done, part := bits[..n * w], bits[n * w..];
    Rejoin(bits, n * w, new');
    AppendGroups(done, part, new', w, n);
  }

  lemma Rejoin(bits: Bits, n: nat, more: Bits)
    requires n <= |bits|
    ensures bits[..n] + bits[n..] == bits && bits[..n] + bits[n..] + more == bits + more
  {
  }

  lemma PowZero()
    ensures Pow2(0) == 1
  {
  }

  lemma AllPacked(bits: Bits, n: nat)
    requires |bits| == n
    ensures bits[n..] == [] && Num(bits[n..]) == 0
  {
  }

  /** The whole groups after appending: one more exactly when the open cell fills up. */
  lemma AppendGroups(done: Bits, part: Bits, new': Bits, w: nat, n: nat)
    requires w > 0 && |done| == n * w && |part| < w && |part| + |new'| <= w
    ensures Groups(done + part + new', w) ==
            Groups(done + part, w) + if |part| + |new'| == w then [Num(part + new')] else []
  {
    hide Groups;
    var last := part + new';
    GroupsConcat(done, part, w, n);
    GroupsConcat(done, last, w, n);
    FewBits(part, w);
    FewBits(last, w);
    assert done + part + new' == done + last;
  }

  lemma FewBits(bits: Bits, w: nat)
    requires 0 < w && |bits| <= w
    ensures Groups(bits, w) == if |bits| == w then [Num(bits)] else []
  {
    if |bits| == w {
      assert bits[..w] == bits && bits[w..] == [];
    }
  }

  /** Every cell is complete exactly when the buffer has taken all the bits it can. */
  lemma BlockFull(buf: seq<byte>, k: nat, bytePos: nat, bitPos: nat, bits: Bits)
    requires k > 0 && Packed(buf, k, bytePos, bitPos, bits)
    ensures bytePos == |buf| <==> |bits| == |buf| * k
    ensures bytePos == |buf| ==> bitPos == 0 && buf == Groups(bits, k)
    ensures |bits| >= k ==> bytePos > 0
  {
    hide Groups, Num, Pow2;
    if bytePos < |buf| {
      MulMonotone(bytePos + 1, |buf|, k);
      MulDistributes(bytePos, 1, k);
    } else {
      assert buf[..bytePos] == buf;
    }
  }

  lemma Regroup(a: Bits, b: Bits, n: nat)
    requires n <= |b|
    ensures a + b == a + b[..n] + b[n..]
  {
  }

  method Clear(outBuf: array<byte>)
    modifies outBuf
    ensures forall i :: 0 <= i < outBuf.Length ==> outBuf[i] == 0
  {
    forall i | 0 <= i < outBuf.Length {
      outBuf[i] := 0;
    }
  }
}
