/**
 Camellia's round function in its two forms: the slow one with one small table and the fast one with four large ones.
 */
module CamelliaRound {
  import opened ByteBits
  import opened Words

  /** Half a block, or a 64-bit subkey: a high and a low word. */
  datatype Half = Half(h: Word, l: Word)

  function XorHalf(x: Half, y: Half): Half {
    Half(Xor(x.h, y.h), Xor(x.l, y.l))
  }

  lemma XorHalfTwice(x: Half, y: Half)
    ensures XorHalf(XorHalf(x, y), y) == x
  {
    XorTwice(x.h, y.h);
    XorTwice(x.l, y.l);
  }

  datatype Tables = Tables(s1: bv8 -> bv8, sp0: bv8 -> Word, sp1: bv8 -> Word, sp2: bv8 -> Word, sp3: bv8 -> Word)

  function RotByteL(x: bv8): bv8 {
    (x << 1) | (x >> 7)
  }

  function RotByteR(x: bv8): bv8 {
    (x >> 1) | (x << 7)
  }

  /**
   How the large tables are made from the small one: its value, rotated either way, or taken at the rotated argument.
   */
  ghost predicate Related(t: Tables) {
    && (forall x: bv8 :: t.sp0(x) == (var y := t.s1(x); Word(y, y, y, 0)))
    && (forall x: bv8 :: t.sp1(x) == (var y := RotByteL(t.s1(x)); Word(0, y, y, y)))
    && (forall x: bv8 :: t.sp2(x) == (var y := RotByteR(t.s1(x)); Word(y, 0, y, y)))
    && (forall x: bv8 :: t.sp3(x) == (var y := t.s1(RotByteL(x)); Word(y, y, 0, y)))
  }

  /** SLOW_ROUND: what is exclusive-ored into the other half. */
  function SlowRound(t: Tables, l: Half, k: Half): Half {
    var r0, l0 := Xor(l.l, k.l), Xor(l.h, k.h);
    var zr := Word(RotByteR(t.s1(r0.b2)), t.s1(RotByteL(r0.b1)), t.s1(r0.b0), RotByteL(t.s1(r0.b3)));
    var zl := Word(t.s1(l0.b3), RotByteL(t.s1(l0.b2)), RotByteR(t.s1(l0.b1)), t.s1(RotByteL(l0.b0)));
    SlowMix(zl, zr)
  }

  function SlowMix(zl: Word, zr: Word): Half {
    var zl1 := Xor(zl, zr);
    var zr1 := Xor(zl1, RotL8(zr));
    var zl2 := Xor(zr1, RotR8(zl1));
    Half(Xor(RotL16(zr1), zl2), RotL8(zl2))
  }

  /** ROUND. */
  function FastRound(t: Tables, l: Half, k: Half): Half {
    var th, tl := Xor(l.h, k.h), Xor(l.l, k.l);
    var d := Xor(Xor(Xor(t.sp0(tl.b0), t.sp1(tl.b3)), t.sp2(tl.b2)), t.sp3(tl.b1));
    var u := Xor(Xor(Xor(t.sp0(th.b3), t.sp1(th.b2)), t.sp2(th.b1)), t.sp3(th.b0));
    var du := Xor(d, u);
    Half(du, Xor(du, RotR8(u)))
  }

  function Spread(y1: bv8, y2: bv8, y3: bv8, y4: bv8): Word {
    Xor(Xor(Xor(Word(y1, y1, y1, 0), Word(0, y2, y2, y2)), Word(y3, 0, y3, y3)), Word(y4, y4, 0, y4))
  }

  // ---------- The mixing, one bit of every byte at a time ----------

  /** Bit j of each byte of a word. */
  datatype Slice = Slice(b3: bool, b2: bool, b1: bool, b0: bool)

  function SliceOf(x: Word, j: nat): Slice
    requires j < 8
  {
    Slice(ByteBit(x.b3, j), ByteBit(x.b2, j), ByteBit(x.b1, j), ByteBit(x.b0, j))
  }

  function XorSlice(x: Slice, y: Slice): Slice {
    Slice(x.b3 != y.b3, x.b2 != y.b2, x.b1 != y.b1, x.b0 != y.b0)
  }

  lemma SliceOfXor(x: Word, y: Word, j: nat)
    requires j < 8
    ensures SliceOf(Xor(x, y), j) == XorSlice(SliceOf(x, j), SliceOf(y, j))
  {
    hide ByteBit, XorByte;
    XorByteBit(x.b3, y.b3, j);
    XorByteBit(x.b2, y.b2, j);
    XorByteBit(x.b1, y.b1, j);
    XorByteBit(x.b0, y.b0, j);
  }

  lemma SliceOfRotations(x: Word, j: nat)
    requires j < 8
    ensures var s := SliceOf(x, j);
            && SliceOf(RotL8(x), j) == Slice(s.b2, s.b1, s.b0, s.b3)
            && SliceOf(RotR8(x), j) == Slice(s.b0, s.b3, s.b2, s.b1)
            && SliceOf(RotL16(x), j) == Slice(s.b1, s.b0, s.b3, s.b2)
  {
    hide ByteBit;
  }

  lemma SameSlices(x: Word, y: Word)
    requires forall j :: 0 <= j < 8 ==> SliceOf(x, j) == SliceOf(y, j)
    ensures x == y
  {
    hide ByteBit;
    forall j | 0 <= j < 8 ensures ByteBit(x.b3, j) == ByteBit(y.b3, j) && ByteBit(x.b2, j) == ByteBit(y.b2, j)
                               && ByteBit(x.b1, j) == ByteBit(y.b1, j) && ByteBit(x.b0, j) == ByteBit(y.b0, j) {
      assert SliceOf(x, j) == SliceOf(y, j);
    }
    SameBits(x.b3, y.b3);
    SameBits(x.b2, y.b2);
    SameBits(x.b1, y.b1);
    SameBits(x.b0, y.b0);
  }

  /** A slice of what the slow round makes of slices. */
  lemma SlowSlice(zl: Word, zr: Word, j: nat)
    requires j < 8
    ensures var l, r := SliceOf(zl, j), SliceOf(zr, j);
            var l1 := XorSlice(l, r);
            var r1 := XorSlice(l1, Slice(r.b2, r.b1, r.b0, r.b3));
            var l2 := XorSlice(r1, Slice(l1.b0, l1.b3, l1.b2, l1.b1));
            && SliceOf(SlowMix(zl, zr).h, j) == XorSlice(Slice(r1.b1, r1.b0, r1.b3, r1.b2), l2)
            && SliceOf(SlowMix(zl, zr).l, j) == Slice(l2.b2, l2.b1, l2.b0, l2.b3)
  {
    var zl1 := Xor(zl, zr);
    var zr1 := Xor(zl1, RotL8(zr));
    var zl2 := Xor(zr1, RotR8(zl1));
    hide SliceOf, Xor, RotL8, RotR8, RotL16;
    SliceOfXor(zl, zr, j);
    SliceOfRotations(zr, j);
    SliceOfXor(zl1, RotL8(zr), j);
    SliceOfRotations(zl1, j);
    SliceOfXor(zr1, RotR8(zl1), j);
    SliceOfRotations(zr1, j);
    SliceOfXor(RotL16(zr1), zl2, j);
    SliceOfRotations(zl2, j);
  }

  predicate Odd(x: bool, y: bool, z: bool) {
    (x != y) != z
  }

  lemma SpreadSlice(y1: bv8, y2: bv8, y3: bv8, y4: bv8, j: nat)
    requires j < 8
    ensures var s := SliceOf(Word(y1, y2, y3, y4), j);
            SliceOf(Spread(y1, y2, y3, y4), j) ==
            SpreadBits(s)
  {
    hide ByteBit, Xor;
    var w1, w2, w3, w4 := Word(y1, y1, y1, 0), Word(0, y2, y2, y2), Word(y3, 0, y3, y3), Word(y4, y4, 0, y4);
    NoBits(j);
    SliceOfXor(w1, w2, j);
    SliceOfXor(Xor(w1, w2), w3, j);
    SliceOfXor(Xor(Xor(w1, w2), w3), w4, j);
  }

  function SpreadBits(s: Slice): Slice {
    Slice(Odd(s.b3, s.b1, s.b0), Odd(s.b3, s.b2, s.b0), Odd(s.b3, s.b2, s.b1), Odd(s.b2, s.b1, s.b0))
  }

  /** The identity itself, for single bits a of the left and b of the right word. */
  lemma MixOfBits(a: Slice, b: Slice)
    ensures var r := Slice(b.b1, b.b0, b.b3, b.b2);
            var l1 := XorSlice(a, r);
            var r1 := XorSlice(l1, Slice(r.b2, r.b1, r.b0, r.b3));
            var l2 := XorSlice(r1, Slice(l1.b0, l1.b3, l1.b2, l1.b1));
            var u := SpreadBits(a);
            var du := XorSlice(SpreadBits(b), u);
            && XorSlice(Slice(r1.b1, r1.b0, r1.b3, r1.b2), l2) == du
            && Slice(l2.b2, l2.b1, l2.b0, l2.b3) == XorSlice(du, Slice(u.b0, u.b3, u.b2, u.b1))
  {
  }

  lemma SliceOfWord(b1: bv8, b2: bv8, b3: bv8, b4: bv8, j: nat)
    requires j < 8
    ensures var b := SliceOf(Word(b1, b2, b3, b4), j); SliceOf(Word(b3, b4, b1, b2), j) == Slice(b.b1, b.b0, b.b3, b.b2)
  {
    hide ByteBit;
  }

  lemma MixSlice(a1: bv8, a2: bv8, a3: bv8, a4: bv8, b1: bv8, b2: bv8, b3: bv8, b4: bv8, j: nat)
    requires j < 8
    ensures var d, u := Spread(b1, b2, b3, b4), Spread(a1, a2, a3, a4);
            var slow := SlowMix(Word(a1, a2, a3, a4), Word(b3, b4, b1, b2));
            SliceOf(slow.h, j) == SliceOf(Xor(d, u), j) && SliceOf(slow.l, j) == SliceOf(Xor(Xor(d, u), RotR8(u)), j)
  {
    var d, u := Spread(b1, b2, b3, b4), Spread(a1, a2, a3, a4);
    hide SlowMix, Spread, Xor, RotR8, SliceOf, SpreadBits, XorSlice;
    MixOfBits(SliceOf(Word(a1, a2, a3, a4), j), SliceOf(Word(b1, b2, b3, b4), j));
    SliceOfWord(b1, b2, b3, b4, j);
    SlowSlice(Word(a1, a2, a3, a4), Word(b3, b4, b1, b2), j);
    SpreadSlice(a1, a2, a3, a4, j);
    SpreadSlice(b1, b2, b3, b4, j);
    SliceOfXor(d, u, j);
    SliceOfRotations(u, j);
    SliceOfXor(Xor(d, u), RotR8(u), j);
  }

  /** The mixing steps of the slow round spread the eight table values just as the large tables do. */
  lemma MixIsSpread(a1: bv8, a2: bv8, a3: bv8, a4: bv8, b1: bv8, b2: bv8, b3: bv8, b4: bv8)
    ensures var d, u := Spread(b1, b2, b3, b4), Spread(a1, a2, a3, a4);
            SlowMix(Word(a1, a2, a3, a4), Word(b3, b4, b1, b2)) == Half(Xor(d, u), Xor(Xor(d, u), RotR8(u)))
  {
    hide SlowMix, Spread, Xor, SliceOf, RotR8;
    var d, u := Spread(b1, b2, b3, b4), Spread(a1, a2, a3, a4);
    var slow := SlowMix(Word(a1, a2, a3, a4), Word(b3, b4, b1, b2));
    forall j | 0 <= j < 8
      ensures SliceOf(slow.h, j) == SliceOf(Xor(d, u), j) && SliceOf(slow.l, j) == SliceOf(Xor(Xor(d, u), RotR8(u)), j)
    {
      MixSlice(a1, a2, a3, a4, b1, b2, b3, b4, j);
    }
    SameSlices(slow.h, Xor(d, u));
    SameSlices(slow.l, Xor(Xor(d, u), RotR8(u)));
  }

  /** Both rounds give the same result, whenever the large tables are made from the small one. */
  lemma SlowIsFast(t: Tables, l: Half, k: Half)
    requires Related(t)
    ensures SlowRound(t, l, k) == FastRound(t, l, k)
  {
    var r0, l0 := Xor(l.l, k.l), Xor(l.h, k.h);
    var a1, a2, a3, a4 := t.s1(l0.b3), RotByteL(t.s1(l0.b2)), RotByteR(t.s1(l0.b1)), t.s1(RotByteL(l0.b0));
    var b1, b2, b3, b4 := t.s1(r0.b0), RotByteL(t.s1(r0.b3)), RotByteR(t.s1(r0.b2)), t.s1(RotByteL(r0.b1));
    hide XorByte, Xor, RotByteL, RotByteR, SlowMix;
    MixIsSpread(a1, a2, a3, a4, b1, b2, b3, b4);
    assert Spread(b1, b2, b3, b4) == Xor(Xor(Xor(t.sp0(r0.b0), t.sp1(r0.b3)), t.sp2(r0.b2)), t.sp3(r0.b1));
    assert Spread(a1, a2, a3, a4) == Xor(Xor(Xor(t.sp0(l0.b3), t.sp1(l0.b2)), t.sp2(l0.b1)), t.sp3(l0.b0));
  }
}
