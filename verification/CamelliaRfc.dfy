/** Camellia as RFC 3713 writes it, and that the code computes it. */
module CamelliaRfc {
  import opened ByteBits
  import opened Words
  import opened CamelliaRound
  import opened CamelliaKeys
  import opened Camellia

  // ---------- The words of the RFC ----------

  /** Rotations of bytes and words are rotations of their bits; and, or and exclusive or are taken bit by bit. */
  lemma ByteRotations(x: bv8)
    ensures ByteToBits(RotByteL(x)) == Rotated(ByteToBits(x), 1)
    ensures ByteToBits(RotByteR(x)) == Rotated(ByteToBits(x), 7)
  {
    LeftIsShift(x);
    ShiftByteBits(x, x);
    RightThenLeft(x);
    LeftIsShift(RotByteR(x));
    ShiftByteBits(RotByteR(x), RotByteR(x));
    hide ByteToBits, RotByteL, RotByteR, ShiftByte;
    var y := ByteToBits(RotByteR(x));
    assert ByteToBits(x) == y[1..] + y[..1];
  }

  lemma LeftIsShift(x: bv8)
    ensures RotByteL(x) == ShiftByte(x, x)
  {
  }

  lemma RightThenLeft(x: bv8)
    ensures RotByteL(RotByteR(x)) == x
  {
  }

  lemma ShiftByteBits(x: bv8, below: bv8)
    ensures ByteToBits(ShiftByte(x, below)) == ByteToBits(x)[1..] + ByteToBits(below)[..1]
  {
  }

  lemma WordRotates(x: Word)
    ensures WordToBits(RotL1(x)) == Rotated(WordToBits(x), 1)
  {
    ShiftByteBits(x.b3, x.b2);
    ShiftByteBits(x.b2, x.b1);
    ShiftByteBits(x.b1, x.b0);
    ShiftByteBits(x.b0, x.b3);
    hide ByteToBits, ShiftByte;
  }

  lemma ByteLogic(x: bv8, y: bv8, j: nat)
    requires j < 8
    ensures ByteToBits(AndByte(x, y))[j] <==> ByteToBits(x)[j] && ByteToBits(y)[j]
    ensures ByteToBits(OrByte(x, y))[j] <==> ByteToBits(x)[j] || ByteToBits(y)[j]
    ensures ByteToBits(XorByte(x, y))[j] <==> ByteToBits(x)[j] != ByteToBits(y)[j]
  {
    hide ByteBit, XorByte, AndByte, OrByte;
    AndByteBit(x, y, 7 - j);
    OrByteBit(x, y, 7 - j);
    XorByteBit(x, y, 7 - j);
  }

  /** Which byte of a word bit i is in. */
  function ByteAt(x: Word, i: nat): bv8
    requires i < 32
  {
    if i < 8 then x.b3 else if i < 16 then x.b2 else if i < 24 then x.b1 else x.b0
  }

  lemma WordBitAt(x: Word, i: nat)
    requires i < 32
    ensures WordToBits(x)[i] == ByteToBits(ByteAt(x, i))[i % 8]
  {
    hide ByteToBits;
  }

  lemma WordLogic(x: Word, y: Word, i: nat)
    requires i < 32
    ensures WordToBits(And(x, y))[i] <==> WordToBits(x)[i] && WordToBits(y)[i]
    ensures WordToBits(Or(x, y))[i] <==> WordToBits(x)[i] || WordToBits(y)[i]
    ensures WordToBits(Xor(x, y))[i] <==> WordToBits(x)[i] != WordToBits(y)[i]
  {
    hide *;
    ByteLogic(ByteAt(x, i), ByteAt(y, i), i % 8);
    LogicAt(x, y, i);
    WordBitAt(x, i);
    WordBitAt(y, i);
    WordBitAt(And(x, y), i);
    WordBitAt(Or(x, y), i);
    WordBitAt(Xor(x, y), i);
  }

  lemma LogicAt(x: Word, y: Word, i: nat)
    requires i < 32
    ensures ByteAt(And(x, y), i) == AndByte(ByteAt(x, i), ByteAt(y, i))
    ensures ByteAt(Or(x, y), i) == OrByte(ByteAt(x, i), ByteAt(y, i))
    ensures ByteAt(Xor(x, y), i) == XorByte(ByteAt(x, i), ByteAt(y, i))
  {
    hide AndByte, OrByte, XorByte;
  }

  // ---------- The round function (section 2.4) ----------

  function Sum5(a: bv8, b: bv8, c: bv8, d: bv8, e: bv8): bv8 {
    a ^ b ^ c ^ d ^ e
  }

  function Sum6(a: bv8, b: bv8, c: bv8, d: bv8, e: bv8, f: bv8): bv8 {
    a ^ b ^ c ^ d ^ e ^ f
  }

  /** The linear layer that mixes the eight bytes. */
  function P(t1: bv8, t2: bv8, t3: bv8, t4: bv8, t5: bv8, t6: bv8, t7: bv8, t8: bv8): Half {
    Half(Word(Sum6(t1, t3, t4, t6, t7, t8), Sum6(t1, t2, t4, t5, t7, t8),
              Sum6(t1, t2, t3, t5, t6, t8), Sum6(t2, t3, t4, t5, t6, t7)),
         Word(Sum5(t1, t2, t6, t7, t8), Sum5(t2, t3, t5, t7, t8),
              Sum5(t3, t4, t5, t6, t8), Sum5(t1, t4, t5, t6, t7)))
  }

  /** F: eight lookups in four S-boxes, of which three are made from the first, and the linear layer. */
  function F(s1: bv8 -> bv8, x: Half, k: Half): Half {
    var sbox2 := (b: bv8) => RotByteL(s1(b));
    var sbox3 := (b: bv8) => RotByteR(s1(b));
    var sbox4 := (b: bv8) => s1(RotByteL(b));
    var z := XorHalf(x, k);
    P(s1(z.h.b3), sbox2(z.h.b2), sbox3(z.h.b1), sbox4(z.h.b0), sbox2(z.l.b3), sbox3(z.l.b2), sbox4(z.l.b1), s1(z.l.b0))
  }

  function Sum3(a: bv8, b: bv8, c: bv8): bv8 {
    a ^ b ^ c
  }

  lemma SumWithZero(a: bv8, b: bv8, c: bv8)
    ensures XorByte(XorByte(XorByte(a, 0), b), c) == Sum3(a, b, c)
    ensures XorByte(XorByte(XorByte(0, a), b), c) == Sum3(a, b, c)
    ensures XorByte(XorByte(XorByte(a, b), 0), c) == Sum3(a, b, c)
    ensures XorByte(XorByte(XorByte(a, b), c), 0) == Sum3(a, b, c)
  {
  }

  lemma SpreadIsSums(y1: bv8, y2: bv8, y3: bv8, y4: bv8)
    ensures Spread(y1, y2, y3, y4) == Word(Sum3(y1, y3, y4), Sum3(y1, y2, y4), Sum3(y1, y2, y3), Sum3(y2, y3, y4))
  {
    hide XorByte, Sum3;
    SumWithZero(y1, y3, y4);
    SumWithZero(y1, y2, y4);
    SumWithZero(y1, y2, y3);
    SumWithZero(y2, y3, y4);
  }

  lemma SixSum(a: bv8, b: bv8, c: bv8, d: bv8, e: bv8, f: bv8)
    ensures XorByte(Sum3(f, d, e), Sum3(a, b, c)) == Sum6(a, b, c, d, e, f)
    ensures XorByte(Sum3(d, e, f), Sum3(a, b, c)) == Sum6(a, b, c, d, e, f)
  {
  }

  lemma FiveSum1(t1: bv8, t2: bv8, t3: bv8, t4: bv8, t5: bv8, t6: bv8, t7: bv8, t8: bv8)
    ensures XorByte(Sum6(t1, t3, t4, t6, t7, t8), Sum3(t2, t3, t4)) == Sum5(t1, t2, t6, t7, t8)
    ensures XorByte(Sum6(t1, t2, t4, t5, t7, t8), Sum3(t1, t3, t4)) == Sum5(t2, t3, t5, t7, t8)
  {
  }

  lemma FiveSum2(t1: bv8, t2: bv8, t3: bv8, t4: bv8, t5: bv8, t6: bv8, t7: bv8, t8: bv8)
    ensures XorByte(Sum6(t1, t2, t3, t5, t6, t8), Sum3(t1, t2, t4)) == Sum5(t3, t4, t5, t6, t8)
    ensures XorByte(Sum6(t2, t3, t4, t5, t6, t7), Sum3(t1, t2, t3)) == Sum5(t1, t4, t5, t6, t7)
  {
  }

  /** The large tables and the rotation of the fast round make up the linear layer. */
  lemma SpreadIsP(t1: bv8, t2: bv8, t3: bv8, t4: bv8, t5: bv8, t6: bv8, t7: bv8, t8: bv8)
    ensures var d, u := Spread(t8, t5, t6, t7), Spread(t1, t2, t3, t4);
            Half(Xor(d, u), Xor(Xor(d, u), RotR8(u))) == P(t1, t2, t3, t4, t5, t6, t7, t8)
  {
    hide XorByte, Sum3, Sum5, Sum6, Spread;
    SpreadIsSums(t8, t5, t6, t7);
    SpreadIsSums(t1, t2, t3, t4);
    SixSum(t1, t3, t4, t6, t7, t8);
    SixSum(t1, t2, t4, t5, t7, t8);
    SixSum(t1, t2, t3, t5, t6, t8);
    SixSum(t2, t3, t4, t5, t6, t7);
    FiveSum1(t1, t2, t3, t4, t5, t6, t7, t8);
    FiveSum2(t1, t2, t3, t4, t5, t6, t7, t8);
  }

  /** The fast round, and so the slow one, is F. */
  lemma RoundIsF(t: Tables, l: Half, k: Half)
    requires Related(t)
    ensures FastRound(t, l, k) == F(t.s1, l, k)
  {
    var z := XorHalf(l, k);
    var t1, t2, t3, t4 := t.s1(z.h.b3), RotByteL(t.s1(z.h.b2)), RotByteR(t.s1(z.h.b1)), t.s1(RotByteL(z.h.b0));
    var t5, t6, t7, t8 := RotByteL(t.s1(z.l.b3)), RotByteR(t.s1(z.l.b2)), t.s1(RotByteL(z.l.b1)), t.s1(z.l.b0);
    hide XorByte, Xor, RotByteL, RotByteR, P;
    SpreadIsP(t1, t2, t3, t4, t5, t6, t7, t8);
    assert Spread(t8, t5, t6, t7) == Xor(Xor(Xor(t.sp0(z.l.b0), t.sp1(z.l.b3)), t.sp2(z.l.b2)), t.sp3(z.l.b1));
    assert Spread(t1, t2, t3, t4) == Xor(Xor(Xor(t.sp0(z.h.b3), t.sp1(z.h.b2)), t.sp2(z.h.b1)), t.sp3(z.h.b0));
  }

  // ---------- Key quantities (section 2.2) ----------

  function WordOf(x: bv32): Word {
    Word(((x >> 24) & 0xff) as bv8, ((x >> 16) & 0xff) as bv8, ((x >> 8) & 0xff) as bv8, (x & 0xff) as bv8)
  }

  function Sigma(n: nat): Half
    requires 1 <= n <= 6
  {
    if n == 1 then Half(WordOf(0xA09E667F), WordOf(0x3BCC908B))
    else if n == 2 then Half(WordOf(0xB67AE858), WordOf(0x4CAA73B2))
    else if n == 3 then Half(WordOf(0xC6EF372F), WordOf(0xE94F82BE))
    else if n == 4 then Half(WordOf(0x54FF53A5), WordOf(0xF1D36F1C))
    else if n == 5 then Half(WordOf(0x10E527FA), WordOf(0xDE682D1D))
    else Half(WordOf(0xB05688C2), WordOf(0xB3E6C1FD))
  }

  lemma Sigmas()
    ensures SIGMA1 == Sigma(1) && SIGMA2 == Sigma(2) && SIGMA3 == Sigma(3)
    ensures SIGMA4 == Sigma(4) && SIGMA5 == Sigma(5) && SIGMA6 == Sigma(6)
  {
  }

  const ONES: Half := Half(Word(255, 255, 255, 255), Word(255, 255, 255, 255))

  /** The right 128 bits: none, or 64 and their complement, or those of the key. */
  function RightKey(key: Key): Wide {
    match key
    case Key128(_) => Wide(NO_BITS, NO_BITS)
    case Key192(_, r) => Wide(r, XorHalf(r, ONES))
    case Key256(_, r) => r
  }

  function QuantityA(s1: bv8 -> bv8, kl: Wide, kr: Wide): Wide {
    var d1, d2 := XorHalf(kl.l, kr.l), XorHalf(kl.r, kr.r);
    var d2' := XorHalf(d2, F(s1, d1, Sigma(1)));
    var d1' := XorHalf(d1, F(s1, d2', Sigma(2)));
    var e1, e2 := XorHalf(d1', kl.l), XorHalf(d2', kl.r);
    var e2' := XorHalf(e2, F(s1, e1, Sigma(3)));
    Wide(XorHalf(e1, F(s1, e2', Sigma(4))), e2')
  }

  function QuantityB(s1: bv8 -> bv8, ka: Wide, kr: Wide): Wide {
    var d1, d2 := XorHalf(ka.l, kr.l), XorHalf(ka.r, kr.r);
    var d2' := XorHalf(d2, F(s1, d1, Sigma(5)));
    Wide(XorHalf(d1, F(s1, d2', Sigma(6))), d2')
  }

  /** KL, KR, KA and KB; a short key has no use for the last. */
  function Quantities(s1: bv8 -> bv8, key: Key): Sources {
    var ka := QuantityA(s1, key.l, RightKey(key));
    Sources(key.l, RightKey(key), ka, if key.Key128? then ka else QuantityB(s1, ka, RightKey(key)))
  }

  lemma ByteLaws(x: bv8)
    ensures XorByte(x, 0) == x && XorByte(x, 255) == !x
  {
  }

  lemma XorByteCommutes(x: bv8, y: bv8)
    ensures XorByte(x, y) == XorByte(y, x)
  {
  }

  lemma XorHalfCommutes(x: Half, y: Half)
    ensures XorHalf(x, y) == XorHalf(y, x)
  {
    hide XorByte;
    XorByteCommutes(x.h.b3, y.h.b3);
    XorByteCommutes(x.h.b2, y.h.b2);
    XorByteCommutes(x.h.b1, y.h.b1);
    XorByteCommutes(x.h.b0, y.h.b0);
    XorByteCommutes(x.l.b3, y.l.b3);
    XorByteCommutes(x.l.b2, y.l.b2);
    XorByteCommutes(x.l.b1, y.l.b1);
    XorByteCommutes(x.l.b0, y.l.b0);
  }

  lemma HalfLaws(x: Half)
    ensures XorHalf(x, NO_BITS) == x && XorHalf(x, ONES) == Half(NotWord(x.h), NotWord(x.l))
  {
    ByteLaws(x.h.b3);
    ByteLaws(x.h.b2);
    ByteLaws(x.h.b1);
    ByteLaws(x.h.b0);
    ByteLaws(x.l.b3);
    ByteLaws(x.l.b2);
    ByteLaws(x.l.b1);
    ByteLaws(x.l.b0);
    hide XorByte;
  }

  lemma RightIsRightKey(key: Key)
    ensures CamelliaKeys.Right(key) == RightKey(key)
  {
    if key.Key192? {
      HalfLaws(key.r64);
    }
    hide XorHalf, NotWord;
  }

  lemma StirIs(t: Tables, k: Wide, k1: Half, k2: Half)
    requires Related(t)
    ensures var r := XorHalf(k.r, F(t.s1, k.l, k1)); Stir(t, k, k1, k2) == Wide(XorHalf(k.l, F(t.s1, r, k2)), r)
  {
    hide XorHalf, FastRound, F, Related;
    RoundIsF(t, k.l, k1);
    RoundIsF(t, XorHalf(k.r, F(t.s1, k.l, k1)), k2);
  }

  /** The quantities the code rotates are KL, KR, KA and, unless the key is short, KB. */
  lemma SourcesAreRfc(t: Tables, key: Key)
    requires Related(t)
    ensures var k := SourcesOf(t, key.l, CamelliaKeys.Right(key), key.Key128?);
            k == Quantities(t.s1, key)
  {
    hide Stir, XorHalf, F, Related, Sigma;
    Sigmas();
    RightIsRightKey(key);
    var kl, kr := key.l, RightKey(key);
    HalfLaws(kl.l);
    HalfLaws(kl.r);
    XorHalfCommutes(kl.l, kr.l);
    XorHalfCommutes(kl.r, kr.r);
    var start := if key.Key128? then kl else XorWide(kr, kl);
    StirIs(t, start, SIGMA1, SIGMA2);
    var mid := XorWide(Stir(t, start, SIGMA1, SIGMA2), kl);
    StirIs(t, mid, SIGMA3, SIGMA4);
    StirIs(t, XorWide(Stir(t, mid, SIGMA3, SIGMA4), kr), SIGMA5, SIGMA6);
  }

  // ---------- Subkeys (section 2.2) ----------

  /** The left and the right 64 bits of k <<< n. */
  function Left(k: Wide, n: nat): Half
    requires n < 128
  {
    FromBits(Rotated(WideBits(k), n)[..64])
  }

  function Right(k: Wide, n: nat): Half
    requires n < 128
  {
    FromBits(Rotated(WideBits(k), n)[64..])
  }

  /** A subkey: the left or the right 64 bits of a quantity <<< n. */
  datatype Piece = L(source: Source, n: nat) | R(source: Source, n: nat)

  function PieceOf(q: Sources, p: Piece): Half
    requires p.n < 128
  {
    match p
    case L(source, n) => Left(Pick(q, source), n)
    case R(source, n) => Right(Pick(q, source), n)
  }

  /** kw1 to kw4, k1 to k18 and ke1 to ke4 of a key of 128 bits. */
  const KW128: seq<Piece> := [L(KL, 0), R(KL, 0), L(KA, 111), R(KA, 111)]
  const K128: seq<Piece> := [
    L(KA, 0), R(KA, 0), L(KL, 15), R(KL, 15), L(KA, 15), R(KA, 15), L(KL, 45), R(KL, 45), L(KA, 45), R(KL, 60),
    L(KA, 60), R(KA, 60), L(KL, 94), R(KL, 94), L(KA, 94), R(KA, 94), L(KL, 111), R(KL, 111)
  ]
  const KE128: seq<Piece> := [L(KA, 30), R(KA, 30), L(KL, 77), R(KL, 77)]

  /** kw1 to kw4, k1 to k24 and ke1 to ke6 of a longer key. */
  const KW256: seq<Piece> := [L(KL, 0), R(KL, 0), L(KB, 111), R(KB, 111)]
  const K256: seq<Piece> := [
    L(KB, 0), R(KB, 0), L(KR, 15), R(KR, 15), L(KA, 15), R(KA, 15), L(KB, 30), R(KB, 30), L(KL, 45), R(KL, 45),
    L(KA, 45), R(KA, 45), L(KR, 60), R(KR, 60), L(KB, 60), R(KB, 60), L(KL, 77), R(KL, 77), L(KR, 94),
    R(KR, 94), L(KA, 94), R(KA, 94), L(KL, 111), R(KL, 111)
  ]
  const KE256: seq<Piece> := [L(KR, 30), R(KR, 30), L(KL, 60), R(KL, 60), L(KA, 77), R(KA, 77)]

  lemma {:induction false} BitsReadByte(b: bv8)
    ensures BitsToByte(ByteToBits(b)) == b
  {
    var x := ByteToBits(b);
    ByteReadsBits(x);
    var c := BitsToByte(x);
    hide BitsToByte;
    forall j | 0 <= j < 8 ensures ByteBit(c, j) == ByteBit(b, j) {
      assert ByteToBits(c)[7 - j] == x[7 - j];
    }
    hide ByteToBits;
    SameBits(c, b);
  }

  lemma BitsReadHalf(h: Half)
    ensures FromBits(ToBits(h)) == h
  {
    BitsReadWord(h.h);
    BitsReadWord(h.l);
    hide WordToBits, BitsToWord;
    assert ToBits(h)[..32] == WordToBits(h.h) && ToBits(h)[32..] == WordToBits(h.l);
  }

  lemma BitsReadWord(w: Word)
    ensures BitsToWord(WordToBits(w)) == w
  {
    hide ByteToBits, BitsToByte;
    BitsReadByte(w.b3);
    BitsReadByte(w.b2);
    BitsReadByte(w.b1);
    BitsReadByte(w.b0);
    var x := WordToBits(w);
    assert x[..8] == ByteToBits(w.b3) && x[8..16] == ByteToBits(w.b2);
    assert x[16..24] == ByteToBits(w.b1) && x[24..] == ByteToBits(w.b0);
  }

  lemma HalvesAre(k: Wide, n: nat)
    requires n < 128
    ensures Hi(k, n) == Left(k, n) && Lo(k, n) == Right(k, n)
  {
    hide Hi, Lo, ToBits, FromBits, Rotated, WideBits;
    HalvesRotate(k, n);
    BitsReadHalf(Hi(k, n));
    BitsReadHalf(Lo(k, n));
    var x := Rotated(WideBits(k), n);
    assert x[..64] == ToBits(Hi(k, n)) && x[64..] == ToBits(Lo(k, n));
  }

  /** Half a turn more exchanges the halves. */
  lemma HalfTurn(k: Wide)
    ensures Left(k, 111) == Right(k, 47) && Right(k, 111) == Left(k, 47)
  {
    hide FromBits, WideBits;
    var x := WideBits(k);
    assert Rotated(x, 111)[..64] == Rotated(x, 47)[64..];
    assert Rotated(x, 111)[64..] == Rotated(x, 47)[..64];
  }

  /** An entry that is not overwritten leaves both halves. */
  lemma Placed(t: seq<Entry>, size: nat, k: Sources, j: nat)
    requires Fits(t, size) && j < |t| && t[j].which == Both
    requires forall i :: j < i < |t| ==> !Writes(t[i], t[j].i) && !Writes(t[i], t[j].i + 1)
    ensures var e, ks := t[j], Subkeys(t, size, k);
            ks[e.i + 1] == Left(Pick(k, e.source), e.n) && ks[e.i] == Right(Pick(k, e.source), e.n)
  {
    hide Lo, Hi, ApplyAll, Left, Right;
    var w: seq<Key64> := seq(size, _ => NO_BITS);
    LastWriter(w, t, k, t[j].i, j);
    LastWriter(w, t, k, t[j].i + 1, j);
    HalvesAre(Pick(k, t[j].source), t[j].n);
  }

  predicate Holds(ks: seq<Key64>, i: nat, q: Sources, p: Piece) {
    i < |ks| && p.n < 128 && ks[i] == PieceOf(q, p)
  }

  /** The pair of subkeys of group g: the left one is stored after the right one. */
  predicate HoldsPair(ks: seq<Key64>, g: nat, q: Sources, left: Piece, right: Piece) {
    Holds(ks, 2 * g + 1, q, left) && Holds(ks, 2 * g, q, right)
  }

  /** The groups that rounds 2i + 1 and 2i + 2, and the i-th mixing layer, take their subkeys from. */
  function RoundGroup(i: nat): nat {
    1 + i + i / 3
  }

  function MixingGroup(i: nat): nat {
    4 * i + 4
  }

  /** The entry that group g comes from, if it comes from one. */
  function Entry128(g: nat): nat
    requires g < 13
  {
    [0, 7, 1, 8, 9, 2, 0, 11, 4, 5, 12, 6, 13][g]
  }

  function Entry256(g: nat): nat
    requires g < 17
  {
    [0, 13, 5, 9, 6, 14, 1, 10, 2, 7, 15, 3, 11, 8, 12, 4, 16][g]
  }

  lemma Group128(k: Sources, g: nat)
    requires g < 13 && g != 6
    ensures Fits(TABLE128, 26)
    ensures var e := TABLE128[Entry128(g)];
            e.i == 2 * g && e.n < 128 && HoldsPair(Subkeys(TABLE128, 26, k), g, k, L(e.source, e.n), R(e.source, e.n))
  {
    hide Subkeys, Left, Right, PieceOf, Fits;
    Covers128();
    LastEntry128(g);
    Placed(TABLE128, 26, k, Entry128(g));
    PiecesAre(k, TABLE128[Entry128(g)]);
  }

  lemma LastEntry128(g: nat)
    requires g < 13 && g != 6
    ensures var j := Entry128(g);
            && TABLE128[j].i == 2 * g && TABLE128[j].which == Both && TABLE128[j].n < 128
            && forall i :: j < i < |TABLE128| ==> !Writes(TABLE128[i], 2 * g) && !Writes(TABLE128[i], 2 * g + 1)
  {
  }

  lemma PiecesAre(k: Sources, e: Entry)
    requires e.n < 128
    ensures PieceOf(k, L(e.source, e.n)) == Left(Pick(k, e.source), e.n)
    ensures PieceOf(k, R(e.source, e.n)) == Right(Pick(k, e.source), e.n)
  {
  }

  /** The one group whose halves come from two entries. */
  lemma SplitGroup128(k: Sources)
    ensures Fits(TABLE128, 26) && HoldsPair(Subkeys(TABLE128, 26, k), 6, k, L(KA, 45), R(KL, 60))
  {
    hide Lo, Hi, ApplyAll, Left, Right;
    Covers128();
    var w: seq<Key64> := seq(26, _ => NO_BITS);
    LastWriter(w, TABLE128, k, 12, 3);
    LastWriter(w, TABLE128, k, 13, 10);
    HalvesAre(k.kl, 60);
    HalvesAre(k.ka, 45);
  }

  lemma Group256(k: Sources, g: nat)
    requires g < 17
    ensures Fits(TABLE256, 34)
    ensures var e := TABLE256[Entry256(g)];
            e.i == 2 * g && e.n < 128 && HoldsPair(Subkeys(TABLE256, 34, k), g, k, L(e.source, e.n), R(e.source, e.n))
  {
    hide Subkeys, Left, Right, PieceOf, Fits;
    Covers256();
    LastEntry256(g);
    Placed(TABLE256, 34, k, Entry256(g));
    PiecesAre(k, TABLE256[Entry256(g)]);
  }

  lemma LastEntry256(g: nat)
    requires g < 17
    ensures var j := Entry256(g);
            && TABLE256[j].i == 2 * g && TABLE256[j].which == Both && TABLE256[j].n < 128
            && forall i :: j < i < |TABLE256| ==> !Writes(TABLE256[i], 2 * g) && !Writes(TABLE256[i], 2 * g + 1)
  {
  }

  /** The last group of either schedule is rotated by 47, which is 111 with the halves exchanged. */
  lemma LastGroup(ks: seq<Key64>, g: nat, k: Sources, s: Source)
    requires HoldsPair(ks, g, k, L(s, 47), R(s, 47))
    ensures HoldsPair(ks, g, k, R(s, 111), L(s, 111))
  {
    hide Left, Right;
    HalfTurn(Pick(k, s));
  }

  function Kw(key: Key): seq<Piece> {
    if key.Key128? then KW128 else KW256
  }

  function K(key: Key): seq<Piece> {
    if key.Key128? then K128 else K256
  }

  function Ke(key: Key): seq<Piece> {
    if key.Key128? then KE128 else KE256
  }

  lemma Counts(key: Key)
    ensures |Kw(key)| == 4 && |K(key)| == 6 * Rounds(key) && |Ke(key)| == 2 * (Rounds(key) - 1) && Rounds(key) >= 3
    ensures forall p :: p in Kw(key) || p in K(key) || p in Ke(key) ==> p.n < 128
  {
    Counts128();
    Counts256();
  }

  lemma Counts128()
    ensures |KW128| == 4 && |K128| == 18 && |KE128| == 4
    ensures forall p :: p in KW128 || p in K128 || p in KE128 ==> p.n < 128
  {
  }

  lemma Counts256()
    ensures |KW256| == 4 && |K256| == 24 && |KE256| == 6
    ensures forall p :: p in KW256 || p in K256 || p in KE256 ==> p.n < 128
  {
  }

  /** All the subkeys are where the rounds, the mixing layers and the whitenings look for them. */
  ghost predicate Published(ks: seq<Key64>, q: Sources, kw: seq<Piece>, k: seq<Piece>, ke: seq<Piece>, r: nat) {
    && |kw| == 4 && |k| == 6 * r && |ke| == 2 * (r - 1)
    && HoldsPair(ks, 0, q, kw[0], kw[1]) && HoldsPair(ks, 4 * r, q, kw[3], kw[2])
    && (forall i :: 0 <= i < 3 * r ==> HoldsPair(ks, RoundGroup(i), q, k[2 * i], k[2 * i + 1]))
    && (forall i :: 0 <= i < r - 1 ==> HoldsPair(ks, MixingGroup(i), q, ke[2 * i], ke[2 * i + 1]))
  }

  lemma Rounds128(k: Sources, i: nat)
    requires i < 9
    ensures Fits(TABLE128, 26) && HoldsPair(Subkeys(TABLE128, 26, k), RoundGroup(i), k, K128[2 * i], K128[2 * i + 1])
  {
    hide HoldsPair, Subkeys, Fits;
    if i == 4 {
      SplitGroup128(k);
    } else {
      Group128(k, RoundGroup(i));
    }
  }

  lemma Mixing128(k: Sources, i: nat)
    requires i < 2
    ensures Fits(TABLE128, 26) && HoldsPair(Subkeys(TABLE128, 26, k), MixingGroup(i), k, KE128[2 * i], KE128[2 * i + 1])
  {
    hide HoldsPair, Subkeys, Fits;
    Group128(k, MixingGroup(i));
  }

  lemma Published128(k: Sources)
    ensures Fits(TABLE128, 26) && Published(Subkeys(TABLE128, 26, k), k, KW128, K128, KE128, 3)
  {
    hide HoldsPair, Subkeys, Fits, RoundGroup, MixingGroup;
    Group128(k, 0);
    Group128(k, 12);
    LastGroup(Subkeys(TABLE128, 26, k), 12, k, KA);
    forall i | 0 <= i < 9
      ensures HoldsPair(Subkeys(TABLE128, 26, k), RoundGroup(i), k, K128[2 * i], K128[2 * i + 1])
    {
      Rounds128(k, i);
    }
    forall i | 0 <= i < 2
      ensures HoldsPair(Subkeys(TABLE128, 26, k), MixingGroup(i), k, KE128[2 * i], KE128[2 * i + 1])
    {
      Mixing128(k, i);
    }
  }

  lemma Rounds256(k: Sources, i: nat)
    requires i < 12
    ensures Fits(TABLE256, 34) && HoldsPair(Subkeys(TABLE256, 34, k), RoundGroup(i), k, K256[2 * i], K256[2 * i + 1])
  {
    hide HoldsPair, Subkeys, Fits;
    Group256(k, RoundGroup(i));
  }

  lemma Mixing256(k: Sources, i: nat)
    requires i < 3
    ensures Fits(TABLE256, 34) && HoldsPair(Subkeys(TABLE256, 34, k), MixingGroup(i), k, KE256[2 * i], KE256[2 * i + 1])
  {
    hide HoldsPair, Subkeys, Fits;
    Group256(k, MixingGroup(i));
  }

  lemma Published256(k: Sources)
    ensures Fits(TABLE256, 34) && Published(Subkeys(TABLE256, 34, k), k, KW256, K256, KE256, 4)
  {
    hide HoldsPair, Subkeys, Fits, RoundGroup, MixingGroup;
    Group256(k, 0);
    Group256(k, 16);
    LastGroup(Subkeys(TABLE256, 34, k), 16, k, KB);
    forall i | 0 <= i < 12
      ensures HoldsPair(Subkeys(TABLE256, 34, k), RoundGroup(i), k, K256[2 * i], K256[2 * i + 1])
    {
      Rounds256(k, i);
    }
    forall i | 0 <= i < 3
      ensures HoldsPair(Subkeys(TABLE256, 34, k), MixingGroup(i), k, KE256[2 * i], KE256[2 * i + 1])
    {
      Mixing256(k, i);
    }
  }

  /** Under every key, the schedule holds kw, k and ke of the RFC. */
  lemma ScheduleIsPublished(t: Tables, key: Key)
    requires Related(t)
    ensures Published(ScheduleOf(t, key), Quantities(t.s1, key), Kw(key), K(key), Ke(key), Rounds(key))
  {
    hide Published, Subkeys, SourcesOf, Quantities, Fits, Covers;
    SourcesAreRfc(t, key);
    Published128(Quantities(t.s1, key));
    Published256(Quantities(t.s1, key));
  }

  // ---------- Encryption (section 2.3) ----------

  /** The 32-bit halves of x and k are the words of the RFC's FL and FLINV (section 2.4). */
  function RfcFL(x: Half, k: Half): Half {
    var x2 := Xor(x.l, RotL1(And(x.h, k.h)));
    var x1 := Xor(x.h, Or(x2, k.l));
    Half(x1, x2)
  }

  function RfcFLInverse(y: Half, k: Half): Half {
    var y1 := Xor(y.h, Or(y.l, k.l));
    var y2 := Xor(y.l, RotL1(And(y1, k.h)));
    Half(y1, y2)
  }

  /** Six rounds with subkeys k[0] to k[5]. */
  function SixRounds(s1: bv8 -> bv8, d: Block, k: seq<Half>): Block
    requires |k| == 6
  {
    var r1 := XorHalf(d.r, F(s1, d.l, k[0]));
    var l1 := XorHalf(d.l, F(s1, r1, k[1]));
    var r2 := XorHalf(r1, F(s1, l1, k[2]));
    var l2 := XorHalf(l1, F(s1, r2, k[3]));
    var r3 := XorHalf(r2, F(s1, l2, k[4]));
    Block(XorHalf(l2, F(s1, r3, k[5])), r3)
  }

  /** After 6 (n + 1) rounds, with a mixing layer between every six and the next. */
  function Sections(s1: bv8 -> bv8, kw: seq<Half>, k: seq<Half>, ke: seq<Half>, s: Block, n: nat): Block
    requires |kw| == 4 && |k| >= 6 * (n + 1) && |ke| >= 2 * n
  {
    if n == 0 then SixRounds(s1, Block(XorHalf(s.l, kw[0]), XorHalf(s.r, kw[1])), k[..6])
    else
      var d := Sections(s1, kw, k, ke, s, n - 1);
      SixRounds(s1, Block(RfcFL(d.l, ke[2 * n - 2]), RfcFLInverse(d.r, ke[2 * n - 1])), k[6 * n..6 * n + 6])
  }

  function Named(q: Sources, ps: seq<Piece>): (r: seq<Half>)
    requires forall p :: p in ps ==> p.n < 128
    ensures |r| == |ps|
  {
    seq(|ps|, i requires 0 <= i < |ps| => PieceOf(q, ps[i]))
  }

  /** All the subkeys of a key, in the order of their names. */
  datatype Subkeys64 = Subkeys64(kw: seq<Half>, k: seq<Half>, ke: seq<Half>)

  function SubkeysFor(q: Sources, key: Key): (r: Subkeys64)
    ensures |r.kw| == 4 && |r.k| == 6 * Rounds(key) && |r.ke| == 2 * (Rounds(key) - 1) && Rounds(key) >= 3
  {
    Counts(key);
    Subkeys64(Named(q, Kw(key)), Named(q, K(key)), Named(q, Ke(key)))
  }

  /** Eighteen rounds under a key of 128 bits and twenty-four under a longer one. */
  function Encrypted(s1: bv8 -> bv8, key: Key, s: Block): Block {
    var k := SubkeysFor(Quantities(s1, key), key);
    var d := Sections(s1, k.kw, k.k, k.ke, s, Rounds(key) - 1);
    Block(XorHalf(d.r, k.kw[2]), XorHalf(d.l, k.kw[3]))
  }

  lemma TwoRoundsAre(t: Tables, d: Block, kl: Half, kr: Half)
    requires Related(t)
    ensures var r := XorHalf(d.r, F(t.s1, d.l, kl));
            Layer(t, Feistel, d, kl, kr) == Block(XorHalf(d.l, F(t.s1, r, kr)), r)
  {
    hide XorHalf, FastRound, F, Related;
    RoundIsF(t, d.l, kl);
    RoundIsF(t, XorHalf(d.r, F(t.s1, d.l, kl)), kr);
  }

  predicate ThreeFeistel(g: nat, groups: nat) {
    KindOf(g, groups) == Feistel && KindOf(g + 1, groups) == Feistel && KindOf(g + 2, groups) == Feistel
  }

  /** Three groups of rounds. */
  lemma SixLayers(t: Tables, ks: seq<Key64>, s: Block, g: nat)
    requires Related(t) && 2 * g + 6 <= |ks|
    requires ThreeFeistel(g, |ks| / 2)
    ensures Run(t, ks, s, g + 3) ==
            SixRounds(t.s1, Run(t, ks, s, g),
                      [ks[2 * g + 1], ks[2 * g], ks[2 * g + 3], ks[2 * g + 2], ks[2 * g + 5], ks[2 * g + 4]])
  {
    hide XorHalf, F, Related, Run, Layer, KindOf;
    NextLayer(t, ks, s, g);
    NextLayer(t, ks, s, g + 1);
    NextLayer(t, ks, s, g + 2);
    TwoRoundsAre(t, Run(t, ks, s, g), ks[2 * g + 1], ks[2 * g]);
    TwoRoundsAre(t, Run(t, ks, s, g + 1), ks[2 * g + 3], ks[2 * g + 2]);
    TwoRoundsAre(t, Run(t, ks, s, g + 2), ks[2 * g + 5], ks[2 * g + 4]);
  }

  lemma FLIsRfc(x: Half, k: Half)
    ensures FL(x, k) == RfcFL(x, k) && FLInverse(x, k) == RfcFLInverse(x, k)
  {
    hide Xor, And, Or, RotL1;
  }

  /** The subkeys as the network reads them, named. */
  ghost predicate InPlace(ks: seq<Key64>, kw: seq<Half>, k: seq<Half>, ke: seq<Half>, r: nat) {
    && r >= 1 && |ks| == 8 * r + 2 && |kw| == 4 && |k| == 6 * r && |ke| == 2 * (r - 1)
    && ks[1] == kw[0] && ks[0] == kw[1] && ks[8 * r] == kw[2] && ks[8 * r + 1] == kw[3]
    && (forall n :: 0 <= n < r ==> SectionInPlace(ks, k, n))
    && (forall n :: 1 <= n < r ==> ks[8 * n + 1] == ke[2 * n - 2] && ks[8 * n] == ke[2 * n - 1])
  }

  predicate SectionInPlace(ks: seq<Key64>, k: seq<Half>, n: nat) {
    && 8 * n + 7 < |ks| && 6 * n + 5 < |k|
    && k[6 * n..6 * n + 6] ==
       [ks[8 * n + 3], ks[8 * n + 2], ks[8 * n + 5], ks[8 * n + 4], ks[8 * n + 7], ks[8 * n + 6]]
  }

  lemma Kinds(n: nat, r: nat)
    requires n < r
    ensures ThreeFeistel(4 * n + 1, 4 * r + 1)
    ensures KindOf(4 * n, 4 * r + 1) == if n == 0 then White else Mixing
    ensures KindOf(4 * r, 4 * r + 1) == White
  {
  }

  /** What a section begins with: the whitened block, or the section before through a mixing layer. */
  lemma SectionBegins(t: Tables, ks: seq<Key64>, kw: seq<Half>, k: seq<Half>, ke: seq<Half>, r: nat, s: Block, n: nat)
    requires InPlace(ks, kw, k, ke, r) && n < r
    ensures n == 0 ==> Run(t, ks, s, 1) == Block(XorHalf(s.l, kw[0]), XorHalf(s.r, kw[1]))
    ensures n > 0 ==>
              var d := Run(t, ks, s, 4 * n);
              Run(t, ks, s, 4 * n + 1) == Block(RfcFL(d.l, ke[2 * n - 2]), RfcFLInverse(d.r, ke[2 * n - 1]))
  {
    Kinds(n, r);
    hide XorHalf, FL, FLInverse, RfcFL, RfcFLInverse, KindOf, SectionInPlace, ThreeFeistel;
    NextLayer(t, ks, s, 4 * n);
    NoLayers(t, ks, s);
    hide Run;
    var d := Run(t, ks, s, 4 * n);
    FLIsRfc(d.l, ks[8 * n + 1]);
    FLIsRfc(d.r, ks[8 * n]);
  }

  lemma SectionKeys(ks: seq<Key64>, kw: seq<Half>, k: seq<Half>, ke: seq<Half>, r: nat, n: nat)
    requires InPlace(ks, kw, k, ke, r) && n < r
    ensures SectionInPlace(ks, k, n) && |ks| / 2 == 4 * r + 1 && k[0..6] == k[..6]
    ensures |kw| == 4 && |k| == 6 * r && |ke| == 2 * (r - 1)
  {
  }

  lemma SectionSteps(s1: bv8 -> bv8, kw: seq<Half>, k: seq<Half>, ke: seq<Half>, s: Block, n: nat)
    requires |kw| == 4 && |k| >= 6 * (n + 1) && |ke| >= 2 * n
    ensures n == 0 ==> Sections(s1, kw, k, ke, s, n) ==
                       SixRounds(s1, Block(XorHalf(s.l, kw[0]), XorHalf(s.r, kw[1])), k[..6])
    ensures n > 0 ==>
              var d := Sections(s1, kw, k, ke, s, n - 1);
              Sections(s1, kw, k, ke, s, n) ==
              SixRounds(s1, Block(RfcFL(d.l, ke[2 * n - 2]), RfcFLInverse(d.r, ke[2 * n - 1])), k[6 * n..6 * n + 6])
  {
    hide XorHalf, RfcFL, RfcFLInverse, SixRounds;
  }

  lemma {:induction false} SectionRuns(t: Tables, ks: seq<Key64>, kw: seq<Half>, k: seq<Half>, ke: seq<Half>, r: nat,
                                       s: Block, n: nat)
    requires Related(t) && InPlace(ks, kw, k, ke, r) && n < r
    ensures |kw| == 4 && |k| >= 6 * (n + 1) && |ke| >= 2 * n && 2 * (4 * n + 4) <= |ks|
    ensures Run(t, ks, s, 4 * n + 4) == Sections(t.s1, kw, k, ke, s, n)
    decreases n
  {
    hide *;
    SectionKeys(ks, kw, k, ke, r, n);
    Kinds(n, r);
    SixLayers(t, ks, s, 4 * n + 1);
    SectionBegins(t, ks, kw, k, ke, r, s, n);
    SectionSteps(t.s1, kw, k, ke, s, n);
    SectionReads(ks, k, n);
    if n > 0 {
      SectionRuns(t, ks, kw, k, ke, r, s, n - 1);
    }
  }

  lemma SectionReads(ks: seq<Key64>, k: seq<Half>, n: nat)
    requires SectionInPlace(ks, k, n)
    ensures var g := 4 * n + 1;
            2 * g + 6 <= |ks| && 6 * n + 6 <= |k| &&
            k[6 * n..6 * n + 6] ==
            [ks[2 * g + 1], ks[2 * g], ks[2 * g + 3], ks[2 * g + 2], ks[2 * g + 5], ks[2 * g + 4]]
  {
  }

  lemma RoundsInPlace(ks: seq<Key64>, q: Sources, kw: seq<Piece>, k: seq<Piece>, ke: seq<Piece>, r: nat, n: nat)
    requires Published(ks, q, kw, k, ke, r) && n < r && forall p :: p in k ==> p.n < 128
    ensures SectionInPlace(ks, Named(q, k), n)
  {
    hide PieceOf;
    GroupsOf(n);
    assert HoldsPair(ks, RoundGroup(3 * n), q, k[2 * (3 * n)], k[2 * (3 * n) + 1]);
    assert HoldsPair(ks, RoundGroup(3 * n + 1), q, k[2 * (3 * n + 1)], k[2 * (3 * n + 1) + 1]);
    assert HoldsPair(ks, RoundGroup(3 * n + 2), q, k[2 * (3 * n + 2)], k[2 * (3 * n + 2) + 1]);
  }

  lemma AllInPlace(ks: seq<Key64>, q: Sources, kw: seq<Piece>, k: seq<Piece>, ke: seq<Piece>, r: nat)
    requires Published(ks, q, kw, k, ke, r) && r >= 1 && |ks| == 8 * r + 2
    requires forall p :: p in kw || p in k || p in ke ==> p.n < 128
    ensures InPlace(ks, Named(q, kw), Named(q, k), Named(q, ke), r)
  {
    hide PieceOf, SectionInPlace;
    forall n | 0 <= n < r ensures SectionInPlace(ks, Named(q, k), n) {
      RoundsInPlace(ks, q, kw, k, ke, r, n);
    }
    forall n | 1 <= n < r ensures ks[8 * n + 1] == Named(q, ke)[2 * n - 2] && ks[8 * n] == Named(q, ke)[2 * n - 1] {
      assert HoldsPair(ks, MixingGroup(n - 1), q, ke[2 * (n - 1)], ke[2 * (n - 1) + 1]);
    }
  }

  lemma PublishedInPlace(t: Tables, key: Key)
    requires Related(t)
    ensures var k := SubkeysFor(Quantities(t.s1, key), key);
            InPlace(ScheduleOf(t, key), k.kw, k.k, k.ke, Rounds(key))
  {
    hide ScheduleOf, Quantities, Related, Rounds, Kw, K, Ke, InPlace, Published, Named;
    Counts(key);
    ScheduleIsPublished(t, key);
    AllInPlace(ScheduleOf(t, key), Quantities(t.s1, key), Kw(key), K(key), Ke(key), Rounds(key));
  }

  lemma GroupsOf(n: nat)
    ensures RoundGroup(3 * n) == 4 * n + 1 && RoundGroup(3 * n + 1) == 4 * n + 2 && RoundGroup(3 * n + 2) == 4 * n + 3
  {
  }

  /** What the code computes is Camellia. */
  lemma CryptIsCamellia(t: Tables, key: Key, s: Block)
    requires Related(t)
    ensures Crypt(t, ScheduleOf(t, key), s) == Encrypted(t.s1, key, s)
  {
    hide XorHalf, Related, Run, Sections, ScheduleOf, Quantities, SubkeysFor, SectionInPlace;
    PublishedInPlace(t, key);
    var r, ks, k := Rounds(key), ScheduleOf(t, key), SubkeysFor(Quantities(t.s1, key), key);
    SectionRuns(t, ks, k.kw, k.k, k.ke, r, s, r - 1);
    Kinds(r - 1, r);
    NextLayer(t, ks, s, 4 * r);
    assert |ks| / 2 == 4 * r + 1;
  }

  /** A key set for encryption and a block enciphered: the block is the RFC's. */
  method Encrypt(t: Tables, key: Key, input: Block) returns (output: Block)
    requires Related(t)
    ensures output == Encrypted(t.s1, key, input)
  {
    hide *;
    CryptIsCamellia(t, key, input);
    var ks := UncheckedSetKey(t, key, true);
    SchedulesAgree(ks[..], t, key);
    output := ProcessBlock(t, ks, Rounds(key), input);
  }

  lemma SchedulesAgree(ks: seq<Key64>, t: Tables, key: Key)
    requires Logical(ks, true) == ScheduleOf(t, key)
    ensures ks == ScheduleOf(t, key) && |ks| == 8 * Rounds(key) + 2 && Rounds(key) >= 1
  {
  }
}
