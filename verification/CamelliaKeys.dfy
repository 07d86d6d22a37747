/** Camellia's key schedule: 64-bit subkeys, placed through computed addresses that run backwards for decryption. */
module CamelliaKeys {
  import opened ByteBits
  import opened BitStrings
  import opened Words
  import opened CamelliaRound

  /** A 64-bit quantity is a pair of words. */
  type Key64 = Half

  /** A 128-bit quantity. */
  datatype Wide = Wide(l: Key64, r: Key64)

  const NO_BITS: Key64 := Half(Word(0, 0, 0, 0), Word(0, 0, 0, 0))

  // ---------- Bits, the highest first ----------

  function ByteToBits(b: bv8): (r: Bits)
    ensures |r| == 8
  {
    [ByteBit(b, 7), ByteBit(b, 6), ByteBit(b, 5), ByteBit(b, 4),
     ByteBit(b, 3), ByteBit(b, 2), ByteBit(b, 1), ByteBit(b, 0)]
  }

  function BitIf(x: bool, b: bv8): bv8 {
    if x then b else 0
  }

  function BitsToByte(x: Bits): bv8
    requires |x| == 8
  {
    BitIf(x[0], 128) | BitIf(x[1], 64) | BitIf(x[2], 32) | BitIf(x[3], 16) |
    BitIf(x[4], 8) | BitIf(x[5], 4) | BitIf(x[6], 2) | BitIf(x[7], 1)
  }

  lemma ByteReadsBits(x: Bits)
    requires |x| == 8
    ensures ByteToBits(BitsToByte(x)) == x
  {
  }

  function WordToBits(w: Word): (r: Bits)
    ensures |r| == 32
  {
    ByteToBits(w.b3) + ByteToBits(w.b2) + ByteToBits(w.b1) + ByteToBits(w.b0)
  }

  function BitsToWord(x: Bits): Word
    requires |x| == 32
  {
    Word(BitsToByte(x[..8]), BitsToByte(x[8..16]), BitsToByte(x[16..24]), BitsToByte(x[24..]))
  }

  function ToBits(k: Key64): (r: Bits)
    ensures |r| == 64
  {
    WordToBits(k.h) + WordToBits(k.l)
  }

  function FromBits(x: Bits): Key64
    requires |x| == 64
  {
    Half(BitsToWord(x[..32]), BitsToWord(x[32..]))
  }

  lemma WordReadsBits(x: Bits)
    requires |x| == 32
    ensures WordToBits(BitsToWord(x)) == x
  {
    hide ByteToBits, BitsToByte;
    ByteReadsBits(x[..8]);
    ByteReadsBits(x[8..16]);
    ByteReadsBits(x[16..24]);
    ByteReadsBits(x[24..]);
  }

  lemma ReadsBits(x: Bits)
    requires |x| == 64
    ensures ToBits(FromBits(x)) == x
  {
    hide WordToBits, BitsToWord;
    WordReadsBits(x[..32]);
    WordReadsBits(x[32..]);
  }

  // ---------- Shifts ----------

  /** x << n and x >> n: bits fall out at one end, and zeros come in at the other. */
  function ShiftLeft(x: Bits, n: nat): (r: Bits)
    requires n <= |x|
    ensures |r| == |x|
  {
    x[n..] + Falses(n)
  }

  function ShiftRight(x: Bits, n: nat): (r: Bits)
    requires n <= |x|
    ensures |r| == |x|
  {
    Falses(n) + x[..|x| - n]
  }

  function OrBits(x: Bits, y: Bits): (r: Bits)
    requires |x| == |y|
    ensures |r| == |x|
  {
    seq(|x|, i requires 0 <= i < |x| => x[i] || y[i])
  }

  /** (x << n) | (y >> (64 - n)). */
  function Funnel(x: Key64, y: Key64, n: nat): Key64
    requires n < 64
  {
    if n == 0 then x else FromBits(OrBits(ShiftLeft(ToBits(x), n), ShiftRight(ToBits(y), 64 - n)))
  }

  /** The high half of k rotated left by n bits. */
  function Hi(k: Wide, n: nat): Key64
    requires n < 128
  {
    if n < 64 then Funnel(k.l, k.r, n) else Funnel(k.r, k.l, n - 64)
  }

  /** The low half of k rotated left by n bits. */
  function Lo(k: Wide, n: nat): Key64
    requires n < 128
  {
    if n < 64 then Funnel(k.r, k.l, n) else Funnel(k.l, k.r, n - 64)
  }

  function Rotated(x: Bits, n: nat): (r: Bits)
    requires n <= |x|
    ensures |r| == |x|
  {
    x[n..] + x[..n]
  }

  function WideBits(k: Wide): (r: Bits)
    ensures |r| == 128
  {
    ToBits(k.l) + ToBits(k.r)
  }

  lemma FunnelBits(x: Key64, y: Key64, n: nat)
    requires n < 64
    ensures ToBits(Funnel(x, y, n)) == ToBits(x)[n..] + ToBits(y)[..n]
  {
    hide ToBits, FromBits;
    var a, b := ToBits(x), ToBits(y);
    if n > 0 {
      var or := OrBits(ShiftLeft(a, n), ShiftRight(b, 64 - n));
      ReadsBits(or);
      assert or == a[n..] + b[..n];
    } else {
      assert a[0..] + b[..0] == a;
    }
  }

  /** The two halves are those of the 128 bits rotated left by n. */
  lemma HalvesRotate(k: Wide, n: nat)
    requires n < 128
    ensures ToBits(Hi(k, n)) + ToBits(Lo(k, n)) == Rotated(WideBits(k), n)
  {
    hide ToBits, Funnel;
    var a, b := ToBits(k.l), ToBits(k.r);
    if n < 64 {
      FunnelBits(k.l, k.r, n);
      FunnelBits(k.r, k.l, n);
      assert Rotated(a + b, n) == (a[n..] + b[..n]) + (b[n..] + a[..n]);
    } else {
      var m := n - 64;
      FunnelBits(k.r, k.l, m);
      FunnelBits(k.l, k.r, m);
      assert Rotated(a + b, n) == (b[m..] + a[..m]) + (a[m..] + b[..m]);
    }
  }

  // ---------- Addresses ----------

  /** Where subkey i is stored: as it is, or counted from the end. */
  function Address(i: nat, size: nat, forward: bool): int {
    var a := if forward then 0 else size - 1;
    a + i + if forward then 0 else -2 * i
  }

  /** The subkeys in their own order, wherever they are stored. */
  function Logical(ks: seq<Key64>, forward: bool): (r: seq<Key64>)
    ensures |r| == |ks|
  {
    if forward then ks else seq(|ks|, i requires 0 <= i < |ks| => ks[|ks| - 1 - i])
  }

  lemma StoreOne(ks: seq<Key64>, forward: bool, i: nat, v: Key64)
    requires i < |ks|
    ensures 0 <= Address(i, |ks|, forward) < |ks|
    ensures Logical(ks[Address(i, |ks|, forward) := v], forward) == Logical(ks, forward)[i := v]
  {
  }

  method Store(ks: array<Key64>, forward: bool, i: nat, v: Key64)
    requires i < ks.Length
    modifies ks
    ensures Logical(ks[..], forward) == Logical(old(ks[..]), forward)[i := v]
  {
    StoreOne(ks[..], forward, i, v);
    ghost var before := ks[..];
    ks[Address(i, ks.Length, forward)] := v;
    assert ks[..] == before[Address(i, ks.Length, forward) := v];
  }

  // ---------- The schedules ----------

  datatype Which = Low | High | Both
  datatype Source = KL | KR | KA | KB
  datatype Sources = Sources(kl: Wide, kr: Wide, ka: Wide, kb: Wide)

  function Pick(k: Sources, s: Source): Wide {
    match s case KL => k.kl case KR => k.kr case KA => k.ka case KB => k.kb
  }

  /** One KS_ROUND: positions i and i + 1 take the low and the high half, or one of them, of a key rotated by n bits. */
  datatype Entry = Entry(i: nat, n: nat, which: Which, source: Source)

  const TABLE128: seq<Entry> := [
    Entry(0, 0, Both, KL), Entry(4, 15, Both, KL), Entry(10, 45, Both, KL), Entry(12, 60, Low, KL),
    Entry(16, 77, Both, KL),
    Entry(18, 94, Both, KL), Entry(22, 111, Both, KL), Entry(2, 0, Both, KA), Entry(6, 15, Both, KA),
    Entry(8, 30, Both, KA),
    Entry(12, 45, High, KA), Entry(14, 60, Both, KA), Entry(20, 94, Both, KA), Entry(24, 47, Both, KA)
  ]

  const TABLE256: seq<Entry> := [
    Entry(0, 0, Both, KL), Entry(12, 45, Both, KL), Entry(16, 60, Both, KL), Entry(22, 77, Both, KL),
    Entry(30, 111, Both, KL),
    Entry(4, 15, Both, KR), Entry(8, 30, Both, KR), Entry(18, 60, Both, KR), Entry(26, 94, Both, KR),
    Entry(6, 15, Both, KA),
    Entry(14, 45, Both, KA), Entry(24, 77, Both, KA), Entry(28, 94, Both, KA), Entry(2, 0, Both, KB),
    Entry(10, 30, Both, KB),
    Entry(20, 60, Both, KB), Entry(32, 47, Both, KB)
  ]

  predicate Fits(t: seq<Entry>, size: nat) {
    forall j :: 0 <= j < |t| ==> t[j].i + 1 < size && t[j].n < 128
  }

  predicate Writes(e: Entry, p: nat) {
    (p == e.i && e.which != High) || (p == e.i + 1 && e.which != Low)
  }

  /** What an entry makes of the subkeys; on a little-endian machine the low half comes first. */
  function Apply(w: seq<Key64>, e: Entry, k: Sources): (r: seq<Key64>)
    requires e.i + 1 < |w| && e.n < 128
    ensures |r| == |w|
  {
    seq(|w|, p requires 0 <= p < |w| =>
      if !Writes(e, p) then w[p] else if p == e.i then Lo(Pick(k, e.source), e.n) else Hi(Pick(k, e.source), e.n))
  }

  function ApplyAll(w: seq<Key64>, t: seq<Entry>, k: Sources): (r: seq<Key64>)
    requires Fits(t, |w|)
    ensures |r| == |w|
  {
    if t == [] then w else Apply(ApplyAll(w, t[..|t|-1], k), t[|t|-1], k)
  }

  /** A position that some entry writes does not depend on what was there before. */
  lemma {:induction false} Settled(w: seq<Key64>, w': seq<Key64>, t: seq<Entry>, k: Sources, p: nat, j: nat)
    requires |w| == |w'| && Fits(t, |w|) && p < |w| && j < |t| && Writes(t[j], p)
    ensures ApplyAll(w, t, k)[p] == ApplyAll(w', t, k)[p]
    decreases |t|
  {
    hide Lo, Hi;
    var n := |t| - 1;
    if !Writes(t[n], p) {
      assert t[..n][j] == t[j];
      Settled(w, w', t[..n], k, p, j);
    }
  }

  predicate IsWritten(t: seq<Entry>, p: nat) {
    exists j :: 0 <= j < |t| && Writes(t[j], p)
  }

  predicate Covers(t: seq<Entry>, size: nat) {
    forall p :: 0 <= p < size ==> IsWritten(t, p)
  }

  /** The subkeys a table sets up, whatever the memory held. */
  function Subkeys(t: seq<Entry>, size: nat, k: Sources): (r: seq<Key64>)
    requires Fits(t, size)
    ensures |r| == size
  {
    ApplyAll(seq(size, _ => NO_BITS), t, k)
  }

  lemma AllSettled(w: seq<Key64>, t: seq<Entry>, k: Sources)
    requires Fits(t, |w|) && Covers(t, |w|)
    ensures ApplyAll(w, t, k) == Subkeys(t, |w|, k)
  {
    hide ApplyAll, Fits;
    var zero: seq<Key64> := seq(|w|, _ => NO_BITS);
    forall p | 0 <= p < |w| ensures ApplyAll(w, t, k)[p] == ApplyAll(zero, t, k)[p] {
      assert IsWritten(t, p);
      var j :| 0 <= j < |t| && Writes(t[j], p);
      Settled(w, zero, t, k, p, j);
    }
  }

  /** What an entry leaves at a position that it writes. */
  function Wrote(e: Entry, k: Sources, p: nat): Key64
    requires e.n < 128 && Writes(e, p)
  {
    if p == e.i then Lo(Pick(k, e.source), e.n) else Hi(Pick(k, e.source), e.n)
  }

  /** A position holds what the last entry that writes it has left there. */
  lemma {:induction false} LastWriter(w: seq<Key64>, t: seq<Entry>, k: Sources, p: nat, j: nat)
    requires Fits(t, |w|) && p < |w| && j < |t| && Writes(t[j], p) && forall i :: j < i < |t| ==> !Writes(t[i], p)
    ensures ApplyAll(w, t, k)[p] == Wrote(t[j], k, p)
    decreases |t|
  {
    hide Lo, Hi;
    var n := |t| - 1;
    if j < n {
      LastWriter(w, t[..n], k, p, j);
    }
  }

  lemma Covers128()
    ensures Fits(TABLE128, 26) && Covers(TABLE128, 26)
  {
    forall p | 0 <= p < 26 ensures IsWritten(TABLE128, p) {
      Find128(p);
    }
  }

  lemma Find128(p: nat)
    requires p < 26
    ensures IsWritten(TABLE128, p)
  {
    var t := TABLE128;
    if p < 2 {
      assert Writes(t[0], p);
    } else if p < 4 {
      assert Writes(t[7], p);
    } else if p < 6 {
      assert Writes(t[1], p);
    } else if p < 8 {
      assert Writes(t[8], p);
    } else if p < 10 {
      assert Writes(t[9], p);
    } else if p < 12 {
      assert Writes(t[2], p);
    } else if p < 14 {
      assert Writes(t[3], p) || Writes(t[10], p);
    } else if p < 16 {
      assert Writes(t[11], p);
    } else if p < 18 {
      assert Writes(t[4], p);
    } else if p < 20 {
      assert Writes(t[5], p);
    } else if p < 22 {
      assert Writes(t[12], p);
    } else if p < 24 {
      assert Writes(t[6], p);
    } else {
      assert Writes(t[13], p);
    }
  }

  lemma Covers256()
    ensures Fits(TABLE256, 34) && Covers(TABLE256, 34)
  {
    forall p | 0 <= p < 34 ensures IsWritten(TABLE256, p) {
      Find256(p);
    }
  }

  lemma Find256(p: nat)
    requires p < 34
    ensures IsWritten(TABLE256, p)
  {
    var t := TABLE256;
    if p < 2 {
      assert Writes(t[0], p);
    } else if p < 4 {
      assert Writes(t[13], p);
    } else if p < 6 {
      assert Writes(t[5], p);
    } else if p < 8 {
      assert Writes(t[9], p);
    } else if p < 10 {
      assert Writes(t[6], p);
    } else if p < 12 {
      assert Writes(t[14], p);
    } else if p < 14 {
      assert Writes(t[1], p);
    } else if p < 16 {
      assert Writes(t[10], p);
    } else if p < 18 {
      assert Writes(t[2], p);
    } else if p < 20 {
      assert Writes(t[7], p);
    } else if p < 22 {
      assert Writes(t[15], p);
    } else if p < 24 {
      assert Writes(t[3], p);
    } else if p < 26 {
      assert Writes(t[11], p);
    } else if p < 28 {
      assert Writes(t[8], p);
    } else if p < 30 {
      assert Writes(t[12], p);
    } else if p < 32 {
      assert Writes(t[4], p);
    } else {
      assert Writes(t[16], p);
    }
  }

  method KsRound(ks: array<Key64>, forward: bool, e: Entry, k: Sources)
    requires e.i + 1 < ks.Length && e.n < 128
    modifies ks
    ensures Logical(ks[..], forward) == Apply(Logical(old(ks[..]), forward), e, k)
  {
    hide Logical, Lo, Hi;
    ghost var w := Logical(ks[..], forward);
    if e.which != High {
      Store(ks, forward, e.i, Lo(Pick(k, e.source), e.n));
    }
    if e.which != Low {
      Store(ks, forward, e.i + 1, Hi(Pick(k, e.source), e.n));
    }
    assert Logical(ks[..], forward) == Apply(w, e, k);
  }

  /** Places all the subkeys of a table, in either order. */
  method PlaceAll(ks: array<Key64>, forward: bool, t: seq<Entry>, k: Sources)
    requires Fits(t, ks.Length) && Covers(t, ks.Length)
    modifies ks
    ensures Logical(ks[..], forward) == Subkeys(t, ks.Length, k)
  {
    hide Logical, Apply, Covers;
    ghost var w := Logical(ks[..], forward);
    for i := 0 to |t|
      invariant Logical(ks[..], forward) == ApplyAll(w, t[..i], k)
    {
      KsRound(ks, forward, t[i], k);
      assert t[..i + 1][..i] == t[..i];
    }
    assert t[..|t|] == t;
    AllSettled(w, t, k);
  }

  // ---------- UncheckedSetKey ----------

  function XorWide(x: Wide, y: Wide): Wide {
    Wide(XorHalf(x.l, y.l), XorHalf(x.r, y.r))
  }

  function NotWord(x: Word): Word {
    Word(!x.b3, !x.b2, !x.b1, !x.b0)
  }

  const SIGMA1: Half := Half(Word(0xA0, 0x9E, 0x66, 0x7F), Word(0x3B, 0xCC, 0x90, 0x8B))
  const SIGMA2: Half := Half(Word(0xB6, 0x7A, 0xE8, 0x58), Word(0x4C, 0xAA, 0x73, 0xB2))
  const SIGMA3: Half := Half(Word(0xC6, 0xEF, 0x37, 0x2F), Word(0xE9, 0x4F, 0x82, 0xBE))
  const SIGMA4: Half := Half(Word(0x54, 0xFF, 0x53, 0xA5), Word(0xF1, 0xD3, 0x6F, 0x1C))
  const SIGMA5: Half := Half(Word(0x10, 0xE5, 0x27, 0xFA), Word(0xDE, 0x68, 0x2D, 0x1D))
  const SIGMA6: Half := Half(Word(0xB0, 0x56, 0x88, 0xC2), Word(0xB3, 0xE6, 0xC1, 0xFD))

  /** DOUBLE_ROUND on a key. */
  function Stir(t: Tables, k: Wide, k1: Half, k2: Half): Wide {
    var r := XorHalf(k.r, FastRound(t, k.l, k1));
    Wide(XorHalf(k.l, FastRound(t, r, k2)), r)
  }

  /** The four quantities the subkeys are rotations of; a short key has no right half. */
  function SourcesOf(t: Tables, kl: Wide, kr: Wide, short: bool): Sources {
    var start := if short then kl else XorWide(kr, kl);
    var ka := Stir(t, XorWide(Stir(t, start, SIGMA1, SIGMA2), kl), SIGMA3, SIGMA4);
    Sources(kl, kr, ka, if short then ka else Stir(t, XorWide(ka, kr), SIGMA5, SIGMA6))
  }

  /** A key of 16, 24 or 32 bytes. */
  datatype Key = Key128(l: Wide) | Key192(l: Wide, r64: Key64) | Key256(l: Wide, r128: Wide)

  function Right(key: Key): Wide {
    match key {
      case Key128(l) => Wide(NO_BITS, NO_BITS)
      case Key192(l, r) => Wide(r, Half(NotWord(r.h), NotWord(r.l)))
      case Key256(l, r) => r
    }
  }

  function Rounds(key: Key): nat {
    if key.Key128? then 3 else 4
  }

  function ScheduleOf(t: Tables, key: Key): (r: seq<Key64>)
    ensures |r| == 8 * Rounds(key) + 2
  {
    var k := SourcesOf(t, key.l, Right(key), key.Key128?);
    Covers128();
    Covers256();
    if key.Key128? then Subkeys(TABLE128, 26, k) else Subkeys(TABLE256, 34, k)
  }

  /** The same schedule for both directions; for decryption it is stored backwards. */
  method UncheckedSetKey(t: Tables, key: Key, forward: bool) returns (ks: array<Key64>)
    ensures fresh(ks) && Logical(ks[..], forward) == ScheduleOf(t, key)
  {
    hide Logical, SourcesOf, Subkeys, Fits, Covers;
    var k := SourcesOf(t, key.l, Right(key), key.Key128?);
    Covers128();
    Covers256();
    ks := new Key64[8 * Rounds(key) + 2](_ => NO_BITS);
    if key.Key128? {
      PlaceAll(ks, forward, TABLE128, k);
    } else {
      PlaceAll(ks, forward, TABLE256, k);
    }
  }
}
