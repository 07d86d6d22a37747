/** Camellia: decryption is the same network run on the subkeys stored backwards. */
module Camellia {
  import opened Words
  import opened CamelliaRound
  import opened CamelliaKeys

  datatype Block = Block(l: Half, r: Half)

  function Swap(s: Block): Block {
    Block(s.r, s.l)
  }

  // ---------- Layers ----------

  /** FL on the left half, and its inverse on the right. */
  function FL(x: Half, k: Half): Half {
    var l := Xor(x.l, RotL1(And(x.h, k.h)));
    Half(Xor(x.h, Or(l, k.l)), l)
  }

  function FLInverse(x: Half, k: Half): Half {
    var h := Xor(x.h, Or(x.l, k.l));
    Half(h, Xor(x.l, RotL1(And(h, k.h))))
  }

  lemma FLUndone(x: Half, k: Half)
    ensures FLInverse(FL(x, k), k) == x && FL(FLInverse(x, k), k) == x
  {
    hide Xor, And, Or, RotL1;
    var l := Xor(x.l, RotL1(And(x.h, k.h)));
    XorTwice(x.h, Or(l, k.l));
    XorTwice(x.l, RotL1(And(x.h, k.h)));
    var h := Xor(x.h, Or(x.l, k.l));
    XorTwice(x.l, RotL1(And(h, k.h)));
    XorTwice(x.h, Or(x.l, k.l));
  }

  function Whiten(s: Block, kl: Half, kr: Half): Block {
    Block(XorHalf(s.l, kl), XorHalf(s.r, kr))
  }

  /** Two rounds. */
  function TwoRounds(t: Tables, s: Block, kl: Half, kr: Half): Block {
    var r := XorHalf(s.r, FastRound(t, s.l, kl));
    Block(XorHalf(s.l, FastRound(t, r, kr)), r)
  }

  function FLLayer(s: Block, kl: Half, kr: Half): Block {
    Block(FL(s.l, kl), FLInverse(s.r, kr))
  }

  datatype Kind = White | Feistel | Mixing

  /**
   The layer that the g-th pair of subkeys belongs to: rounds, with a mixing layer after every six, between two
   whitenings.
   */
  function KindOf(g: nat, groups: nat): Kind {
    if g == 0 || g + 1 == groups then White else if g % 4 == 0 then Mixing else Feistel
  }

  function Layer(t: Tables, kind: Kind, s: Block, kl: Half, kr: Half): Block {
    match kind {
      case White => Whiten(s, kl, kr)
      case Feistel => TwoRounds(t, s, kl, kr)
      case Mixing => FLLayer(s, kl, kr)
    }
  }

  /** With its two subkeys exchanged, a layer undoes itself on exchanged halves. */
  lemma LayerUndone(t: Tables, kind: Kind, s: Block, kl: Half, kr: Half)
    ensures Layer(t, kind, Swap(Layer(t, kind, s, kl, kr)), kr, kl) == Swap(s)
  {
    hide XorHalf, FL, FLInverse, FastRound;
    match kind {
      case White =>
        XorHalfTwice(s.l, kl);
        XorHalfTwice(s.r, kr);
      case Feistel =>
        var r := XorHalf(s.r, FastRound(t, s.l, kl));
        XorHalfTwice(s.l, FastRound(t, r, kr));
        XorHalfTwice(s.r, FastRound(t, s.l, kl));
      case Mixing =>
        FLUndone(s.l, kl);
        FLUndone(s.r, kr);
    }
  }

  // ---------- The network ----------

  /** The subkeys of group g as they lie in memory: the right one first. */
  function KL(ks: seq<Key64>, g: nat): Half
    requires 2 * g + 1 < |ks|
  {
    ks[2 * g + 1]
  }

  function KR(ks: seq<Key64>, g: nat): Half
    requires 2 * g + 1 < |ks|
  {
    ks[2 * g]
  }

  /** After the first n layers. */
  function Run(t: Tables, ks: seq<Key64>, s: Block, n: nat): Block
    requires 2 * n <= |ks|
  {
    if n == 0 then s
    else Layer(t, KindOf(n - 1, |ks| / 2), Run(t, ks, s, n - 1), KL(ks, n - 1), KR(ks, n - 1))
  }

  function Crypt(t: Tables, ks: seq<Key64>, s: Block): Block {
    Swap(Run(t, ks, s, |ks| / 2))
  }

  predicate Mirrored(e: seq<Key64>, d: seq<Key64>) {
    |e| == |d| && forall i :: 0 <= i < |e| ==> d[i] == e[|e| - 1 - i]
  }

  /** The layers of the mirrored schedule take back those of the other, one after the other. */
  lemma {:induction false} RunBack(t: Tables, e: seq<Key64>, d: seq<Key64>, s: Block, groups: nat, m: nat)
    requires Mirrored(e, d) && |e| == 2 * groups && groups % 4 == 1 && m <= groups
    ensures Run(t, d, Crypt(t, e, s), m) == Swap(Run(t, e, s, groups - m))
    decreases m
  {
    hide Layer;
    if m > 0 {
      RunBack(t, e, d, s, groups, m - 1);
      var g := groups - m;
      assert KL(d, m - 1) == KR(e, g) && KR(d, m - 1) == KL(e, g);
      SameKind(m - 1, groups);
      LayerUndone(t, KindOf(g, groups), Run(t, e, s, g), KL(e, g), KR(e, g));
    }
  }

  lemma SameKind(g: nat, groups: nat)
    requires g < groups && groups % 4 == 1
    ensures KindOf(groups - 1 - g, groups) == KindOf(g, groups)
  {
  }

  /** Under every key, the decryption object undoes the encryption object on every block. */
  lemma DecryptionUndoes(t: Tables, key: Key, e: seq<Key64>, d: seq<Key64>, s: Block)
    requires Logical(e, true) == ScheduleOf(t, key) && Logical(d, false) == ScheduleOf(t, key)
    ensures Crypt(t, d, Crypt(t, e, s)) == s
  {
    hide ScheduleOf, Run;
    var groups := 4 * Rounds(key) + 1;
    assert Mirrored(e, d) by {
      forall i | 0 <= i < |e| ensures d[i] == e[|e| - 1 - i] {
        assert Logical(d, false)[|e| - 1 - i] == d[i];
      }
    }
    RunBack(t, e, d, s, groups, groups);
    NoLayers(t, e, s);
  }

  lemma NoLayers(t: Tables, ks: seq<Key64>, s: Block)
    ensures Run(t, ks, s, 0) == s
  {
  }

  // ---------- ProcessAndXorBlock ----------

  /** Two rounds, either of which may be done the slow way. */
  method DoubleRound(t: Tables, s: Block, kl: Half, kr: Half, slow1: bool, slow2: bool) returns (s': Block)
    requires Related(t)
    ensures s' == Layer(t, Feistel, s, kl, kr)
  {
    hide SlowRound, FastRound, XorHalf, Related;
    SlowIsFast(t, s.l, kl);
    var delta := if slow1 then SlowRound(t, s.l, kl) else FastRound(t, s.l, kl);
    var r := XorHalf(s.r, delta);
    SlowIsFast(t, r, kr);
    delta := if slow2 then SlowRound(t, r, kr) else FastRound(t, r, kr);
    s' := Block(XorHalf(s.l, delta), r);
  }

  /** The network as it is run: the first two rounds and the last one are done the slow way. */
  method ProcessBlock(t: Tables, ks: array<Key64>, rounds: nat, input: Block) returns (output: Block)
    requires Related(t) && rounds >= 1 && ks.Length == 8 * rounds + 2
    ensures output == Crypt(t, ks[..], input)
  {
    hide Layer, KL, KR, Related;
    ghost var k := ks[..];
    var s := Layer(t, White, input, KL(ks[..], 0), KR(ks[..], 0));
    s := DoubleRound(t, s, KL(ks[..], 1), KR(ks[..], 1), true, true);
    assert s == Run(t, k, input, 2) by {
      assert Run(t, k, input, 1) == Layer(t, White, Run(t, k, input, 0), KL(k, 0), KR(k, 0));
    }
    var i, base := rounds - 1, 0;
    while i > 0
      invariant i <= rounds - 1 && base == 4 * (rounds - 1 - i) && s == Run(t, k, input, base + 2)
    {
      s := MiddleLayers(t, ks, rounds, s, base, input);
      base := base + 4;
      i := i - 1;
    }
    s := DoubleRound(t, s, KL(ks[..], base + 2), KR(ks[..], base + 2), false, false);
    NextLayer(t, k, input, base + 2);
    s := DoubleRound(t, s, KL(ks[..], base + 3), KR(ks[..], base + 3), false, true);
    NextLayer(t, k, input, base + 3);
    s := Layer(t, White, s, KL(ks[..], base + 4), KR(ks[..], base + 4));
    NextLayer(t, k, input, base + 4);
    output := Swap(s);
  }

  /** One turn of the loop: four rounds, a mixing layer, two rounds. */
  method MiddleLayers(t: Tables, ks: array<Key64>, rounds: nat, s: Block, base: nat, ghost input: Block)
    returns (s': Block)
    requires Related(t) && ks.Length == 8 * rounds + 2 && base % 4 == 0 && base + 4 <= 4 * (rounds - 1)
    requires s == Run(t, ks[..], input, base + 2)
    ensures s' == Run(t, ks[..], input, base + 6)
  {
    hide Layer, KL, KR, Related, Run;
    ghost var k := ks[..];
    s' := DoubleRound(t, s, KL(ks[..], base + 2), KR(ks[..], base + 2), false, false);
    NextLayer(t, k, input, base + 2);
    s' := DoubleRound(t, s', KL(ks[..], base + 3), KR(ks[..], base + 3), false, false);
    NextLayer(t, k, input, base + 3);
    s' := Layer(t, Mixing, s', KL(ks[..], base + 4), KR(ks[..], base + 4));
    NextLayer(t, k, input, base + 4);
    s' := DoubleRound(t, s', KL(ks[..], base + 5), KR(ks[..], base + 5), false, false);
    NextLayer(t, k, input, base + 5);
  }

  lemma NextLayer(t: Tables, ks: seq<Key64>, s: Block, g: nat)
    requires 2 * g + 1 < |ks|
    ensures Run(t, ks, s, g + 1) == Layer(t, KindOf(g, |ks| / 2), Run(t, ks, s, g), KL(ks, g), KR(ks, g))
  {
  }

  /** Keys set for both directions, and a block encrypted and decrypted again. */
  method EncryptThenDecrypt(t: Tables, key: Key, input: Block) returns (output: Block)
    requires Related(t)
    ensures output == input
  {
    hide Logical, ScheduleOf, Crypt, Related;
    var e := UncheckedSetKey(t, key, true);
    var d := UncheckedSetKey(t, key, false);
    var c := ProcessBlock(t, e, Rounds(key), input);
    output := ProcessBlock(t, d, Rounds(key), c);
    DecryptionUndoes(t, key, e[..], d[..], input);
  }
}
