/** Blowfish: the subkeys are made by the cipher itself, and decryption runs it on them in the opposite order. */
module Blowfish {
  import opened Words

  datatype Block = Block(l: Word, r: Word)

  const ROUNDS: nat := 16

  /** The round function looks four bytes up in the boxes. */
  type RoundFunction = (seq<Word>, Word) -> Word

  /** After n rounds on subkeys p: each changes one half by the other and a subkey. */
  function Run(F: RoundFunction, p: seq<Word>, s: seq<Word>, b: Block, n: nat): Block
    requires |p| == ROUNDS + 2 && n <= ROUNDS
  {
    if n == 0 then Block(Xor(b.l, p[0]), b.r)
    else
      var x := Run(F, p, s, b, n - 1);
      if n % 2 == 1 then x.(r := Xor(x.r, Xor(F(s, x.l), p[n])))
      else x.(l := Xor(x.l, Xor(F(s, x.r), p[n])))
  }

  /** All rounds, the last subkey, and the halves exchanged. */
  function Crypt(F: RoundFunction, p: seq<Word>, s: seq<Word>, b: Block): Block
    requires |p| == ROUNDS + 2
  {
    var x := Run(F, p, s, b, ROUNDS);
    Block(Xor(x.r, p[ROUNDS + 1]), x.l)
  }

  /** What the code does for a block, in crypt_block and in ProcessAndXorBlock alike. */
  method CryptBlock(F: RoundFunction, p: array<Word>, s: seq<Word>, input: Block) returns (output: Block)
    requires p.Length == ROUNDS + 2
    ensures output == Crypt(F, p[..], s, input)
  {
    hide Xor;
    var left, right := Xor(input.l, p[0]), input.r;
    for i := 0 to ROUNDS / 2
      invariant Block(left, right) == Run(F, p[..], s, input, 2 * i)
    {
      right := Xor(right, Xor(F(s, left), p[2 * i + 1]));
      left := Xor(left, Xor(F(s, right), p[2 * i + 2]));
    }
    right := Xor(right, p[ROUNDS + 1]);
    output := Block(right, left);
  }

  function Reversed(p: seq<Word>): (r: seq<Word>)
    ensures |r| == |p|
  {
    seq(|p|, i requires 0 <= i < |p| => p[|p| - 1 - i])
  }

  function Exchanged(b: Block): Block {
    Block(b.r, b.l)
  }

  /** On reversed subkeys, n rounds take back the last n, up to an exchange of the halves. */
  lemma {:induction false} RunBack(F: RoundFunction, p: seq<Word>, s: seq<Word>, b: Block, n: nat)
    requires |p| == ROUNDS + 2 && n <= ROUNDS
    ensures Run(F, Reversed(p), s, Crypt(F, p, s, b), n) == Exchanged(Run(F, p, s, b, ROUNDS - n))
    decreases n
  {
    hide Xor;
    var q, c := Reversed(p), Crypt(F, p, s, b);
    if n == 0 {
      XorTwice(Run(F, p, s, b, ROUNDS).r, p[ROUNDS + 1]);
    } else {
      RunBack(F, p, s, b, n - 1);
      var m := ROUNDS - n + 1;
      assert q[n] == p[m];
      var before := Run(F, p, s, b, m - 1);
      OneRoundBack(F, s, before, p[m], m);
    }
  }

  lemma OneRoundBack(F: RoundFunction, s: seq<Word>, x: Block, k: Word, m: nat)
    ensures Xor(Xor(x.r, Xor(F(s, x.l), k)), Xor(F(s, x.l), k)) == x.r
    ensures Xor(Xor(x.l, Xor(F(s, x.r), k)), Xor(F(s, x.r), k)) == x.l
  {
    hide Xor;
    XorTwice(x.r, Xor(F(s, x.l), k));
    XorTwice(x.l, Xor(F(s, x.r), k));
  }

  /** Decryption undoes encryption on every block. */
  lemma ReversedUndoes(F: RoundFunction, p: seq<Word>, s: seq<Word>, b: Block)
    requires |p| == ROUNDS + 2
    ensures Crypt(F, Reversed(p), s, Crypt(F, p, s, b)) == b
  {
    RunBack(F, p, s, b, ROUNDS);
    hide Xor;
    XorTwice(b.l, p[0]);
    assert Run(F, p, s, b, 0) == Block(Xor(b.l, p[0]), b.r);
  }

  // ---------- UncheckedSetKey ----------

  const ZERO: Word := Word(0, 0, 0, 0)

  /** Four bytes of the key, which is read round and round. */
  function KeyWord(key: seq<bv8>, i: nat): Word
    requires |key| > 0
  {
    Word(key[4 * i % |key|], key[(4 * i + 1) % |key|], key[(4 * i + 2) % |key|], key[(4 * i + 3) % |key|])
  }

  function Keyed(init: seq<Word>, key: seq<bv8>): (r: seq<Word>)
    requires |key| > 0
    ensures |r| == |init|
  {
    seq(|init|, i requires 0 <= i < |init| => Xor(init[i], KeyWord(key, i)))
  }

  /** Exclusive-ors the key into the subkeys, byte after byte. */
  method XorKey(p: array<Word>, key: seq<bv8>)
    requires |key| > 0
    modifies p
    ensures p[..] == Keyed(old(p[..]), key)
  {
    hide Xor;
    var j := 0;
    for i := 0 to p.Length
      invariant j == 4 * i
      invariant forall k :: 0 <= k < i ==> p[k] == Xor(old(p[k]), KeyWord(key, k))
      invariant forall k :: i <= k < p.Length ==> p[k] == old(p[k])
    {
      var data := Word(key[j % |key|], key[(j + 1) % |key|], key[(j + 2) % |key|], key[(j + 3) % |key|]);
      j := j + 4;
      p[i] := Xor(p[i], data);
    }
  }

  function PutPair(a: seq<Word>, m: nat, b: Block): (r: seq<Word>)
    requires 2 * m + 1 < |a|
    ensures |r| == |a|
  {
    a[2 * m := b.l][2 * m + 1 := b.r]
  }

  function PairBefore(a: seq<Word>, m: nat, first: Block): Block
    requires 2 * m <= |a|
  {
    if m == 0 then first else Block(a[2 * m - 2], a[2 * m - 1])
  }

  /** The subkeys after n pairs of them have been replaced, each by the pair before it enciphered. */
  function SubkeysAfter(F: RoundFunction, p: seq<Word>, s: seq<Word>, n: nat): (r: seq<Word>)
    requires |p| == ROUNDS + 2 && 2 * n <= |p|
    ensures |r| == |p|
  {
    if n == 0 then p else
      var q := SubkeysAfter(F, p, s, n - 1);
      PutPair(q, n - 1, Crypt(F, q, s, PairBefore(q, n - 1, Block(ZERO, ZERO))))
  }

  /**
   The boxes after n pairs of entries have been replaced in the same way, on finished subkeys but with the boxes as
   they then are.
   */
  function BoxesAfter(F: RoundFunction, p: seq<Word>, s: seq<Word>, n: nat): (r: seq<Word>)
    requires |p| == ROUNDS + 2 && 2 * n <= |s|
    ensures |r| == |s|
  {
    if n == 0 then s else
      var q := BoxesAfter(F, p, s, n - 1);
      PutPair(q, n - 1, Crypt(F, p, q, PairBefore(q, n - 1, Block(p[ROUNDS], p[ROUNDS + 1]))))
  }

  /**
   The subkeys in the end: each pair is the pair before it, or zeros, enciphered under the subkeys of which those
   before the pair are replaced and the others are not yet.
   */
  lemma SubkeysPublished(F: RoundFunction, p: seq<Word>, s: seq<Word>, m: nat)
    requires |p| == ROUNDS + 2 && m < 9
    ensures var r := SubkeysAfter(F, p, s, 9);
            Block(r[2 * m], r[2 * m + 1]) ==
            Crypt(F, r[..2 * m] + p[2 * m..], s,
                  if m == 0 then Block(Word(0, 0, 0, 0), Word(0, 0, 0, 0)) else Block(r[2 * m - 2], r[2 * m - 1]))
  {
    hide Crypt;
    PairsStay(F, p, s, 9, m);
    var r, q := SubkeysAfter(F, p, s, 9), SubkeysAfter(F, p, s, m);
    assert q == q[..2 * m] + q[2 * m..];
    assert m > 0 ==> r[2 * m - 2] == r[..2 * m][2 * m - 2] && r[2 * m - 1] == r[..2 * m][2 * m - 1];
  }

  /** What n pairs leave: the pairs as they will be, and the rest as it was; and pair m comes from the one before it. */
  lemma {:induction false} PairsStay(F: RoundFunction, p: seq<Word>, s: seq<Word>, n: nat, m: nat)
    requires |p| == ROUNDS + 2 && m < n <= 9
    ensures var r, q := SubkeysAfter(F, p, s, n), SubkeysAfter(F, p, s, m);
            && r[2 * n..] == p[2 * n..] && q[2 * m..] == p[2 * m..] && r[..2 * m] == q[..2 * m]
            && Block(r[2 * m], r[2 * m + 1]) == Crypt(F, q, s, PairBefore(q, m, Block(ZERO, ZERO)))
    decreases n
  {
    hide Crypt;
    Untouched(F, p, s, n);
    Untouched(F, p, s, m);
    if m < n - 1 {
      PairsStay(F, p, s, n - 1, m);
    }
  }

  lemma {:induction false} Untouched(F: RoundFunction, p: seq<Word>, s: seq<Word>, n: nat)
    requires |p| == ROUNDS + 2 && n <= 9
    ensures SubkeysAfter(F, p, s, n)[2 * n..] == p[2 * n..]
  {
    hide Crypt;
    if n > 0 {
      Untouched(F, p, s, n - 1);
      assert SubkeysAfter(F, p, s, n)[2 * n..] == SubkeysAfter(F, p, s, n - 1)[2 * n - 2..][2..];
    }
  }

  /** The boxes in the end, in the same way; before the first pair come the last two subkeys. */
  lemma BoxesPublished(F: RoundFunction, p: seq<Word>, s: seq<Word>, m: nat)
    requires |p| == ROUNDS + 2 && |s| == 1024 && m < 512
    ensures var r := BoxesAfter(F, p, s, 512);
            Block(r[2 * m], r[2 * m + 1]) ==
            Crypt(F, p, r[..2 * m] + s[2 * m..],
                  if m == 0 then Block(p[16], p[17]) else Block(r[2 * m - 2], r[2 * m - 1]))
  {
    hide Crypt;
    BoxesStay(F, p, s, 512, m);
    var r, q := BoxesAfter(F, p, s, 512), BoxesAfter(F, p, s, m);
    assert q == q[..2 * m] + q[2 * m..];
    assert m > 0 ==> r[2 * m - 2] == r[..2 * m][2 * m - 2] && r[2 * m - 1] == r[..2 * m][2 * m - 1];
  }

  lemma {:induction false} BoxesStay(F: RoundFunction, p: seq<Word>, s: seq<Word>, n: nat, m: nat)
    requires |p| == ROUNDS + 2 && |s| == 1024 && m < n <= 512
    ensures var r, q := BoxesAfter(F, p, s, n), BoxesAfter(F, p, s, m);
            && q[2 * m..] == s[2 * m..] && r[..2 * m] == q[..2 * m]
            && Block(r[2 * m], r[2 * m + 1]) == Crypt(F, p, q, PairBefore(q, m, Block(p[ROUNDS], p[ROUNDS + 1])))
    decreases n
  {
    hide Crypt;
    BoxesUntouched(F, p, s, m);
    if m < n - 1 {
      BoxesStay(F, p, s, n - 1, m);
    }
  }

  lemma {:induction false} BoxesUntouched(F: RoundFunction, p: seq<Word>, s: seq<Word>, n: nat)
    requires |p| == ROUNDS + 2 && |s| == 1024 && n <= 512
    ensures BoxesAfter(F, p, s, n)[2 * n..] == s[2 * n..]
  {
    hide Crypt;
    if n > 0 {
      BoxesUntouched(F, p, s, n - 1);
      assert BoxesAfter(F, p, s, n)[2 * n..] == BoxesAfter(F, p, s, n - 1)[2 * n - 2..][2..];
    }
  }

  method StorePair(a: array<Word>, m: nat, b: Block)
    requires 2 * m + 1 < a.Length
    modifies a
    ensures a[..] == PutPair(old(a[..]), m, b)
  {
    a[2 * m], a[2 * m + 1] := b.l, b.r;
  }

  method MakeSubkeys(F: RoundFunction, p: array<Word>, s: seq<Word>)
    requires p.Length == ROUNDS + 2
    modifies p
    ensures p[..] == SubkeysAfter(F, old(p[..]), s, 9)
  {
    hide Crypt, PutPair;
    var b := CryptBlock(F, p, s, Block(ZERO, ZERO));
    ghost var start := p[..];
    StorePair(p, 0, b);
    assert SubkeysAfter(F, start, s, 0) == start;
    for i := 0 to ROUNDS / 2
      invariant p[..] == SubkeysAfter(F, start, s, i + 1)
    {
      b := CryptBlock(F, p, s, Block(p[2 * i], p[2 * i + 1]));
      assert PairBefore(p[..], i + 1, Block(ZERO, ZERO)) == Block(p[2 * i], p[2 * i + 1]);
      StorePair(p, i + 1, b);
    }
  }

  method MakeBoxes(F: RoundFunction, p: array<Word>, s: array<Word>)
    requires p.Length == ROUNDS + 2 && s.Length == 1024 && p != s
    modifies s
    ensures s[..] == BoxesAfter(F, p[..], old(s[..]), 512)
  {
    hide Crypt, PutPair;
    var b := CryptBlock(F, p, s[..], Block(p[ROUNDS], p[ROUNDS + 1]));
    ghost var start := s[..];
    StorePair(s, 0, b);
    assert BoxesAfter(F, p[..], start, 0) == start;
    for i := 0 to 511
      invariant s[..] == BoxesAfter(F, p[..], start, i + 1)
    {
      b := CryptBlock(F, p, s[..], Block(s[2 * i], s[2 * i + 1]));
      assert PairBefore(s[..], i + 1, Block(p[ROUNDS], p[ROUNDS + 1])) == Block(s[2 * i], s[2 * i + 1]);
      StorePair(s, i + 1, b);
    }
  }

  /** Exchanges entries from both ends towards the middle. */
  method Reverse(p: array<Word>)
    requires p.Length == ROUNDS + 2
    modifies p
    ensures p[..] == Reversed(old(p[..]))
  {
    for i := 0 to (ROUNDS + 2) / 2
      invariant forall k :: 0 <= k < i ==> p[k] == old(p[ROUNDS + 1 - k]) && p[ROUNDS + 1 - k] == old(p[k])
      invariant forall k :: i <= k <= ROUNDS + 1 - i ==> p[k] == old(p[k])
    {
      p[i], p[ROUNDS + 1 - i] := p[ROUNDS + 1 - i], p[i];
    }
  }

  function SubkeysOf(F: RoundFunction, pInit: seq<Word>, sInit: seq<Word>, key: seq<bv8>): (r: seq<Word>)
    requires |key| > 0 && |pInit| == ROUNDS + 2
    ensures |r| == ROUNDS + 2
  {
    SubkeysAfter(F, Keyed(pInit, key), sInit, 9)
  }

  /** Both directions make the same subkeys and boxes; for decryption the subkeys are then reversed. */
  method UncheckedSetKey(F: RoundFunction, pInit: seq<Word>, sInit: seq<Word>, key: seq<bv8>, forward: bool)
    returns (p: array<Word>, s: array<Word>)
    requires |key| > 0 && |pInit| == ROUNDS + 2 && |sInit| == 1024
    ensures fresh(p) && fresh(s)
    ensures var k := SubkeysOf(F, pInit, sInit, key); p[..] == if forward then k else Reversed(k)
    ensures s[..] == BoxesAfter(F, SubkeysOf(F, pInit, sInit, key), sInit, 512)
  {
    hide SubkeysAfter, BoxesAfter, Xor, KeyWord, Reversed;
    p := new Word[ROUNDS + 2](i requires 0 <= i < ROUNDS + 2 => pInit[i]);
    assert p[..] == pInit;
    XorKey(p, key);
    s := new Word[1024](i requires 0 <= i < 1024 => sInit[i]);
    assert s[..] == sInit;
    MakeSubkeys(F, p, s[..]);
    MakeBoxes(F, p, s);
    if !forward {
      Reverse(p);
    }
  }

  /** Under every key, the decryption object undoes the encryption object on every block. */
  method EncryptThenDecrypt(F: RoundFunction, pInit: seq<Word>, sInit: seq<Word>, key: seq<bv8>, input: Block)
    returns (output: Block)
    requires |key| > 0 && |pInit| == ROUNDS + 2 && |sInit| == 1024
    ensures output == input
  {
    hide SubkeysOf, BoxesAfter, Crypt, Reversed;
    var pe, se := UncheckedSetKey(F, pInit, sInit, key, true);
    var pd, sd := UncheckedSetKey(F, pInit, sInit, key, false);
    var c := CryptBlock(F, pe, se[..], input);
    output := CryptBlock(F, pd, sd[..], c);
    ReversedUndoes(F, pe[..], se[..], input);
  }
}
