/** CAST-128: rounds that change the halves in turn, and the same rounds in the opposite order. */
module Cast128 {
  import opened Words

  datatype Block = Block(l: Word, r: Word)

  /** The three round functions, of a half, a masking key and a rotation key. */
  datatype RoundFunctions = RoundFunctions(
    f1: (Word, Word, Word) -> Word, f2: (Word, Word, Word) -> Word, f3: (Word, Word, Word) -> Word)

  function Delta(f: RoundFunctions, i: nat, x: Word, km: Word, kr: Word): Word {
    if i % 3 == 0 then f.f1(x, km, kr) else if i % 3 == 1 then f.f2(x, km, kr) else f.f3(x, km, kr)
  }

  /** Round i: the three functions take turns, and so do the halves. */
  function Round(f: RoundFunctions, k: seq<Word>, s: Block, i: nat): Block
    requires |k| == 32 && i < 16
  {
    if i % 2 == 0 then s.(l := Xor(s.l, Delta(f, i, s.r, k[i], k[i + 16])))
    else s.(r := Xor(s.r, Delta(f, i, s.l, k[i], k[i + 16])))
  }

  lemma RoundTwice(f: RoundFunctions, k: seq<Word>, s: Block, i: nat)
    requires |k| == 32 && i < 16
    ensures Round(f, k, Round(f, k, s, i), i) == s
  {
    hide Xor, Delta;
    XorTwice(s.l, Delta(f, i, s.r, k[i], k[i + 16]));
    XorTwice(s.r, Delta(f, i, s.l, k[i], k[i + 16]));
  }

  /** The rounds before the n-th, in order. */
  function Forward(f: RoundFunctions, k: seq<Word>, s: Block, n: nat): Block
    requires |k| == 32 && n <= 16
  {
    if n == 0 then s else Round(f, k, Forward(f, k, s, n - 1), n - 1)
  }

  /** The same rounds from the last to the first. */
  function Backward(f: RoundFunctions, k: seq<Word>, s: Block, n: nat): Block
    requires |k| == 32 && n <= 16
    decreases n
  {
    if n == 0 then s else Backward(f, k, Round(f, k, s, n - 1), n - 1)
  }

  lemma {:induction false} BackwardUndoes(f: RoundFunctions, k: seq<Word>, s: Block, n: nat)
    requires |k| == 32 && n <= 16
    ensures Backward(f, k, Forward(f, k, s, n), n) == s
  {
    hide Round;
    if n > 0 {
      RoundTwice(f, k, Forward(f, k, s, n - 1), n - 1);
      BackwardUndoes(f, k, s, n - 1);
    }
  }

  function RoundCount(reduced: bool): nat {
    if reduced then 12 else 16
  }

  /** Enc::ProcessAndXorBlock: twelve rounds, four more unless the key is short; the halves come out exchanged. */
  method Encrypt(f: RoundFunctions, k: seq<Word>, reduced: bool, input: Block) returns (output: Block)
    requires |k| == 32
    ensures var s := Forward(f, k, input, RoundCount(reduced)); output == Block(s.r, s.l)
  {
    hide Xor, Forward;
    NoRounds(f, k, input);
    var l, r := input.l, input.r;
    l := Xor(l, f.f1(r, k[0], k[16]));
    OneRound(f, k, input, 0);
    r := Xor(r, f.f2(l, k[1], k[17]));
    OneRound(f, k, input, 1);
    l := Xor(l, f.f3(r, k[2], k[18]));
    OneRound(f, k, input, 2);
    r := Xor(r, f.f1(l, k[3], k[19]));
    OneRound(f, k, input, 3);
    l := Xor(l, f.f2(r, k[4], k[20]));
    OneRound(f, k, input, 4);
    r := Xor(r, f.f3(l, k[5], k[21]));
    OneRound(f, k, input, 5);
    l := Xor(l, f.f1(r, k[6], k[22]));
    OneRound(f, k, input, 6);
    r := Xor(r, f.f2(l, k[7], k[23]));
    OneRound(f, k, input, 7);
    l := Xor(l, f.f3(r, k[8], k[24]));
    OneRound(f, k, input, 8);
    r := Xor(r, f.f1(l, k[9], k[25]));
    OneRound(f, k, input, 9);
    l := Xor(l, f.f2(r, k[10], k[26]));
    OneRound(f, k, input, 10);
    r := Xor(r, f.f3(l, k[11], k[27]));
    OneRound(f, k, input, 11);
    if !reduced {
      l := Xor(l, f.f1(r, k[12], k[28]));
      OneRound(f, k, input, 12);
      r := Xor(r, f.f2(l, k[13], k[29]));
      OneRound(f, k, input, 13);
      l := Xor(l, f.f3(r, k[14], k[30]));
      OneRound(f, k, input, 14);
      r := Xor(r, f.f1(l, k[15], k[31]));
      OneRound(f, k, input, 15);
    }
    output := Block(r, l);
  }

  /** Dec::ProcessAndXorBlock: the exchanged halves go in, the rounds are run from the last. */
  method Decrypt(f: RoundFunctions, k: seq<Word>, reduced: bool, input: Block) returns (output: Block)
    requires |k| == 32
    ensures output == Backward(f, k, Block(input.r, input.l), RoundCount(reduced))
  {
    hide Xor, Backward;
    var r, l := input.l, input.r;
    if !reduced {
      OneRoundBack(f, k, Block(l, r), 15);
      r := Xor(r, f.f1(l, k[15], k[31]));
      OneRoundBack(f, k, Block(l, r), 14);
      l := Xor(l, f.f3(r, k[14], k[30]));
      OneRoundBack(f, k, Block(l, r), 13);
      r := Xor(r, f.f2(l, k[13], k[29]));
      OneRoundBack(f, k, Block(l, r), 12);
      l := Xor(l, f.f1(r, k[12], k[28]));
    }
    OneRoundBack(f, k, Block(l, r), 11);
    r := Xor(r, f.f3(l, k[11], k[27]));
    OneRoundBack(f, k, Block(l, r), 10);
    l := Xor(l, f.f2(r, k[10], k[26]));
    OneRoundBack(f, k, Block(l, r), 9);
    r := Xor(r, f.f1(l, k[9], k[25]));
    OneRoundBack(f, k, Block(l, r), 8);
    l := Xor(l, f.f3(r, k[8], k[24]));
    OneRoundBack(f, k, Block(l, r), 7);
    r := Xor(r, f.f2(l, k[7], k[23]));
    OneRoundBack(f, k, Block(l, r), 6);
    l := Xor(l, f.f1(r, k[6], k[22]));
    OneRoundBack(f, k, Block(l, r), 5);
    r := Xor(r, f.f3(l, k[5], k[21]));
    OneRoundBack(f, k, Block(l, r), 4);
    l := Xor(l, f.f2(r, k[4], k[20]));
    OneRoundBack(f, k, Block(l, r), 3);
    r := Xor(r, f.f1(l, k[3], k[19]));
    OneRoundBack(f, k, Block(l, r), 2);
    l := Xor(l, f.f3(r, k[2], k[18]));
    OneRoundBack(f, k, Block(l, r), 1);
    r := Xor(r, f.f2(l, k[1], k[17]));
    OneRoundBack(f, k, Block(l, r), 0);
    l := Xor(l, f.f1(r, k[0], k[16]));
    NoRounds(f, k, Block(l, r));
    output := Block(l, r);
  }

  lemma NoRounds(f: RoundFunctions, k: seq<Word>, s: Block)
    requires |k| == 32
    ensures Forward(f, k, s, 0) == s && Backward(f, k, s, 0) == s
  {
  }

  lemma OneRound(f: RoundFunctions, k: seq<Word>, s: Block, i: nat)
    requires |k| == 32 && i < 16
    ensures Forward(f, k, s, i + 1) == Round(f, k, Forward(f, k, s, i), i)
  {
  }

  lemma OneRoundBack(f: RoundFunctions, k: seq<Word>, s: Block, i: nat)
    requires |k| == 32 && i < 16
    ensures Backward(f, k, s, i + 1) == Backward(f, k, Round(f, k, s, i), i)
  {
  }

  // ---------- As RFC 2144 writes it ----------

  /** Section 2: L(n) = R(n-1) and R(n) = L(n-1) ^ f(R(n-1), Km(n), Kr(n)), f being of type 1, 2 or 3. */
  function Feistel(f: RoundFunctions, k: seq<Word>, s: Block, n: nat): Block
    requires |k| == 32 && n <= 16
  {
    if n == 0 then s else
      var p := Feistel(f, k, s, n - 1);
      var d := if n in {1, 4, 7, 10, 13, 16} then f.f1(p.r, k[n - 1], k[n + 15])
               else if n in {2, 5, 8, 11, 14} then f.f2(p.r, k[n - 1], k[n + 15])
               else f.f3(p.r, k[n - 1], k[n + 15]);
      Block(p.r, Xor(p.l, d))
  }

  /** The rounds that change the halves in place are those, and the halves lie exchanged after every other one. */
  lemma {:induction false} RoundsAreFeistel(f: RoundFunctions, k: seq<Word>, s: Block, n: nat)
    requires |k| == 32 && n <= 16
    ensures var p := Feistel(f, k, s, n); Forward(f, k, s, n) == if n % 2 == 0 then p else Block(p.r, p.l)
  {
    hide Xor;
    if n > 0 {
      RoundsAreFeistel(f, k, s, n - 1);
    }
  }

  /** With the same subkeys, decryption undoes encryption on every block, in either number of rounds. */
  method EncryptThenDecrypt(f: RoundFunctions, k: seq<Word>, reduced: bool, input: Block) returns (output: Block)
    requires |k| == 32
    ensures output == input
  {
    hide Round, Forward, Backward;
    var c := Encrypt(f, k, reduced, input);
    output := Decrypt(f, k, reduced, c);
    BackwardUndoes(f, k, input, RoundCount(reduced));
  }
}
