/** Cipher-block chaining over AdvancedProcessBlocks: the fold of the MACs, encryption, and decryption in place. */
module Cbc {
  import opened BatchedBlocks
  import opened BlockModes

  // ---------- The fold ----------

  /** The register stays where it is and takes in one block after the other. */
  function FoldCall(register: int, input: int, n: nat, parallel: bool): Call {
    Call(register, true, input, register, n, Flags(false, true, true, false, parallel))
  }

  function Fold<B>(o: Ops<B>, x: B, data: seq<B>): B {
    if data == [] then x else o.enc(o.xor(Fold(o, x, data[..|data|-1]), data[|data|-1]))
  }

  predicate FoldApart(register: int, input: int, n: nat, size: nat) {
    0 <= register < size && 0 <= input && input + n <= size && !(input <= register < input + n)
  }

  /**
   Don't increment, xor the input: after j rounds the register is the CBC chain of j blocks, and nothing else has
   changed.
   */
  lemma {:induction false} FoldRounds<B>(o: Ops<B>, mem: seq<B>, register: int, input: int, n: nat, parallel: bool,
                                         j: nat)
    requires FoldApart(register, input, n, |mem|) && j <= n
    ensures var c := FoldCall(register, input, n, parallel);
            && c.InBounds(|mem|)
            && Rounds(o, mem, c, 0, j) == mem[register := Fold(o, mem[register], mem[input..input + j])]
    decreases j
  {
    var c := FoldCall(register, input, n, parallel);
    if j > 0 {
      FoldRounds(o, mem, register, input, n, parallel, j - 1);
      assert c.Within(j - 1, |mem|);
      OneMoreBlock(o, mem, input, j, mem[register]);
      hide Fold;
    }
  }

  lemma SliceOfSlice<B>(s: seq<B>, a: int, n: nat)
    requires 0 <= a && n > 0 && a + n <= |s|
    ensures s[a..a + n][..n - 1] == s[a..a + n - 1] && s[a..a + n][n - 1] == s[a + n - 1]
  {
  }

  lemma OneMoreBlock<B>(o: Ops<B>, mem: seq<B>, input: int, j: nat, x: B)
    requires 0 <= input && j > 0 && input + j <= |mem|
    ensures Fold(o, x, mem[input..input + j]) == o.enc(o.xor(Fold(o, x, mem[input..input + j - 1]), mem[input + j - 1]))
  {
    var data := mem[input..input + j];
    SliceOfSlice(mem, input, j);
  }

  lemma FoldIsCbc<B>(o: Ops<B>, mem: seq<B>, register: int, input: int, n: nat)
    requires FoldApart(register, input, n, |mem|)
    ensures var c := FoldCall(register, input, n, false);
            && c.InBounds(|mem|)
            && Schedule(o, mem, c, 0) == mem[register := Fold(o, mem[register], mem[input..input + n])]
  {
    FoldRounds(o, mem, register, input, n, false, n);
    var c := FoldCall(register, input, n, false);
    assert Independent(c);
    ScheduleIsRounds(o, mem, c, 0);
  }

  // ---------- The fold must not run in parallel ----------

  ghost predicate Cancels<B(!new)>(xor: (B, B) -> B) {
    && (forall a, b, c :: xor(a, b) == xor(a, c) ==> b == c)
    && (forall a, b, c :: xor(a, c) == xor(b, c) ==> a == b)
  }

  /** A cipher and an exclusive or from whose result either operand can be told, given the other. */
  ghost predicate Tells<B(!new)>(o: Ops<B>) {
    Injective(o.enc) && Cancels(o.xor)
  }

  lemma FoldInBounds(register: int, input: int, n: nat, size: nat)
    requires FoldApart(register, input, n, size)
    ensures var c := FoldCall(register, input, n, true);
            c.InBounds(size) && c.blocks == n && c.flags.allowParallel && 0 <= register < size
    ensures 0 <= input && input + n <= size && !(input <= register < input + n)
  {
  }

  /** A batch stores six times over the same register, and only the last counts. */
  lemma FoldBatch<B>(o: Ops<B>, mem: seq<B>, register: int, input: int, n: nat, j: nat)
    requires FoldApart(register, input, n, |mem|) && j + 6 <= n
    ensures var c := FoldCall(register, input, n, true);
            c.InBounds(|mem|) &&
            Batch(o, mem, c, j) == mem[register := o.enc(o.xor(mem[register], mem[input + j + 5]))]
  {
    var c := FoldCall(register, input, n, true);
    assert c.Within(j, |mem|) && c.Within(j + 5, |mem|);
    var stored := Stored(o, mem, mem, c, j, 5);
    assert Batch(o, mem, c, j) == stored[register := Value(o, mem, mem, c, j, 5)];
    hide Stored;
    forall p | 0 <= p < |mem| && p != register ensures stored[p] == mem[p] {
      StoredElsewhere(o, mem, mem, c, j, 5, p);
    }
  }

  lemma FoldSingle<B>(o: Ops<B>, mem: seq<B>, register: int, input: int, n: nat, j: nat)
    requires FoldApart(register, input, n, |mem|) && j < n
    ensures var c := FoldCall(register, input, n, true);
            c.Within(j, |mem|) && Single(o, mem, c, j) == mem[register := o.enc(o.xor(mem[register], mem[input + j]))]
  {
  }

  /** One turn of the schedule takes in the last block of a batch, or the next block. */
  lemma FoldTurn<B>(o: Ops<B>, mem: seq<B>, register: int, input: int, n: nat, j: nat) returns (j': nat)
    requires FoldApart(register, input, n, |mem|) && j < n
    ensures j' == (if n - j >= 6 then j + 6 else j + 1) && j' <= n
    ensures var c := FoldCall(register, input, n, true);
            && c.InBounds(|mem|)
            && Schedule(o, mem, c, j) ==
               Schedule(o, mem[register := o.enc(o.xor(mem[register], mem[input + j' - 1]))], c, j')
  {
    hide *;
    FoldInBounds(register, input, n, |mem|);
    var c := FoldCall(register, input, n, true);
    ScheduleSteps(o, mem, c, j);
    if n - j >= 6 {
      FoldBatch(o, mem, register, input, n, j);
      j' := j + 6;
    } else {
      FoldSingle(o, mem, register, input, n, j);
      j' := j + 1;
    }
  }

  /** Where the first block is not that of a turn, the schedule never looks at it. */
  lemma {:induction false} FoldForgets<B>(o: Ops<B>, mem: seq<B>, register: int, input: int, n: nat, j: nat, x: B)
    requires FoldApart(register, input, n, |mem|) && j <= n && n >= 6
    ensures var c := FoldCall(register, input, n, true);
            c.InBounds(|mem|) && Schedule(o, mem[input := x], c, j)[register] == Schedule(o, mem, c, j)[register]
    decreases n - j
  {
    hide *;
    FoldInBounds(register, input, n, |mem|);
    var c := FoldCall(register, input, n, true);
    if j < n {
      var j' := FoldTurn(o, mem, register, input, n, j);
      var _ := FoldTurn(o, mem[input := x], register, input, n, j);
      var y := o.enc(o.xor(mem[register], mem[input + j' - 1]));
      assert j' > 1 by {
        assert j > 0 || n - j >= 6;
      }
      assert mem[input := x][register := y] == mem[register := y][input := x];
      FoldForgets(o, mem[register := y], register, input, n, j', x);
    } else {
      ScheduleSteps(o, mem, c, j);
      ScheduleSteps(o, mem[input := x], c, j);
    }
  }

  /** The chain depends on its first block. */
  lemma {:induction false} FoldRemembers<B(!new)>(o: Ops<B>, x: B, data: seq<B>, b: B)
    requires Tells(o) && data != [] && b != data[0]
    ensures Fold(o, x, data[0 := b]) != Fold(o, x, data)
    decreases |data|
  {
    if |data| > 1 {
      var front := data[..|data| - 1];
      assert data[0 := b][..|data| - 1] == front[0 := b];
      FoldRemembers(o, x, front, b);
    }
  }

  /** Six blocks or more: whatever the cipher, changing the first block changes the chain, but not what batches give. */
  lemma ParallelFoldFails<B(!new)>(o: Ops<B>, mem: seq<B>, register: int, input: int, n: nat, x: B)
    requires FoldApart(register, input, n, |mem|) && n >= 6 && Tells(o) && x != mem[input]
    ensures var c, mem' := FoldCall(register, input, n, true), mem[input := x];
            c.InBounds(|mem|) &&
            (Schedule(o, mem, c, 0) != Rounds(o, mem, c, 0, n) || Schedule(o, mem', c, 0) != Rounds(o, mem', c, 0, n))
  {
    var mem' := mem[input := x];
    FoldForgets(o, mem, register, input, n, 0, x);
    FoldRounds(o, mem, register, input, n, true, n);
    FoldRounds(o, mem', register, input, n, true, n);
    assert mem'[input..input + n] == mem[input..input + n][0 := x];
    FoldRemembers(o, mem[register], mem[input..input + n], x);
  }

  lemma XorBlocksCancels()
    ensures Cancels(XorBlocks)
  {
    hide XorBlocks;
    forall a, b, c | XorBlocks(a, b) == XorBlocks(a, c) ensures b == c {
      XorBlocksTwice(a, b);
      XorBlocksTwice(a, c);
    }
    forall a, b, c | XorBlocks(a, c) == XorBlocks(b, c) ensures a == b {
      XorBlocksCommutes(a, c);
      XorBlocksCommutes(b, c);
      XorBlocksTwice(c, a);
      XorBlocksTwice(c, b);
    }
  }

  lemma XorBlocksTwice(x: bv128, y: bv128)
    ensures XorBlocks(x, XorBlocks(x, y)) == y
  {
  }

  lemma XorBlocksCommutes(x: bv128, y: bv128)
    ensures XorBlocks(x, y) == XorBlocks(y, x)
  {
  }

  /** For every cipher the fold may run in parallel exactly when there is no batch to run. */
  lemma ParallelFold(enc: bv128 -> bv128, register: int, input: int, n: nat, size: nat)
    requires FoldApart(register, input, n, size) && Injective(enc)
    ensures var c := FoldCall(register, input, n, true);
            && c.InBounds(size)
            && (n < 6 <==>
                  forall mem: seq<bv128> {:trigger Schedule(Blocks128(enc), mem, c, 0)} :: |mem| == size ==>
                    Schedule(Blocks128(enc), mem, c, 0) == Rounds(Blocks128(enc), mem, c, 0, n))
  {
    var c, o, mem := FoldCall(register, input, n, true), Blocks128(enc), Zeros(size);
    XorBlocksCancels();
    FoldInBounds(register, input, n, size);
    hide Schedule, Rounds, Fold;
    if n < 6 {
      assert Independent(c);
      forall mem: seq<bv128> | |mem| == size ensures Schedule(o, mem, c, 0) == Rounds(o, mem, c, 0, n) {
        ScheduleIsRounds(o, mem, c, 0);
      }
    } else {
      ParallelFoldFails(o, mem, register, input, n, 1);
    }
  }

  // ---------- Encryption ----------

  function LastOr<B>(s: seq<B>, x: B): B {
    if s == [] then x else s[|s| - 1]
  }

  function CbcEncrypt<B>(o: Ops<B>, iv: B, plain: seq<B>): (r: seq<B>)
    ensures |r| == |plain|
  {
    if plain == [] then [] else
      var front := CbcEncrypt(o, iv, plain[..|plain|-1]);
      front + [o.enc(o.xor(plain[|plain|-1], LastOr(front, iv)))]
  }

  function CbcDecrypt<B>(o: Ops<B>, iv: B, cipher: seq<B>): (r: seq<B>)
    ensures |r| == |cipher|
  {
    if cipher == [] then [] else
      var before := cipher[..|cipher|-1];
      CbcDecrypt(o, iv, before) + [o.xor(o.enc(cipher[|cipher|-1]), LastOr(before, iv))]
  }

  /** A decryption object's operations undo an encryption object's. */
  ghost predicate Undoes<B(!new)>(d: Ops<B>, e: Ops<B>) {
    (forall x: B :: d.enc(e.enc(x)) == x) && (forall x: B, y: B :: d.xor(e.xor(x, y), y) == x)
  }

  lemma UndoBlock<B(!new)>(d: Ops<B>, e: Ops<B>, x: B, y: B)
    requires Undoes(d, e)
    ensures d.xor(d.enc(e.enc(e.xor(x, y))), y) == x
  {
  }

  lemma {:induction false} DecryptEncrypt<B(!new)>(d: Ops<B>, e: Ops<B>, iv: B, plain: seq<B>)
    requires Undoes(d, e)
    ensures CbcDecrypt(d, iv, CbcEncrypt(e, iv, plain)) == plain
    decreases |plain|
  {
    hide Undoes;
    if plain != [] {
      var n := |plain| - 1;
      var cipher, front := CbcEncrypt(e, iv, plain), CbcEncrypt(e, iv, plain[..n]);
      assert cipher[..n] == front;
      DecryptEncrypt(d, e, iv, plain[..n]);
      UndoBlock(d, e, plain[n], LastOr(front, iv));
    }
  }

  /** A message in two parts: the second goes on from the last ciphertext block of the first. */
  lemma {:induction false} EncryptInParts<B>(o: Ops<B>, iv: B, a: seq<B>, b: seq<B>)
    ensures CbcEncrypt(o, iv, a + b) == CbcEncrypt(o, iv, a) + CbcEncrypt(o, LastOr(CbcEncrypt(o, iv, a), iv), b)
    decreases |b|
  {
    if b == [] {
      assert a + b == a;
    } else {
      EncryptInParts(o, iv, a, b[..|b|-1]);
      assert (a + b)[..|a + b|-1] == a + b[..|b|-1];
    }
  }

  lemma {:induction false} DecryptInParts<B>(o: Ops<B>, iv: B, a: seq<B>, b: seq<B>)
    ensures CbcDecrypt(o, iv, a + b) == CbcDecrypt(o, iv, a) + CbcDecrypt(o, LastOr(a, iv), b)
    decreases |b|
  {
    if b == [] {
      assert a + b == a;
    } else {
      DecryptInParts(o, iv, a, b[..|b|-1]);
      assert (a + b)[..|a + b|-1] == a + b[..|b|-1];
    }
  }

  // ---------- The calls that encrypt ----------

  /** Everything after the first block: the xor buffer is the output one block behind. */
  function EncryptCall(input: int, out: int, n: nat): Call
    requires n > 0
  {
    Call(input + 1, true, out, out + 1, n - 1, Flags(false, false, true, false, false))
  }

  predicate Buffers(input: int, out: int, n: nat, size: nat) {
    0 <= input && input + n <= size && 0 <= out && out + n <= size
  }

  /** How far the chain has got: j + 1 blocks are written, the input after them is still there. */
  predicate Chained<B(==)>(o: Ops<B>, iv: B, plain: seq<B>, mem: seq<B>, m: seq<B>, input: int, out: int, j: nat)
    requires Buffers(input, out, |plain|, |mem|)
  {
    && |m| == |mem| && j < |plain|
    && m[out..out + j + 1] == CbcEncrypt(o, iv, plain[..j + 1])
    && (forall k :: j < k < |plain| ==> m[input + k] == plain[k])
    && (forall p :: 0 <= p < |m| && !(out <= p < out + |plain|) ==> m[p] == mem[p])
  }

  lemma ChainRound<B>(o: Ops<B>, iv: B, plain: seq<B>, mem: seq<B>, m: seq<B>, input: int, out: int, j: nat)
    requires Buffers(input, out, |plain|, |mem|) && !(1 <= out - input < |plain|)
    requires j + 1 < |plain| && Chained(o, iv, plain, mem, m, input, out, j)
    ensures var c := EncryptCall(input, out, |plain|);
            c.Within(j, |m|) && Chained(o, iv, plain, mem, Round(o, m, c, j), input, out, j + 1)
  {
    var c := EncryptCall(input, out, |plain|);
    var y := o.enc(o.xor(plain[j + 1], m[out + j]));
    assert Round(o, m, c, j) == m[out + j + 1 := y];
    ChainExtend(o, iv, plain, m, out, j, y);
  }

  lemma ChainExtend<B>(o: Ops<B>, iv: B, plain: seq<B>, m: seq<B>, out: int, j: nat, y: B)
    requires 0 <= out && out + j + 1 < |m| && j + 1 < |plain|
    requires m[out..out + j + 1] == CbcEncrypt(o, iv, plain[..j + 1])
    requires y == o.enc(o.xor(plain[j + 1], m[out + j]))
    ensures m[out + j + 1 := y][out..out + j + 2] == CbcEncrypt(o, iv, plain[..j + 2])
  {
    var next := plain[..j + 2];
    assert next[..j + 1] == plain[..j + 1];
    assert m[out + j] == m[out..out + j + 1][j];
    assert m[out + j + 1 := y][out..out + j + 2] == m[out..out + j + 1] + [y];
  }

  lemma {:induction false} ChainRounds<B>(o: Ops<B>, iv: B, plain: seq<B>, mem: seq<B>, m: seq<B>, input: int,
                                          out: int, j: nat)
    requires Buffers(input, out, |plain|, |mem|) && !(1 <= out - input < |plain|)
    requires j < |plain| && Chained(o, iv, plain, mem, m, input, out, 0)
    ensures var c := EncryptCall(input, out, |plain|);
            c.InBounds(|m|) && Chained(o, iv, plain, mem, Rounds(o, m, c, 0, j), input, out, j)
    decreases j
  {
    var c := EncryptCall(input, out, |plain|);
    assert c.InBounds(|m|);
    hide Round, Chained;
    if j > 0 {
      ChainRounds(o, iv, plain, mem, m, input, out, j - 1);
      assert |Rounds(o, m, c, 0, j - 1)| == |mem|;
      ChainRound(o, iv, plain, mem, Rounds(o, m, c, 0, j - 1), input, out, j - 1);
    }
  }

  class CbcEncryption<B(==)> {
    var register: B

    constructor (iv: B)
      ensures register == iv
    {
      register := iv;
    }

    /** Encrypts n blocks; the output may be the input itself, or any buffer that does not begin inside it. */
    method ProcessData(mem: array<B>, o: Ops<B>, out: nat, input: nat, n: nat)
      requires Buffers(input, out, n, mem.Length) && !(1 <= out - input < n)
      modifies this, mem
      ensures mem[out..out + n] == CbcEncrypt(o, old(register), old(mem[input..input + n]))
      ensures register == LastOr(mem[out..out + n], old(register))
      ensures forall p :: 0 <= p < mem.Length && !(out <= p < out + n) ==> mem[p] == old(mem[p])
    {
      hide Schedule, Rounds;
      if n == 0 {
        return;
      }
      ghost var plain, iv := mem[input..input + n], register;
      mem[out] := o.enc(o.xor(mem[input], register));
      ghost var m := mem[..];
      FirstBlock(o, iv, plain, old(mem[..]), m, input, out);
      if n > 1 {
        ChainRounds(o, iv, plain, old(mem[..]), m, input, out, n - 1);
        assert Independent(EncryptCall(input, out, n));
        var _ := AdvancedProcessBlocks128(mem, o, EncryptCall(input, out, n), 16 * (n - 1));
      }
      assert Chained(o, iv, plain, old(mem[..]), mem[..], input, out, n - 1);
      assert plain[..n] == plain && mem[..][out..out + n] == mem[out..out + n];
      register := mem[out + n - 1];
    }
  }

  lemma FirstBlock<B>(o: Ops<B>, iv: B, plain: seq<B>, mem: seq<B>, m: seq<B>, input: int, out: int)
    requires |plain| > 0 && Buffers(input, out, |plain|, |mem|) && !(1 <= out - input < |plain|)
    requires plain == mem[input..input + |plain|] && m == mem[out := o.enc(o.xor(plain[0], iv))]
    ensures Chained(o, iv, plain, mem, m, input, out, 0)
  {
    var one := plain[..1];
    assert one[..0] == [];
    assert CbcEncrypt(o, iv, one) == CbcEncrypt(o, iv, []) + [o.enc(o.xor(plain[0], iv))];
    assert m[out..out + 1] == [m[out]];
  }

  // ---------- The call that decrypts ----------

  /** Everything after the first block, last block first: the xor buffer is the input one block behind. */
  function DecryptCall(input: int, out: int, n: nat): Call
    requires n > 0
  {
    Call(input + 1, true, input, out + 1, n - 1, Flags(false, false, false, true, true))
  }

  lemma DecryptFree(input: int, out: int, n: nat)
    requires n > 0 && (out >= input || out + n <= input)
    ensures var c := DecryptCall(input, out, n); Free(c, 0, n - 1) && Independent(c)
  {
    var c := DecryptCall(input, out, n);
    assert Free(c, 0, n - 1);
    FreeIsIndependent(c);
  }

  function PlainBlock<B>(o: Ops<B>, mem: seq<B>, input: int, i: nat): B
    requires 0 <= input && 1 <= i && input + i < |mem|
  {
    o.xor(o.enc(mem[input + i]), mem[input + i - 1])
  }

  lemma DecryptOutput<B>(o: Ops<B>, mem: seq<B>, input: int, out: int, n: nat, i: nat)
    requires Buffers(input, out, n, |mem|) && 1 <= i < n
    ensures var c, j := DecryptCall(input, out, n), n - 1 - i;
            && c.InBounds(|mem|) && c.Within(0, |mem|) && c.Within(j, |mem|)
            && c.Out(j) == out + i && Output(o, mem, c, j) == PlainBlock(o, mem, input, i)
  {
  }

  /** In spite of overwriting, every block is decrypted with the ciphertext block that was before it. */
  lemma DecryptRounds<B>(o: Ops<B>, mem: seq<B>, input: int, out: int, n: nat, i: nat)
    requires Buffers(input, out, n, |mem|) && 1 <= i < n && (out >= input || out + n <= input)
    ensures var c := DecryptCall(input, out, n);
            c.InBounds(|mem|) && Rounds(o, mem, c, 0, n - 1)[out + i] == PlainBlock(o, mem, input, i)
  {
    var c := DecryptCall(input, out, n);
    hide Rounds, Free, Independent, Output, Times, Call.Shift;
    DecryptOutput(o, mem, input, out, n, i);
    DecryptFree(input, out, n);
    OutputAt(o, mem, c, n - 1 - i);
  }

  lemma DecryptElsewhere<B>(o: Ops<B>, mem: seq<B>, input: int, out: int, n: nat, p: nat)
    requires Buffers(input, out, n, |mem|) && n > 1 && p < |mem| && !(out < p < out + n)
    requires out >= input || out + n <= input
    ensures var c := DecryptCall(input, out, n); c.InBounds(|mem|) && Rounds(o, mem, c, 0, n - 1)[p] == mem[p]
  {
    var c := DecryptCall(input, out, n);
    assert c.InBounds(|mem|);
    RoundsKeep(o, mem, c, 0, n - 1, p);
  }

  lemma {:induction false} DecryptAt<B>(o: Ops<B>, iv: B, cipher: seq<B>, i: nat)
    requires i < |cipher|
    ensures CbcDecrypt(o, iv, cipher)[i] == o.xor(o.enc(cipher[i]), if i == 0 then iv else cipher[i - 1])
    decreases |cipher|
  {
    if i < |cipher| - 1 {
      DecryptAt(o, iv, cipher[..|cipher|-1], i);
    }
  }

  class CbcDecryption<B> {
    var register: B

    constructor (iv: B)
      ensures register == iv
    {
      register := iv;
    }

    /** Decrypts n blocks; the output may be the input itself, or any buffer that does not end inside it. */
    method ProcessData(mem: array<B>, o: Ops<B>, out: nat, input: nat, n: nat)
      requires Buffers(input, out, n, mem.Length) && (out >= input || out + n <= input)
      modifies this, mem
      ensures mem[out..out + n] == CbcDecrypt(o, old(register), old(mem[input..input + n]))
      ensures register == LastOr(old(mem[input..input + n]), old(register))
      ensures forall p :: 0 <= p < mem.Length && !(out <= p < out + n) ==> mem[p] == old(mem[p])
    {
      hide Schedule, Rounds, Independent, CbcDecrypt;
      if n == 0 {
        NothingDecrypted(o, register);
        return;
      }
      var temp := mem[input + n - 1];
      ghost var was := mem[..];
      if n > 1 {
        DecryptFree(input, out, n);
        RestDecrypted(o, was, input, out, n);
        var _ := AdvancedProcessBlocks128(mem, o, DecryptCall(input, out, n), 16 * (n - 1));
      }
      mem[out] := o.xor(o.enc(mem[input]), register);
      AllDecrypted(o, register, was, mem[..], input, out, n);
      assert mem[..][out..out + n] == mem[out..out + n];
      register := temp;
    }
  }

  /** Every block but the first is decrypted, and nothing outside them has changed. */
  predicate RestPlain<B(==)>(o: Ops<B>, was: seq<B>, m: seq<B>, input: int, out: int, n: nat)
    requires Buffers(input, out, n, |was|)
  {
    && |m| == |was|
    && (forall p :: out < p < out + n ==> m[p] == PlainBlock(o, was, input, p - out))
    && (forall p :: 0 <= p < |m| && !(out < p < out + n) ==> m[p] == was[p])
  }

  lemma RestDecrypted<B>(o: Ops<B>, was: seq<B>, input: int, out: int, n: nat)
    requires Buffers(input, out, n, |was|) && n > 1 && (out >= input || out + n <= input)
    ensures var c := DecryptCall(input, out, n);
            c.InBounds(|was|) && RestPlain(o, was, Rounds(o, was, c, 0, n - 1), input, out, n)
  {
    var c := DecryptCall(input, out, n);
    assert c.InBounds(|was|);
    hide Rounds, PlainBlock;
    var m := Rounds(o, was, c, 0, n - 1);
    forall p | out < p < out + n ensures m[p] == PlainBlock(o, was, input, p - out) {
      DecryptRounds(o, was, input, out, n, p - out);
    }
    forall p | 0 <= p < |was| && !(out < p < out + n) ensures m[p] == was[p] {
      DecryptElsewhere(o, was, input, out, n, p);
    }
  }

  lemma NothingDecrypted<B>(o: Ops<B>, iv: B)
    ensures CbcDecrypt(o, iv, []) == []
  {
  }

  lemma AllDecrypted<B>(o: Ops<B>, iv: B, was: seq<B>, m: seq<B>, input: int, out: int, n: nat)
    requires Buffers(input, out, n, |was|) && |m| == |was| && n > 0
    requires m[out] == o.xor(o.enc(was[input]), iv)
    requires forall p :: out < p < out + n ==> m[p] == PlainBlock(o, was, input, p - out)
    ensures m[out..out + n] == CbcDecrypt(o, iv, was[input..input + n])
  {
    hide CbcDecrypt;
    var cipher := was[input..input + n];
    forall i | 0 <= i < n ensures m[out..out + n][i] == CbcDecrypt(o, iv, cipher)[i] {
      DecryptAt(o, iv, cipher, i);
    }
  }

  /** Encrypting a buffer in place and decrypting it in place restores it. */
  method EncryptThenDecrypt<B(==, !new)>(mem: array<B>, e: Ops<B>, d: Ops<B>, iv: B, at: nat, n: nat)
    requires at + n <= mem.Length && Undoes(d, e)
    modifies mem
    ensures mem[..] == old(mem[..])
  {
    hide CbcEncrypt, CbcDecrypt, Undoes;
    var encryption := new CbcEncryption(iv);
    var decryption := new CbcDecryption(iv);
    ghost var plain := mem[at..at + n];
    encryption.ProcessData(mem, e, at, at, n);
    decryption.ProcessData(mem, d, at, at, n);
    DecryptEncrypt(d, e, iv, plain);
    assert mem[at..at + n] == plain;
    forall p | 0 <= p < mem.Length ensures mem[p] == old(mem[p]) {
      if at <= p < at + n {
        assert mem[p] == mem[at..at + n][p - at] && old(mem[p]) == plain[p - at];
      }
    }
  }
}
