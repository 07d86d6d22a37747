/** Counter mode over AdvancedProcessBlocks: the counter as one big-endian number, its carries, and seeking. */
module Ctr {
  import opened PowersOfTwo
  import opened Radix
  import opened BatchedBlocks
  import opened BlockModes

  type byte = x: nat | x < 256
  type Block = seq<byte>

  /** The counter block with the value n, reduced to as many bytes as it has. */
  function Counter(n: nat, size: nat): (r: Block)
    ensures |r| == size
  {
    Digits(n, 256, size)
  }

  /** Addition on bytes. */
  function Plus(b: byte, n: nat): byte {
    var x: nat := b;
    (x + n) % 256
  }

  /** What the block loop does to a counter: the last byte counts up and wraps. */
  function Next(b: Block): Block {
    if b == [] then b else b[|b| - 1 := Plus(b[|b| - 1], 1)]
  }

  ghost predicate CountsBytes(o: Ops<Block>) {
    forall b: Block :: o.next(b) == Next(b)
  }

  lemma CounterLast(n: nat, size: nat)
    requires size > 0
    ensures Counter(n, size) == Counter(n / 256, size - 1) + [n % 256]
  {
  }

  /** As long as the last byte does not wrap, counting bytes is counting. */
  lemma NextCounts(n: nat, size: nat)
    requires size > 0
    ensures n % 256 < 255 ==> Next(Counter(n, size)) == Counter(n + 1, size) && (n + 1) % 256 == n % 256 + 1
    ensures n % 256 == 255 ==> Next(Counter(n, size)) == Counter(n / 256, size - 1) + [0]
    ensures n % 256 == 255 ==> Counter(n + 1, size) == Counter(n / 256 + 1, size - 1) + [0]
  {
    hide Digits;
    CounterLast(n, size);
    CounterLast(n + 1, size);
    if n % 256 < 255 {
      DivModUnique(n + 1, 256, n / 256, n % 256 + 1);
    } else {
      DivModUnique(n + 1, 256, n / 256 + 1, 0);
    }
  }

  lemma {:induction false} AdvanceCounts(o: Ops<Block>, n: nat, size: nat, j: nat)
    requires size > 0 && CountsBytes(o) && n % 256 + j < 256
    ensures Advance(o, Counter(n, size), j) == Counter(n + j, size) && (n + j) % 256 == n % 256 + j
    decreases j
  {
    hide Counter;
    if j > 0 {
      AdvanceCounts(o, n, size, j - 1);
      NextCounts(n + j - 1, size);
    }
  }

  /** At the wrap, the last byte is zero again and the others are still those of the first value. */
  lemma AdvanceWraps(o: Ops<Block>, n: nat, size: nat, j: nat)
    requires size > 0 && CountsBytes(o) && n % 256 + j == 256
    ensures Advance(o, Counter(n, size), j) == Counter(n / 256, size - 1) + [0]
    ensures Counter(n + j, size) == Counter(n / 256 + 1, size - 1) + [0]
  {
    hide Counter;
    AdvanceCounts(o, n, size, j - 1);
    NextCounts(n + j - 1, size);
    DivModUnique(n + j - 1, 256, n / 256, 255);
  }

  /** Adds one to the number in the first size bytes. */
  method IncrementCounterByOne(b: Block, size: nat, ghost n: nat) returns (r: Block)
    requires size <= |b| && b[..size] == Counter(n, size)
    ensures |r| == |b| && r[..size] == Counter(n + 1, size) && r[size..] == b[size..]
  {
    hide Digits;
    r := b;
    var i: nat, carry := size, true;
    ghost var m := n;
    while i > 0 && carry
      invariant i <= size && |r| == |b| && r[size..] == b[size..]
      invariant r[..i] == Counter(m, i)
      invariant Counter(n + 1, size) == Counter(if carry then m + 1 else m, i) + r[i..size]
      decreases i
    {
      i := i - 1;
      CounterLast(m, i + 1);
      CounterLast(m + 1, i + 1);
      assert r[i] == r[..i + 1][i] == m % 256;
      ghost var tail := r[i + 1..size];
      r := r[i := Plus(r[i], 1)];
      carry := r[i] == 0;
      CarryOne(m, carry);
      assert r[..i] == Counter(m / 256, i);
      assert r[i..size] == [r[i]] + tail;
      m := m / 256;
    }
    if i == 0 {
      assert Counter(if carry then m + 1 else m, 0) == [];
      assert r[..size] == r[0..size];
    } else {
      assert r[..size] == r[..i] + r[i..size];
    }
  }

  lemma CarryOne(m: nat, carry: bool)
    requires carry == ((m % 256 + 1) % 256 == 0)
    ensures (m + 1) / 256 == (if carry then m / 256 + 1 else m / 256) && (m + 1) % 256 == (m % 256 + 1) % 256
  {
  }

  // ---------- OperateKeystream ----------

  /** Where a call works: a counter, an output of n blocks, and an input if there is one; and the size of a block. */
  datatype Task = Task(counter: int, hasInput: bool, input: int, out: int, n: nat, size: nat) {
    predicate Fits(memory: nat) {
      size > 0 && CounterApartFrom(CounterCall(counter, hasInput, input, out, n), memory)
    }
  }

  /** Block i: the encryption of the counter's first value plus i, exclusive-ored with the input. */
  function CtrBlock(o: Ops<Block>, was: seq<Block>, t: Task, first: nat, i: nat): Block
    requires t.Fits(|was|) && i < t.n
  {
    var k := o.enc(Counter(first + i, t.size));
    if t.hasInput then o.xor(k, was[t.input + i]) else k
  }

  /** The first done blocks are written; nothing else but the counter has changed. */
  ghost predicate Written(o: Ops<Block>, was: seq<Block>, m: seq<Block>, t: Task, first: nat, done: nat) {
    && t.Fits(|was|) && |m| == |was| && done <= t.n
    && (forall p :: t.out <= p < t.out + done ==> m[p] == CtrBlock(o, was, t, first, p - t.out))
    && (forall p :: 0 <= p < |m| && !(t.out <= p < t.out + done) && p != t.counter ==> m[p] == was[p])
  }

  function Part(t: Task, done: nat, blocks: nat): Call {
    CounterCall(t.counter, t.hasInput, t.input + done, t.out + done, blocks)
  }

  lemma Bounds(t: Task, size: nat)
    requires t.Fits(size)
    ensures 0 <= t.counter < size && 0 <= t.out && t.out + t.n <= size && t.size > 0
  {
  }

  lemma PartFits(t: Task, size: nat, done: nat, blocks: nat)
    requires t.Fits(size) && done + blocks <= t.n
    ensures CounterApartFrom(Part(t, done, blocks), size) && Part(t, done, blocks).InBounds(size)
  {
  }

  lemma SameBlock(o: Ops<Block>, was: seq<Block>, m: seq<Block>, t: Task, first: nat, done: nat, blocks: nat, j: nat)
    requires CountsBytes(o) && Written(o, was, m, t, first, done) && m[t.counter] == Counter(first + done, t.size)
    requires j < blocks && done + blocks <= t.n && (first + done) % 256 + blocks <= 256
    ensures CounterApartFrom(Part(t, done, blocks), |m|)
    ensures KeyStreamed(o, m, Part(t, done, blocks), j) == CtrBlock(o, was, t, first, done + j)
  {
    hide Counter;
    AdvanceCounts(o, first + done, t.size, j);
    hide CountsBytes;
    assert t.hasInput ==> m[t.input + done + j] == was[t.input + done + j];
  }

  lemma NewBlock(o: Ops<Block>, was: seq<Block>, m: seq<Block>, t: Task, first: nat, done: nat, blocks: nat, j: nat)
    requires CountsBytes(o) && Written(o, was, m, t, first, done) && m[t.counter] == Counter(first + done, t.size)
    requires j < blocks && done + blocks <= t.n && (first + done) % 256 + blocks <= 256
    ensures Part(t, done, blocks).InBounds(|m|)
    ensures Schedule(o, m, Part(t, done, blocks), 0)[t.out + done + j] == CtrBlock(o, was, t, first, done + j)
    ensures Schedule(o, m, Part(t, done, blocks), 0)[t.counter] == Advance(o, Counter(first + done, t.size), blocks)
  {
    hide *;
    WrittenFits(o, was, m, t, first, done);
    Bounds(t, |was|);
    SameBlock(o, was, m, t, first, done, blocks, j);
    PartIs(t, done, blocks);
    CounterBlocks(o, m, t.counter, t.hasInput, t.input + done, t.out + done, blocks, j);
  }

  lemma WrittenFits(o: Ops<Block>, was: seq<Block>, m: seq<Block>, t: Task, first: nat, done: nat)
    requires Written(o, was, m, t, first, done)
    ensures t.Fits(|was|) && |m| == |was| && done <= t.n
  {
  }

  lemma PartIs(t: Task, done: nat, blocks: nat)
    ensures Part(t, done, blocks) == CounterCall(t.counter, t.hasInput, t.input + done, t.out + done, blocks)
  {
  }

  lemma PartElsewhere(o: Ops<Block>, m: seq<Block>, t: Task, done: nat, blocks: nat, p: nat)
    requires t.Fits(|m|) && p < |m| && p != t.counter
    requires done + blocks <= t.n && blocks > 0 && !(t.out + done <= p < t.out + done + blocks)
    ensures Part(t, done, blocks).InBounds(|m|) && Schedule(o, m, Part(t, done, blocks), 0)[p] == m[p]
  {
    hide *;
    PartFits(t, |m|, done, blocks);
    var c := Part(t, done, blocks);
    NotOutput(t, done, blocks, p);
    PartFree(t, |m|, done, blocks);
    FreeIsIndependent(c);
    ScheduleIsRounds(o, m, c, 0);
    ElsewhereAt(o, m, c, p);
  }

  lemma PartFree(t: Task, size: nat, done: nat, blocks: nat)
    requires t.Fits(size) && done + blocks <= t.n
    ensures Free(Part(t, done, blocks), 0, blocks)
  {
    PartFits(t, size, done, blocks);
    hide Free;
    CounterFree(Part(t, done, blocks));
  }

  lemma NotOutput(t: Task, done: nat, blocks: nat, p: nat)
    requires !(t.out + done <= p < t.out + done + blocks)
    ensures var c := Part(t, done, blocks); c.In(0) == t.counter && c.blocks == blocks && !IsOutput(c, p)
  {
  }

  lemma OldBlock(o: Ops<Block>, was: seq<Block>, m: seq<Block>, t: Task, first: nat, done: nat, blocks: nat, p: nat)
    requires Written(o, was, m, t, first, done) && p < |m| && p != t.counter
    requires done + blocks <= t.n && blocks > 0 && !(t.out + done <= p < t.out + done + blocks)
    ensures Part(t, done, blocks).InBounds(|m|) && t.Fits(|was|)
    ensures Schedule(o, m, Part(t, done, blocks), 0)[p] ==
            if t.out <= p < t.out + done then CtrBlock(o, was, t, first, p - t.out) else was[p]
  {
    assert m[p] == if t.out <= p < t.out + done then CtrBlock(o, was, t, first, p - t.out) else was[p];
    WrittenFits(o, was, m, t, first, done);
    hide *;
    PartElsewhere(o, m, t, done, blocks, p);
  }

  lemma AllWritten(o: Ops<Block>, was: seq<Block>, m: seq<Block>, t: Task, first: nat, done: nat)
    requires t.Fits(|was|) && |m| == |was| && done <= t.n
    requires forall p :: 0 <= p < |m| && p != t.counter ==>
               m[p] == if t.out <= p < t.out + done then CtrBlock(o, was, t, first, p - t.out) else was[p]
    ensures Written(o, was, m, t, first, done)
  {
    hide CtrBlock;
  }

  lemma PartWritten(o: Ops<Block>, was: seq<Block>, m: seq<Block>, t: Task, first: nat, done: nat, blocks: nat)
    requires CountsBytes(o) && Written(o, was, m, t, first, done) && m[t.counter] == Counter(first + done, t.size)
    requires blocks > 0 && done + blocks <= t.n && (first + done) % 256 + blocks <= 256
    ensures Part(t, done, blocks).InBounds(|m|)
    ensures var m' := Schedule(o, m, Part(t, done, blocks), 0);
            && Written(o, was, m', t, first, done + blocks)
            && m'[t.counter] == Advance(o, Counter(first + done, t.size), blocks)
  {
    hide *;
    WrittenFits(o, was, m, t, first, done);
    Bounds(t, |was|);
    NewBlock(o, was, m, t, first, done, blocks, 0);
    var m' := Schedule(o, m, Part(t, done, blocks), 0);
    forall p | 0 <= p < |m'| && p != t.counter
      ensures m'[p] == if t.out <= p < t.out + (done + blocks) then CtrBlock(o, was, t, first, p - t.out) else was[p]
    {
      if t.out + done <= p < t.out + done + blocks {
        NewBlock(o, was, m, t, first, done, blocks, p - t.out - done);
      } else {
        OldBlock(o, was, m, t, first, done, blocks, p);
      }
    }
    AllWritten(o, was, m', t, first, done + blocks);
  }

  /** The last byte is set, and a wrap carried into the bytes before it. */
  method Carry(b: Block, lsb: byte, blocks: nat, o: Ops<Block>, size: nat, ghost n: nat) returns (r: Block)
    requires CountsBytes(o) && size > 0 && blocks >= 1 && lsb == n % 256 && lsb + blocks <= 256
    requires b == Advance(o, Counter(n, size), blocks)
    ensures r == Counter(n + blocks, size)
  {
    hide Digits, CountsBytes;
    if lsb + blocks < 256 {
      AdvanceCounts(o, n, size, blocks);
    } else {
      AdvanceWraps(o, n, size, blocks);
    }
    CounterLast(n + blocks, size);
    r := b[size - 1 := Plus(lsb, blocks)];
    assert r == b;
    if r[size - 1] == 0 {
      r := IncrementCounterByOne(r, size - 1, n / 256);
    }
  }

  /** A part of the blocks, by the loop of the base class or, if the cipher has it, by the template. */
  method ProcessPart(mem: array<Block>, o: Ops<Block>, t: Task, batched: bool, done: nat, blocks: nat)
    requires t.Fits(mem.Length) && done + blocks <= t.n && (batched ==> t.size == 16)
    modifies mem
    ensures Part(t, done, blocks).InBounds(mem.Length)
    ensures mem[..] == Schedule(o, old(mem[..]), Part(t, done, blocks), 0)
  {
    hide *;
    var c := Part(t, done, blocks);
    PartFits(t, mem.Length, done, blocks);
    PartCall(t, done, blocks);
    if batched {
      var _ := AdvancedProcessBlocks128(mem, o, c, 16 * blocks);
    } else {
      PartFree(t, mem.Length, done, blocks);
      FreeIsIndependent(c);
      ScheduleIsRounds(o, mem[..], c, 0);
      Bounds(t, mem.Length);
      DivModUnique(blocks * t.size, t.size, blocks, 0);
      var _ := BasicProcessBlocks(mem, o, c, t.size, blocks * t.size);
    }
  }

  /** Enciphers t.n blocks: the counter runs on as one number through all its bytes. */
  method OperateKeystream(mem: array<Block>, o: Ops<Block>, t: Task, batched: bool, ghost first: nat)
    requires CountsBytes(o) && t.Fits(mem.Length) && mem[t.counter] == Counter(first, t.size)
    requires batched ==> t.size == 16
    modifies mem
    ensures Written(o, old(mem[..]), mem[..], t, first, t.n)
    ensures mem[t.counter] == Counter(first + t.n, t.size)
  {
    hide *;
    Bounds(t, mem.Length);
    StartWritten(o, mem[..], t, first);
    var done := 0;
    while done < t.n
      invariant done <= t.n && Written(o, old(mem[..]), mem[..], t, first, done)
      invariant mem[t.counter] == Counter(first + done, t.size)
    {
      LastByte(first + done, t.size);
      var lsb: nat := mem[t.counter][t.size - 1];
      var blocks := if t.n - done <= 256 - lsb then t.n - done else 256 - lsb;
      PartWritten(o, old(mem[..]), mem[..], t, first, done, blocks);
      ProcessPart(mem, o, t, batched, done, blocks);
      var counter := Carry(mem[t.counter], lsb, blocks, o, t.size, first + done);
      SetCounter(o, old(mem[..]), mem[..], t, first, done + blocks, counter);
      mem[t.counter] := counter;
      done := done + blocks;
    }
  }

  lemma LastByte(n: nat, size: nat)
    requires size > 0
    ensures Counter(n, size)[size - 1] == n % 256
  {
    CounterLast(n, size);
  }

  lemma PartCall(t: Task, done: nat, blocks: nat)
    ensures Part(t, done, blocks).blocks == blocks && !Part(t, done, blocks).flags.reverse
    ensures !ReadsStray(Part(t, done, blocks))
  {
  }

  lemma StartWritten(o: Ops<Block>, was: seq<Block>, t: Task, first: nat)
    requires t.Fits(|was|)
    ensures Written(o, was, was, t, first, 0)
  {
  }

  lemma SetCounter(o: Ops<Block>, was: seq<Block>, m: seq<Block>, t: Task, first: nat, done: nat, counter: Block)
    requires Written(o, was, m, t, first, done) && 0 <= t.counter < |m|
    ensures Written(o, was, m[t.counter := counter], t, first, done)
  {
    hide CtrBlock;
  }

  // ---------- Seeking ----------

  /** Adds the number of blocks to the register, byte by byte with carry. */
  method SeekToIteration(register: Block, iterationCount: nat, size: nat, ghost first: nat) returns (counter: Block)
    requires register == Counter(first, size)
    ensures counter == Counter(first + iterationCount, size)
  {
    hide Digits;
    counter := register;
    var i: nat, carry: nat, left: nat := size, 0, iterationCount;
    ghost var r: nat := first;
    while i > 0
      invariant i <= size && carry <= 1 && |counter| == size
      invariant register[..i] == Counter(r, i)
      invariant Counter(first + iterationCount, size) == Counter(r + left + carry, i) + counter[i..]
    {
      i := i - 1;
      CounterLast(r, i + 1);
      CounterLast(r + left + carry, i + 1);
      assert register[i] == register[..i + 1][i] == r % 256;
      ghost var tail := counter[i + 1..];
      var sum: nat := register[i] + left % 256 + carry;
      AddBytes(r, left, carry, sum);
      counter := counter[i := sum % 256];
      assert register[..i] == register[..i + 1][..i];
      assert counter[i..] == [counter[i]] + tail;
      carry := sum / 256;
      left := left / 256;
      r := r / 256;
    }
    assert counter[0..] == counter && Counter(r + left + carry, 0) == [];
  }

  lemma AddBytes(r: nat, left: nat, carry: nat, sum: nat)
    requires carry <= 1 && sum == r % 256 + left % 256 + carry
    ensures (r + left + carry) % 256 == sum % 256 && (r + left + carry) / 256 == r / 256 + left / 256 + sum / 256
    ensures sum / 256 <= 1
  {
  }

  // ---------- The batch's counters ----------

  /** A 64-bit lane of a little-endian vector register: its seven low bytes, and the byte above them. */
  function Lane(low: bv64, top: bv8): bv64 {
    low | ((top as bv64) << 56)
  }

  /** Adding one in the top byte of the lane counts that byte up, wraps it, and touches no other. */
  lemma LaneCounts(low: bv64, top: bv8)
    requires low < 0x0100_0000_0000_0000
    ensures Lane(low, top) + 0x0100_0000_0000_0000 == Lane(low, top + 1)
  {
  }
}
