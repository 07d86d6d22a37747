/** AdvancedProcessBlocks: the per-block loop of the base class, and the schedule that takes six blocks at a time. */
module BatchedBlocks {
  import opened PowersOfTwo

  /** The block operations, on any type of blocks: the cipher, exclusive or and the counter's increment. */
  datatype Ops<!B> = Ops(enc: B -> B, xor: (B, B) -> B, next: B -> B)

  datatype Flags = Flags(inBlockIsCounter: bool, dontIncrement: bool, xorInput: bool, reverse: bool,
                         allowParallel: bool)

  /** One call on a memory of blocks: where its buffers begin, and how many blocks it is to process. */
  datatype Call = Call(inBlocks: int, hasXor: bool, xorBlocks: int, outBlocks: int, blocks: nat, flags: Flags) {
    function Shift(): int { if flags.reverse then blocks - 1 else 0 }
    function InIncrement(): int {
      if flags.inBlockIsCounter || flags.dontIncrement then 0 else if flags.reverse then -1 else 1
    }
    function XorIncrement(): int { if !hasXor then 0 else if flags.reverse then -1 else 1 }
    function OutIncrement(): int { if flags.dontIncrement then 0 else if flags.reverse then -1 else 1 }

    /** The blocks that round j reads and writes. */
    function In(j: nat): int { inBlocks + Shift() + Times(InIncrement(), j) }
    function XorAt(j: nat): int { xorBlocks + Shift() + Times(XorIncrement(), j) }
    function Out(j: nat): int { outBlocks + Shift() + Times(OutIncrement(), j) }

    predicate Within(j: nat, size: nat) {
      0 <= In(j) < size && 0 <= Out(j) < size && (hasXor ==> 0 <= XorAt(j) < size)
    }

    predicate InBounds(size: nat) {
      forall j :: 0 <= j < blocks ==> Within(j, size)
    }
  }

  function Times(increment: int, n: nat): int {
    var m: int := n;
    if increment == 0 then 0 else if increment == 1 then m else -m
  }

  // ---------- The per-block loop ----------

  /** One round of the base class: the block is written, then the counter counted up. */
  function Round<B>(o: Ops<B>, mem: seq<B>, c: Call, j: nat): (r: seq<B>)
    requires c.Within(j, |mem|)
    ensures |r| == |mem|
  {
    var x := if c.hasXor && c.flags.xorInput then o.xor(mem[c.In(j)], mem[c.XorAt(j)]) else mem[c.In(j)];
    var y := if c.hasXor && !c.flags.xorInput then o.xor(o.enc(x), mem[c.XorAt(j)]) else o.enc(x);
    var written := mem[c.Out(j) := y];
    if c.flags.inBlockIsCounter then written[c.In(j) := o.next(written[c.In(j)])] else written
  }

  /** The memory after n rounds, beginning with round j. */
  function Rounds<B>(o: Ops<B>, mem: seq<B>, c: Call, j: nat, n: nat): (r: seq<B>)
    requires c.InBounds(|mem|) && j + n <= c.blocks
    ensures |r| == |mem|
  {
    if n == 0 then mem else Round(o, Rounds(o, mem, c, j, n - 1), c, j + n - 1)
  }

  lemma {:induction false} RoundsSplit<B>(o: Ops<B>, mem: seq<B>, c: Call, j: nat, m: nat, n: nat)
    requires c.InBounds(|mem|) && j + m + n <= c.blocks
    ensures Rounds(o, mem, c, j, m + n) == Rounds(o, Rounds(o, mem, c, j, m), c, j + m, n)
    decreases n
  {
    if n > 0 {
      RoundsSplit(o, mem, c, j, m, n - 1);
    }
  }

  // ---------- Six blocks at a time ----------

  function Advance<B>(o: Ops<B>, b: B, n: nat): B {
    if n == 0 then b else o.next(Advance(o, b, n - 1))
  }

  /** The memory once the batch has taken n counter values. */
  function Counted<B>(o: Ops<B>, mem: seq<B>, c: Call, j: nat, n: nat): (r: seq<B>)
    requires c.Within(j, |mem|)
    ensures |r| == |mem|
  {
    if c.flags.inBlockIsCounter then mem[c.In(j) := Advance(o, mem[c.In(j)], n)] else mem
  }

  function Loaded<B>(o: Ops<B>, mem: seq<B>, c: Call, j: nat, i: nat): B
    requires c.Within(j, |mem|) && c.Within(j + i, |mem|)
  {
    if c.flags.inBlockIsCounter then Advance(o, mem[c.In(j)], i) else mem[c.In(j + i)]
  }

  /** Block i of a batch that began at round j: its input was loaded from mem, its xor block from memory counted up. */
  function Value<B>(o: Ops<B>, mem: seq<B>, counted: seq<B>, c: Call, j: nat, i: nat): B
    requires |counted| == |mem| && c.Within(j, |mem|) && c.Within(j + i, |mem|)
  {
    var b := Loaded(o, mem, c, j, i);
    var x := if c.hasXor && c.flags.xorInput then o.xor(b, counted[c.XorAt(j + i)]) else b;
    if c.hasXor && !c.flags.xorInput then o.xor(o.enc(x), counted[c.XorAt(j + i)]) else o.enc(x)
  }

  /** The memory once the first n blocks of a batch of six are stored. */
  function Stored<B>(o: Ops<B>, mem: seq<B>, counted: seq<B>, c: Call, j: nat, n: nat): (r: seq<B>)
    requires |counted| == |mem| && c.InBounds(|mem|) && j + n <= c.blocks && j < c.blocks
    ensures |r| == |mem|
  {
    if n == 0 then counted
    else
      assert c.Within(j + n - 1, |mem|);
      Stored(o, mem, counted, c, j, n - 1)[c.Out(j + n - 1) := Value(o, mem, counted, c, j, n - 1)]
  }

  function Batch<B>(o: Ops<B>, mem: seq<B>, c: Call, j: nat): (r: seq<B>)
    requires c.InBounds(|mem|) && j + 6 <= c.blocks
    ensures |r| == |mem|
  {
    Stored(o, mem, Counted(o, mem, c, j, 6), c, j, 6)
  }

  /** A round on its own counts up before it writes. */
  function Single<B>(o: Ops<B>, mem: seq<B>, c: Call, j: nat): (r: seq<B>)
    requires c.Within(j, |mem|)
    ensures |r| == |mem|
  {
    var x := if c.hasXor && c.flags.xorInput then o.xor(mem[c.In(j)], mem[c.XorAt(j)]) else mem[c.In(j)];
    var counted := Counted(o, mem, c, j, 1);
    var y := if c.hasXor && !c.flags.xorInput then o.xor(o.enc(x), counted[c.XorAt(j)]) else o.enc(x);
    counted[c.Out(j) := y]
  }

  /** What the schedule does from round j on. */
  function Schedule<B>(o: Ops<B>, mem: seq<B>, c: Call, j: nat): (r: seq<B>)
    requires c.InBounds(|mem|) && j <= c.blocks
    ensures |r| == |mem|
    decreases c.blocks - j
  {
    if c.flags.allowParallel && c.blocks - j >= 6 then Schedule(o, Batch(o, mem, c, j), c, j + 6)
    else if j < c.blocks then Schedule(o, Single(o, mem, c, j), c, j + 1)
    else mem
  }

  // ---------- When the schedule is the loop ----------

  /** No block that round i writes is read by round j. */
  predicate Apart(c: Call, i: nat, j: nat) {
    c.Out(i) != c.In(j) && (c.hasXor ==> c.Out(i) != c.XorAt(j))
  }

  /** The counter that round a reads is neither its output nor its xor block. */
  predicate Alone(c: Call, a: nat) {
    c.Out(a) != c.In(a) && (c.hasXor ==> c.XorAt(a) != c.In(a))
  }

  /**
   Within n rounds from j on: nothing written is read by a later round, and the counter is neither written nor xored.
   */
  predicate Free(c: Call, j: nat, n: nat) {
    && (forall a, b :: j <= a < b < j + n ==> Apart(c, a, b))
    && (c.flags.inBlockIsCounter ==> forall a :: j <= a < j + n ==> Alone(c, a))
  }

  /** Blocks that a batch did not store keep what they held. */
  lemma {:induction false} StoredElsewhere<B>(o: Ops<B>, mem: seq<B>, counted: seq<B>, c: Call, j: nat, n: nat, p: nat)
    requires |counted| == |mem| && c.InBounds(|mem|) && j + n <= c.blocks && j < c.blocks && p < |mem|
    requires forall a :: j <= a < j + n ==> c.Out(a) != p
    ensures Stored(o, mem, counted, c, j, n)[p] == counted[p]
    decreases n
  {
    if n > 0 {
      StoredElsewhere(o, mem, counted, c, j, n - 1, p);
    }
  }

  /** What the memory is after m rounds, told by the batch of n rounds: the counter has been counted up only m times. */
  function Behind<B>(o: Ops<B>, mem: seq<B>, c: Call, j: nat, n: nat, m: nat): (r: seq<B>)
    requires c.InBounds(|mem|) && m <= n && j + n <= c.blocks && j < c.blocks
    ensures |r| == |mem|
  {
    assert c.Within(j, |mem|);
    var stored := Stored(o, mem, Counted(o, mem, c, j, n), c, j, m);
    if c.flags.inBlockIsCounter then stored[c.In(j) := Advance(o, mem[c.In(j)], m)] else stored
  }

  /** What round j + m of the loop reads is what the batch loaded. */
  lemma SameReads<B>(o: Ops<B>, mem: seq<B>, c: Call, j: nat, n: nat, m: nat)
    requires c.InBounds(|mem|) && m < n && j + n <= c.blocks && Free(c, j, n)
    ensures c.Within(j + m, |mem|) && c.Within(j, |mem|)
    ensures var behind, counted := Behind(o, mem, c, j, n, m), Counted(o, mem, c, j, n);
            && behind[c.In(j + m)] == Loaded(o, mem, c, j, m)
            && (c.hasXor ==> behind[c.XorAt(j + m)] == counted[c.XorAt(j + m)])
  {
    assert c.Within(j + m, |mem|) && c.Within(j, |mem|);
    var counted := Counted(o, mem, c, j, n);
    var k := j + m;
    CounterApart(c, j, n, k);
    forall a | j <= a < k ensures c.Out(a) != c.In(k) && (c.hasXor ==> c.Out(a) != c.XorAt(k)) {
      assert Apart(c, a, k);
    }
    if !c.flags.inBlockIsCounter {
      StoredElsewhere(o, mem, counted, c, j, m, c.In(k));
    }
    if c.hasXor {
      StoredElsewhere(o, mem, counted, c, j, m, c.XorAt(k));
    }
  }

  lemma CounterApart(c: Call, j: nat, n: nat, a: nat)
    requires Free(c, j, n) && j <= a < j + n
    ensures c.flags.inBlockIsCounter ==> c.Out(a) != c.In(a) && (c.hasXor ==> c.XorAt(a) != c.In(a))
  {
    assert c.flags.inBlockIsCounter ==> Alone(c, a);
  }

  lemma NothingYet<B>(o: Ops<B>, mem: seq<B>, c: Call, j: nat, n: nat)
    requires c.InBounds(|mem|) && j + n <= c.blocks && j < c.blocks
    ensures Behind(o, mem, c, j, n, 0) == mem
  {
    assert c.Within(j, |mem|);
  }

  lemma {:induction false} LoopFollows<B>(o: Ops<B>, mem: seq<B>, c: Call, j: nat, n: nat, m: nat)
    requires c.InBounds(|mem|) && m <= n && j + n <= c.blocks && j < c.blocks && Free(c, j, n)
    ensures Rounds(o, mem, c, j, m) == Behind(o, mem, c, j, n, m)
    decreases m
  {
    hide *;
    FirstWithin(c, j, |mem|);
    if m > 0 {
      LoopFollows(o, mem, c, j, n, m - 1);
      LastRound(o, mem, c, j, m);
      BehindOneMore(o, mem, c, j, n, m - 1);
    } else {
      NothingYet(o, mem, c, j, n);
      NoRounds(o, mem, c, j);
    }
  }

  lemma FirstWithin(c: Call, j: nat, size: nat)
    requires c.InBounds(size) && j < c.blocks
    ensures c.Within(j, size)
  {
  }

  lemma LastRound<B>(o: Ops<B>, mem: seq<B>, c: Call, j: nat, m: nat)
    requires c.InBounds(|mem|) && m > 0 && j + m <= c.blocks
    ensures c.Within(j + m - 1, |mem|)
    ensures Rounds(o, mem, c, j, m) == Round(o, Rounds(o, mem, c, j, m - 1), c, j + m - 1)
  {
    hide Round;
    assert c.Within(j + m - 1, |mem|);
  }

  lemma NoRounds<B>(o: Ops<B>, mem: seq<B>, c: Call, j: nat)
    requires c.InBounds(|mem|) && j <= c.blocks
    ensures Rounds(o, mem, c, j, 0) == mem
  {
  }

  /** One more round of the loop, told by the batch. */
  lemma BehindOneMore<B>(o: Ops<B>, mem: seq<B>, c: Call, j: nat, n: nat, m: nat)
    requires c.InBounds(|mem|) && m < n && j + n <= c.blocks && Free(c, j, n)
    ensures c.Within(j + m, |mem|) && Round(o, Behind(o, mem, c, j, n, m), c, j + m) == Behind(o, mem, c, j, n, m + 1)
  {
    hide Loaded, Counted, Free;
    SameReads(o, mem, c, j, n, m);
    CounterApart(c, j, n, j + m);
  }

  /** A batch is the rounds it stands for. */
  lemma BatchIsRounds<B>(o: Ops<B>, mem: seq<B>, c: Call, j: nat, n: nat)
    requires c.InBounds(|mem|) && j + n <= c.blocks && j < c.blocks && Free(c, j, n)
    ensures c.Within(j, |mem|)
    ensures Stored(o, mem, Counted(o, mem, c, j, n), c, j, n) == Rounds(o, mem, c, j, n)
  {
    assert c.Within(j, |mem|);
    LoopFollows(o, mem, c, j, n, n);
    if c.flags.inBlockIsCounter {
      forall a | j <= a < j + n ensures c.Out(a) != c.In(j) {
        assert Alone(c, a);
      }
      StoredElsewhere(o, mem, Counted(o, mem, c, j, n), c, j, n, c.In(j));
    }
  }

  /** Batches are used only where their rounds do not depend on one another, and a counter is kept to itself. */
  predicate Independent(c: Call) {
    && (c.flags.allowParallel ==> forall j :: 0 <= j && j + 6 <= c.blocks ==> Free(c, j, 6))
    && (c.flags.inBlockIsCounter ==> forall j :: 0 <= j < c.blocks ==> Free(c, j, 1))
  }

  lemma SingleIsRound<B>(o: Ops<B>, mem: seq<B>, c: Call, j: nat)
    requires c.Within(j, |mem|) && (c.flags.inBlockIsCounter ==> Free(c, j, 1))
    ensures Single(o, mem, c, j) == Round(o, mem, c, j)
  {
    if c.flags.inBlockIsCounter {
      CounterApart(c, j, 1, j);
      assert Advance(o, mem[c.In(j)], 1) == o.next(Advance(o, mem[c.In(j)], 0));
    }
  }

  /** The schedule is the per-block loop. */
  lemma {:induction false} ScheduleIsRounds<B>(o: Ops<B>, mem: seq<B>, c: Call, j: nat)
    requires c.InBounds(|mem|) && j <= c.blocks && Independent(c)
    ensures Schedule(o, mem, c, j) == Rounds(o, mem, c, j, c.blocks - j)
    decreases c.blocks - j
  {
    hide Stored, Free, Counted, Single, Round;
    if c.flags.allowParallel && c.blocks - j >= 6 {
      BatchIsRounds(o, mem, c, j, 6);
      ScheduleIsRounds(o, Batch(o, mem, c, j), c, j + 6);
      RoundsSplit(o, mem, c, j, 6, c.blocks - j - 6);
    } else if j < c.blocks {
      SingleIsRound(o, mem, c, j);
      ScheduleIsRounds(o, Single(o, mem, c, j), c, j + 1);
      RoundsSplit(o, mem, c, j, 1, c.blocks - j - 1);
      assert Rounds(o, mem, c, j, 0) == mem;
    }
  }

  // ---------- The two methods ----------

  /** Six blocks, the address moved on by the increment after each. */
  method Load<B>(mem: array<B>, at: int, increment: int) returns (blocks: seq<B>, at': int)
    requires -1 <= increment <= 1 && forall i :: 0 <= i < 6 ==> 0 <= at + Times(increment, i) < mem.Length
    ensures |blocks| == 6 && (forall i :: 0 <= i < 6 ==> blocks[i] == mem[at + Times(increment, i)])
    ensures at' == at + Times(increment, 6)
  {
    blocks, at' := [], at;
    for i := 0 to 6
      invariant |blocks| == i && at' == at + Times(increment, i)
      invariant forall k :: 0 <= k < i ==> blocks[k] == mem[at + Times(increment, k)]
    {
      blocks := blocks + [mem[at']];
      at' := at' + increment;
    }
  }

  lemma Positions(c: Call, j: nat, i: nat)
    ensures c.In(j + i) == c.In(j) + Times(c.InIncrement(), i)
    ensures c.XorAt(j + i) == c.XorAt(j) + Times(c.XorIncrement(), i)
    ensures c.Out(j + i) == c.Out(j) + Times(c.OutIncrement(), i)
  {
  }

  /** Every block that a batch uses is there. */
  lemma SixWithin(c: Call, j: nat, size: nat)
    requires c.InBounds(size) && j + 6 <= c.blocks
    ensures forall i {:trigger Times(c.InIncrement(), i)} :: 0 <= i < 6 ==>
              0 <= c.In(j) + Times(c.InIncrement(), i) < size
    ensures c.hasXor ==>
              forall i {:trigger Times(c.XorIncrement(), i)} :: 0 <= i < 6 ==>
                0 <= c.XorAt(j) + Times(c.XorIncrement(), i) < size
  {
    forall i | 0 <= i < 6
      ensures 0 <= c.In(j) + Times(c.InIncrement(), i) < size
      ensures c.hasXor ==> 0 <= c.XorAt(j) + Times(c.XorIncrement(), i) < size
    {
      Positions(c, j, i);
      assert c.Within(j + i, size);
    }
  }

  /** Loads six inputs, or six counter values, and moves the counter on. */
  method LoadInputs<B>(mem: array<B>, o: Ops<B>, c: Call, inBlocks: int, ghost j: nat)
    returns (blocks: seq<B>, inBlocks': int)
    requires c.InBounds(mem.Length) && j + 6 <= c.blocks && inBlocks == c.In(j)
    modifies mem
    ensures c.Within(j, mem.Length) && mem[..] == Counted(o, old(mem[..]), c, j, 6) && inBlocks' == c.In(j + 6)
    ensures |blocks| == 6
    ensures forall i :: 0 <= i < 6 ==> c.Within(j + i, mem.Length) && blocks[i] == Loaded(o, old(mem[..]), c, j, i)
  {
    SixWithin(c, j, mem.Length);
    assert c.Within(j, mem.Length);
    if c.flags.inBlockIsCounter {
      var b := mem[inBlocks];
      blocks := [];
      for i := 0 to 6
        invariant |blocks| == i && b == Advance(o, mem[inBlocks], i)
        invariant forall k :: 0 <= k < i ==> blocks[k] == Advance(o, mem[inBlocks], k)
      {
        blocks := blocks + [b];
        b := o.next(b);
      }
      mem[inBlocks] := b;
      inBlocks' := inBlocks;
    } else {
      blocks, inBlocks' := Load(mem, inBlocks, c.InIncrement());
    }
  }

  /** Exclusive-ors six blocks with the xor buffer. */
  method XorSix<B>(mem: array<B>, o: Ops<B>, c: Call, blocks: seq<B>, xorBlocks: int, ghost j: nat)
    returns (blocks': seq<B>, xorBlocks': int)
    requires c.InBounds(mem.Length) && j + 6 <= c.blocks && xorBlocks == c.XorAt(j) && |blocks| == 6 && c.hasXor
    ensures |blocks'| == 6 && xorBlocks' == c.XorAt(j + 6)
    ensures forall i :: 0 <= i < 6 ==>
              c.Within(j + i, mem.Length) && blocks'[i] == o.xor(blocks[i], mem[c.XorAt(j + i)])
  {
    SixWithin(c, j, mem.Length);
    var xs;
    xs, xorBlocks' := Load(mem, xorBlocks, c.XorIncrement());
    blocks' := seq(6, i requires 0 <= i < 6 => o.xor(blocks[i], xs[i]));
  }

  /** Stores six blocks, one after the other. */
  method StoreSix<B>(mem: array<B>, o: Ops<B>, c: Call, blocks: seq<B>, outBlocks: int, ghost was: seq<B>, ghost j: nat)
    returns (outBlocks': int)
    requires c.InBounds(mem.Length) && j + 6 <= c.blocks && outBlocks == c.Out(j) && |was| == mem.Length
    requires |blocks| == 6
    requires forall i :: 0 <= i < 6 ==>
               && c.Within(j + i, mem.Length) && c.Within(j, mem.Length)
               && blocks[i] == Value(o, was, mem[..], c, j, i)
    modifies mem
    ensures mem[..] == Stored(o, was, old(mem[..]), c, j, 6) && outBlocks' == c.Out(j + 6)
  {
    outBlocks' := outBlocks;
    for i := 0 to 6
      invariant outBlocks' == c.Out(j + i) && mem[..] == Stored(o, was, old(mem[..]), c, j, i)
    {
      assert c.Within(j + i, mem.Length);
      ghost var before := mem[..];
      mem[outBlocks'] := blocks[i];
      assert mem[..] == before[c.Out(j + i) := blocks[i]];
      outBlocks' := outBlocks' + c.OutIncrement();
    }
  }

  /** The body of the loop over batches. */
  method ProcessBatch<B>(mem: array<B>, o: Ops<B>, c: Call, inBlocks: int, xorBlocks: int, outBlocks: int, ghost j: nat)
    returns (inBlocks': int, xorBlocks': int, outBlocks': int)
    requires c.InBounds(mem.Length) && j + 6 <= c.blocks
    requires inBlocks == c.In(j) && (c.hasXor ==> xorBlocks == c.XorAt(j)) && outBlocks == c.Out(j)
    modifies mem
    ensures mem[..] == Batch(o, old(mem[..]), c, j)
    ensures inBlocks' == c.In(j + 6) && (c.hasXor ==> xorBlocks' == c.XorAt(j + 6)) && outBlocks' == c.Out(j + 6)
  {
    hide Stored, Counted, Loaded;
    var blocks;
    xorBlocks' := xorBlocks;
    blocks, inBlocks' := LoadInputs(mem, o, c, inBlocks, j);
    if c.hasXor && c.flags.xorInput {
      blocks, xorBlocks' := XorSix(mem, o, c, blocks, xorBlocks', j);
    }
    var inputs := blocks;
    blocks := seq(6, i requires 0 <= i < 6 => o.enc(inputs[i]));
    if c.hasXor && !c.flags.xorInput {
      blocks, xorBlocks' := XorSix(mem, o, c, blocks, xorBlocks', j);
    }
    outBlocks' := StoreSix(mem, o, c, blocks, outBlocks, old(mem[..]), j);
  }

  /** The body of the loop over single blocks. */
  method ProcessSingle<B>(mem: array<B>, o: Ops<B>, c: Call, inBlocks: int, xorBlocks: int, outBlocks: int,
                          ghost j: nat)
    requires c.Within(j, mem.Length)
    requires inBlocks == c.In(j) && (c.hasXor ==> xorBlocks == c.XorAt(j)) && outBlocks == c.Out(j)
    modifies mem
    ensures mem[..] == Single(o, old(mem[..]), c, j)
  {
    ghost var before := mem[..];
    var block := mem[inBlocks];
    if c.hasXor && c.flags.xorInput {
      block := o.xor(block, mem[xorBlocks]);
    }
    if c.flags.inBlockIsCounter {
      assert o.next(mem[inBlocks]) == Advance(o, mem[inBlocks], 1) by {
        assert Advance(o, mem[inBlocks], 0) == mem[inBlocks];
      }
      mem[inBlocks] := o.next(mem[inBlocks]);
    }
    assert mem[..] == Counted(o, before, c, j, 1);
    block := o.enc(block);
    if c.hasXor && !c.flags.xorInput {
      block := o.xor(block, mem[xorBlocks]);
    }
    mem[outBlocks] := block;
  }

  /** The template: length is in bytes, the bytes that make no block are left and their number returned. */
  method AdvancedProcessBlocks128<B>(mem: array<B>, o: Ops<B>, c: Call, length: nat) returns (left: nat)
    requires c.InBounds(mem.Length) && c.blocks == length / 16 && (c.flags.reverse ==> length % 16 == 0)
    modifies mem
    ensures left == length % 16 && mem[..] == Schedule(o, old(mem[..]), c, 0)
    ensures Independent(c) ==> mem[..] == Rounds(o, old(mem[..]), c, 0, c.blocks)
  {
    hide Schedule, Batch, Single, Independent;
    var inBlocks, xorBlocks, outBlocks := c.inBlocks, c.xorBlocks, c.outBlocks;
    left := length;
    if c.flags.reverse {
      var last := (length - 16) / 16;
      inBlocks, xorBlocks, outBlocks := inBlocks + last, xorBlocks + last, outBlocks + last;
    }
    ghost var j := 0;
    if c.flags.allowParallel {
      while left >= 96
        invariant left == length - 16 * j && j <= c.blocks
        invariant inBlocks == c.In(j) && (c.hasXor ==> xorBlocks == c.XorAt(j)) && outBlocks == c.Out(j)
        invariant Schedule(o, mem[..], c, j) == Schedule(o, old(mem[..]), c, 0)
      {
        ScheduleSteps(o, mem[..], c, j);
        inBlocks, xorBlocks, outBlocks := ProcessBatch(mem, o, c, inBlocks, xorBlocks, outBlocks, j);
        left := left - 96;
        j := j + 6;
      }
    }
    while left >= 16
      invariant left == length - 16 * j && j <= c.blocks && (c.flags.allowParallel ==> left < 96)
      invariant inBlocks == c.In(j) && (c.hasXor ==> xorBlocks == c.XorAt(j)) && outBlocks == c.Out(j)
      invariant Schedule(o, mem[..], c, j) == Schedule(o, old(mem[..]), c, 0)
    {
      ScheduleSteps(o, mem[..], c, j);
      assert c.Within(j, mem.Length);
      ProcessSingle(mem, o, c, inBlocks, xorBlocks, outBlocks, j);
      inBlocks := inBlocks + c.InIncrement();
      xorBlocks := xorBlocks + c.XorIncrement();
      outBlocks := outBlocks + c.OutIncrement();
      left := left - 16;
      j := j + 1;
    }
    ScheduleSteps(o, mem[..], c, j);
    if Independent(c) {
      ScheduleIsRounds(o, old(mem[..]), c, 0);
    }
  }

  lemma ScheduleSteps<B>(o: Ops<B>, mem: seq<B>, c: Call, j: nat)
    requires c.InBounds(|mem|) && j <= c.blocks
    ensures c.flags.allowParallel && c.blocks - j >= 6 ==>
              Schedule(o, mem, c, j) == Schedule(o, Batch(o, mem, c, j), c, j + 6)
    ensures !(c.flags.allowParallel && c.blocks - j >= 6) && j < c.blocks ==>
              c.Within(j, |mem|) && Schedule(o, mem, c, j) == Schedule(o, Single(o, mem, c, j), c, j + 1)
    ensures j == c.blocks ==> Schedule(o, mem, c, j) == mem
  {
    hide Batch, Single;
    assert j < c.blocks ==> c.Within(j, |mem|);
  }

  // ---------- The base class ----------

  /** Where the xor blocks are: there are none, or here; or the null pointer has been moved, and is null no more. */
  datatype XorPointer = Null | At(block: int) | Stray

  function Moved(p: XorPointer, n: int): XorPointer {
    match p
    case Null => if n == 0 then Null else Stray
    case At(block) => At(block + n)
    case Stray => Stray
  }

  /** The bytes that make no block, unless a stray pointer has been read. */
  datatype Processed = Left(bytes: nat) | InvalidRead

  /** A backward call moves the pointer to the xor blocks to the last of them before it asks whether there are any. */
  predicate ReadsStray(c: Call) {
    c.flags.reverse && !c.hasXor && c.blocks > 1
  }

  /** Where the loop has the xor blocks in round j. */
  function XorPointerAt(c: Call, j: nat): XorPointer {
    if c.hasXor then At(c.XorAt(j)) else if c.flags.reverse && c.blocks != 1 then Stray else Null
  }

  method BasicRound<B>(mem: array<B>, o: Ops<B>, c: Call, inBlocks: int, xorBlocks: XorPointer, outBlocks: int,
                       ghost j: nat)
    requires c.Within(j, mem.Length) && xorBlocks == XorPointerAt(c, j) && xorBlocks != Stray
    requires inBlocks == c.In(j) && outBlocks == c.Out(j)
    modifies mem
    ensures mem[..] == Round(o, old(mem[..]), c, j)
  {
    if xorBlocks != Null && c.flags.xorInput {
      mem[outBlocks] := o.enc(o.xor(mem[inBlocks], mem[xorBlocks.block]));
    } else if xorBlocks != Null {
      mem[outBlocks] := o.xor(o.enc(mem[inBlocks]), mem[xorBlocks.block]);
    } else {
      mem[outBlocks] := o.enc(mem[inBlocks]);
    }
    if c.flags.inBlockIsCounter {
      mem[inBlocks] := o.next(mem[inBlocks]);
    }
  }

  /** How many blocks are left of length bytes after j of them. */
  lemma BlocksLeft(length: nat, blockSize: nat, j: nat)
    requires blockSize > 0 && j <= length / blockSize
    ensures length - j * blockSize >= 0 && (length - j * blockSize >= blockSize <==> j < length / blockSize)
    ensures j == length / blockSize ==> length - j * blockSize == length % blockSize
    ensures (j + 1) * blockSize == j * blockSize + blockSize
  {
    var q := length / blockSize;
    DivModLaw(length, blockSize);
    MulDistributes(j, 1, blockSize);
    MulMonotone(j, q, blockSize);
    if j < q {
      MulMonotone(j + 1, q, blockSize);
    }
  }

  /**
   One block at a time, of any size and whatever the flags; but backward, without xor blocks, a stray pointer is read.
   */
  method BasicProcessBlocks<B>(mem: array<B>, o: Ops<B>, c: Call, blockSize: nat, length: nat) returns (r: Processed)
    requires c.InBounds(mem.Length) && blockSize > 0 && c.blocks == length / blockSize
    requires c.flags.reverse ==> length % blockSize == 0
    modifies mem
    ensures r.InvalidRead? <==> ReadsStray(c)
    ensures r.Left? ==> r.bytes == length % blockSize && mem[..] == Rounds(o, old(mem[..]), c, 0, c.blocks)
  {
    hide Round;
    var inBlocks, outBlocks := c.inBlocks, c.outBlocks;
    var xorBlocks := if c.hasXor then At(c.xorBlocks) else Null;
    var left := length;
    if c.flags.reverse {
      var last := length / blockSize - 1;
      inBlocks, xorBlocks, outBlocks := inBlocks + last, Moved(xorBlocks, last), outBlocks + last;
    }
    ghost var j: nat := 0;
    BlocksLeft(length, blockSize, 0);
    while left >= blockSize
      invariant j <= c.blocks && left == length - j * blockSize && (j > 0 ==> xorBlocks != Stray)
      invariant left >= blockSize <==> j < c.blocks
      invariant inBlocks == c.In(j) && xorBlocks == XorPointerAt(c, j) && outBlocks == c.Out(j)
      invariant mem[..] == Rounds(o, old(mem[..]), c, 0, j)
      decreases c.blocks - j
    {
      assert c.Within(j, mem.Length);
      if xorBlocks == Stray {
        return InvalidRead;
      }
      BasicRound(mem, o, c, inBlocks, xorBlocks, outBlocks, j);
      inBlocks := inBlocks + c.InIncrement();
      xorBlocks := Moved(xorBlocks, c.XorIncrement());
      outBlocks := outBlocks + c.OutIncrement();
      BlocksLeft(length, blockSize, j);
      BlocksLeft(length, blockSize, j + 1);
      left := left - blockSize;
      j := j + 1;
    }
    BlocksLeft(length, blockSize, j);
    r := Left(left);
  }

  const TWO_BACKWARD: Call := Call(0, false, 0, 0, 2, Flags(false, false, false, true, false))

  lemma TwoBackwardIs()
    ensures TWO_BACKWARD.InBounds(2) && Independent(TWO_BACKWARD) && ReadsStray(TWO_BACKWARD)
    ensures TWO_BACKWARD.blocks == 2
    ensures TWO_BACKWARD.flags.reverse
  {
  }

  lemma TwoBackwardRound<B>(o: Ops<B>, mem: seq<B>, j: nat)
    requires |mem| == 2 && j < 2
    ensures TWO_BACKWARD.Within(j, 2) && Round(o, mem, TWO_BACKWARD, j) == mem[1 - j := o.enc(mem[1 - j])]
  {
  }

  lemma TwoBackwardRounds<B>(o: Ops<B>, mem: seq<B>)
    requires |mem| == 2
    ensures TWO_BACKWARD.InBounds(2) && TWO_BACKWARD.blocks == 2
    ensures Rounds(o, mem, TWO_BACKWARD, 0, 2) == [o.enc(mem[0]), o.enc(mem[1])]
  {
    hide *;
    TwoBackwardIs();
    LastRound(o, mem, TWO_BACKWARD, 0, 2);
    LastRound(o, mem, TWO_BACKWARD, 0, 1);
    NoRounds(o, mem, TWO_BACKWARD, 0);
    TwoBackwardRound(o, mem, 0);
    TwoBackwardRound(o, Rounds(o, mem, TWO_BACKWARD, 0, 1), 1);
  }

  /** Two blocks backward, without xor blocks: the base class reads a stray pointer, the template enciphers both. */
  method BackwardWithoutXor<B>(mem: array<B>, o: Ops<B>) returns (r: Processed)
    requires mem.Length == 2
    modifies mem
    ensures r.InvalidRead? && mem[..] == [o.enc(old(mem[0])), o.enc(old(mem[1]))]
  {
    hide *;
    TwoBackwardIs();
    TwoBackwardRounds(o, mem[..]);
    var first := mem[0];
    var spare := new B[2](_ => first);
    r := BasicProcessBlocks(spare, o, TWO_BACKWARD, 16, 32);
    var _ := AdvancedProcessBlocks128(mem, o, TWO_BACKWARD, 32);
  }
}
