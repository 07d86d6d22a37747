/**
 When AdvancedProcessBlocks may take six blocks at a time, and what its calls compute: independent
 blocks and counters.
 */
module BlockModes {
  import opened BatchedBlocks

  // ---------- Exactly when batches may be used ----------

  /** The number of blocks that an output lies ahead, in the direction of travel, of where it would be read. */
  function Ahead(c: Call, from: int): int {
    if c.flags.reverse then from - c.outBlocks else c.outBlocks - from
  }

  /** An output that the same batch would have to read. */
  predicate Unsafe(c: Call, from: int) {
    1 <= Ahead(c, from) <= 5
  }

  predicate SafeDistance(c: Call) {
    !Unsafe(c, c.inBlocks) && (c.hasXor ==> !Unsafe(c, c.xorBlocks))
  }

  /** The input is exclusive-ored with itself, so that it does not matter what it is. */
  predicate SelfXored(c: Call) {
    c.hasXor && c.flags.xorInput && c.xorBlocks == c.inBlocks
  }

  predicate Moving(c: Call) {
    !c.flags.inBlockIsCounter && !c.flags.dontIncrement
  }

  lemma SafeIsIndependent(c: Call)
    requires Moving(c) && (c.flags.allowParallel && c.blocks >= 6 ==> SafeDistance(c))
    ensures Independent(c)
  {
  }

  // ---------- An input exclusive-ored with itself ----------

  lemma SelfXoredRound<B>(o: Ops<B>, z: B, mem: seq<B>, c: Call, j: nat)
    requires c.Within(j, |mem|) && Moving(c) && SelfXored(c) && forall x :: o.xor(x, x) == z
    ensures Round(o, mem, c, j) == mem[c.Out(j) := o.enc(z)] == Single(o, mem, c, j)
  {
  }

  lemma {:induction false} SelfXoredBatch<B>(o: Ops<B>, z: B, mem: seq<B>, c: Call, j: nat, n: nat)
    requires c.InBounds(|mem|) && j + n <= c.blocks && j < c.blocks
    requires Moving(c) && SelfXored(c) && forall x :: o.xor(x, x) == z
    ensures Stored(o, mem, mem, c, j, n) == Rounds(o, mem, c, j, n)
    decreases n
  {
    hide Round, Single;
    if n > 0 {
      assert c.Within(j, |mem|) && c.Within(j + n - 1, |mem|);
      SelfXoredBatch(o, z, mem, c, j, n - 1);
      SelfXoredRound(o, z, Rounds(o, mem, c, j, n - 1), c, j + n - 1);
    }
  }

  /** With an exclusive or that cancels, such a call may be batched at any distance. */
  lemma {:induction false} SelfXoredSchedule<B>(o: Ops<B>, z: B, mem: seq<B>, c: Call, j: nat)
    requires c.InBounds(|mem|) && j <= c.blocks && Moving(c) && SelfXored(c) && forall x :: o.xor(x, x) == z
    ensures Schedule(o, mem, c, j) == Rounds(o, mem, c, j, c.blocks - j)
    decreases c.blocks - j
  {
    hide Stored, Single, Round;
    if c.flags.allowParallel && c.blocks - j >= 6 {
      SelfXoredBatch(o, z, mem, c, j, 6);
      SelfXoredSchedule(o, z, Batch(o, mem, c, j), c, j + 6);
      RoundsSplit(o, mem, c, j, 6, c.blocks - j - 6);
    } else if j < c.blocks {
      SelfXoredRound(o, z, mem, c, j);
      SelfXoredSchedule(o, z, Single(o, mem, c, j), c, j + 1);
      RoundsSplit(o, mem, c, j, 1, c.blocks - j - 1);
      assert Rounds(o, mem, c, j, 0) == mem;
    }
  }

  // ---------- What rounds leave alone ----------

  /** Rounds write no block but their own output. */
  lemma {:induction false} RoundsKeep<B>(o: Ops<B>, mem: seq<B>, c: Call, j: nat, n: nat, p: nat)
    requires c.InBounds(|mem|) && j + n <= c.blocks && p < |mem| && !c.flags.inBlockIsCounter
    requires forall a :: j <= a < j + n ==> c.Out(a) != p
    ensures Rounds(o, mem, c, j, n)[p] == mem[p]
    decreases n
  {
    if n > 0 {
      assert c.Within(j + n - 1, |mem|);
      RoundsKeep(o, mem, c, j, n - 1, p);
    }
  }

  lemma {:induction false} ScheduleKeeps<B>(o: Ops<B>, mem: seq<B>, c: Call, j: nat, p: nat)
    requires c.InBounds(|mem|) && j <= c.blocks && p < |mem| && !c.flags.inBlockIsCounter
    requires forall a :: j <= a < c.blocks ==> c.Out(a) != p
    ensures Schedule(o, mem, c, j)[p] == mem[p]
    decreases c.blocks - j
  {
    hide Stored;
    if c.flags.allowParallel && c.blocks - j >= 6 {
      assert c.Within(j, |mem|);
      StoredElsewhere(o, mem, Counted(o, mem, c, j, 6), c, j, 6, p);
      ScheduleKeeps(o, Batch(o, mem, c, j), c, j + 6, p);
    } else if j < c.blocks {
      assert c.Within(j, |mem|);
      ScheduleKeeps(o, Single(o, mem, c, j), c, j + 1, p);
    }
  }

  /** A stored block stays as it was stored, when every round has an output of its own. */
  lemma {:induction false} StoredAt<B>(o: Ops<B>, mem: seq<B>, counted: seq<B>, c: Call, j: nat, n: nat, i: nat)
    requires |counted| == |mem| && c.InBounds(|mem|) && j + n <= c.blocks && j < c.blocks && i < n
    requires !c.flags.dontIncrement
    ensures c.Within(j, |mem|) && c.Within(j + i, |mem|)
    ensures Stored(o, mem, counted, c, j, n)[c.Out(j + i)] == Value(o, mem, counted, c, j, i)
    decreases n
  {
    assert c.Within(j, |mem|) && c.Within(j + i, |mem|) && c.Within(j + n - 1, |mem|);
    if i < n - 1 {
      StoredAt(o, mem, counted, c, j, n - 1, i);
    }
  }

  lemma OneMore<B>(o: Ops<B>, mem: seq<B>, c: Call, d: nat)
    requires c.InBounds(|mem|) && d < c.blocks
    ensures c.Within(d, |mem|) && Rounds(o, mem, c, 0, d + 1) == Round(o, Rounds(o, mem, c, 0, d), c, d)
  {
    assert c.Within(d, |mem|);
  }

  lemma OutputsDiffer(c: Call, d: nat)
    requires Moving(c)
    ensures forall a :: d < a ==> c.Out(a) != c.Out(d)
  {
  }

  /** What round d wrote is what is there after n rounds. */
  lemma WrittenStays<B>(o: Ops<B>, mem: seq<B>, c: Call, d: nat, n: nat)
    requires c.InBounds(|mem|) && Moving(c) && d < n <= c.blocks
    ensures c.Within(d, |mem|)
    ensures Rounds(o, mem, c, 0, n)[c.Out(d)] == Round(o, Rounds(o, mem, c, 0, d), c, d)[c.Out(d)]
  {
    hide Rounds, Round, Times, Call.Shift, Call.InIncrement, Call.OutIncrement, Call.XorIncrement;
    OneMore(o, mem, c, d);
    OutputsDiffer(c, d);
    RoundsSplit(o, mem, c, 0, d + 1, n - d - 1);
    RoundsKeep(o, Rounds(o, mem, c, 0, d + 1), c, d + 1, n - d - 1, c.Out(d));
  }

  // ---------- The blocks of the template ----------

  function XorBlocks(x: bv128, y: bv128): bv128 {
    x ^ y
  }

  /** The last byte is counted up. */
  function CountUp(x: bv128): bv128 {
    (x & 0xffff_ffff_ffff_ffff_ffff_ffff_ffff_ff00) | ((x + 1) & 0xff)
  }

  /** The operations of a cipher on blocks of 128 bits. */
  function Blocks128(enc: bv128 -> bv128): Ops<bv128> {
    Ops(enc, XorBlocks, CountUp)
  }

  ghost predicate Injective<A(!new), B>(f: A -> B) {
    forall x, y :: f(x) == f(y) ==> x == y
  }

  function AddOne(x: bv128): bv128 {
    x + 1
  }

  lemma AddOneIsCipher()
    ensures Injective(AddOne)
  {
  }

  function Zeros(size: nat): (r: seq<bv128>)
    ensures |r| == size && forall i :: 0 <= i < size ==> r[i] == 0
  {
    seq(size, _ => 0)
  }

  /** What round makes of its input and its xor block. */
  function Combined<B>(o: Ops<B>, c: Call, a: B, b: B): B {
    if !c.hasXor then o.enc(a) else if c.flags.xorInput then o.enc(o.xor(a, b)) else o.xor(o.enc(a), b)
  }

  lemma RoundCombines<B>(o: Ops<B>, mem: seq<B>, c: Call, j: nat)
    requires c.Within(j, |mem|) && Moving(c)
    ensures Round(o, mem, c, j)[c.Out(j)] ==
            Combined(o, c, mem[c.In(j)], if c.hasXor then mem[c.XorAt(j)] else mem[c.In(j)])
  {
  }

  /** With the cipher that adds one, zeros give one, and a single one, or two that are not cancelled, do not. */
  lemma AddOneTells(c: Call, a: bv128, b: bv128)
    requires (a == 0 || a == 1) && (b == 0 || b == 1)
    ensures a == b == 0 ==> Combined(Blocks128(AddOne), c, a, b) == 1
    ensures a == 1 && b == 0 ==> Combined(Blocks128(AddOne), c, a, b) != 1
    ensures a == 0 && b == 1 && c.hasXor ==> Combined(Blocks128(AddOne), c, a, b) != 1
    ensures a == b == 1 && !(c.hasXor && c.flags.xorInput) ==> Combined(Blocks128(AddOne), c, a, b) != 1
  {
  }

  /** The first batch makes every block of zeros one. */
  lemma BatchMakesOne(c: Call, size: nat, d: nat)
    requires c.InBounds(size) && Moving(c) && c.flags.allowParallel && c.blocks >= 6 && d < 6
    ensures 0 <= c.Out(d) < size && Schedule(Blocks128(AddOne), Zeros(size), c, 0)[c.Out(d)] == 1
  {
    hide Stored, Schedule, Blocks128, AddOne;
    var mem, o := Zeros(size), Blocks128(AddOne);
    assert c.Within(d, size) && c.Within(0, size);
    StoredAt(o, mem, mem, c, 0, 6, d);
    AddOneTells(c, 0, 0);
    ScheduleSteps(o, mem, c, 0);
    ScheduleKeeps(o, Batch(o, mem, c, 0), c, 6, c.Out(d));
  }

  /** What round d finds at p, when the output lies d or more ahead: zero, or what round 0 wrote. */
  lemma FoundBefore(c: Call, size: nat, d: nat, from: int, p: nat)
    requires c.InBounds(size) && Moving(c) && 1 <= d < c.blocks && p < size
    requires p == from + c.Shift() + Times(c.OutIncrement(), d) && (Ahead(c, from) < 1 || Ahead(c, from) >= d)
    ensures Rounds(Blocks128(AddOne), Zeros(size), c, 0, d)[p] == if Ahead(c, from) == d then 1 else 0
  {
    var mem, o := Zeros(size), Blocks128(AddOne);
    hide Rounds, Round, Blocks128, AddOne, Zeros;
    if Ahead(c, from) == d {
      assert c.Out(0) == p;
      WrittenStays(o, mem, c, 0, d);
      NoRounds(o, mem, c, 0);
      RoundCombines(o, mem, c, 0);
      AddOneTells(c, 0, 0);
    } else {
      RoundsKeep(o, mem, c, 0, d, p);
    }
  }

  /** At the nearest unsafe distance the loop reads what its first round wrote. */
  lemma LoopMakesOther(c: Call, size: nat, d: nat)
    requires c.InBounds(size) && Moving(c) && 1 <= d < c.blocks && !SelfXored(c)
    requires Ahead(c, c.inBlocks) < 1 || Ahead(c, c.inBlocks) >= d
    requires c.hasXor ==> Ahead(c, c.xorBlocks) < 1 || Ahead(c, c.xorBlocks) >= d
    requires Ahead(c, c.inBlocks) == d || (c.hasXor && Ahead(c, c.xorBlocks) == d)
    ensures 0 <= c.Out(d) < size && Rounds(Blocks128(AddOne), Zeros(size), c, 0, c.blocks)[c.Out(d)] != 1
  {
    var mem, o := Zeros(size), Blocks128(AddOne);
    hide Rounds, Round, Blocks128, AddOne, Zeros, Combined;
    assert c.Within(d, size);
    WrittenStays(o, mem, c, d, c.blocks);
    RoundCombines(o, Rounds(o, mem, c, 0, d), c, d);
    FoundBefore(c, size, d, c.inBlocks, c.In(d));
    if c.hasXor {
      FoundBefore(c, size, d, c.xorBlocks, c.XorAt(d));
    }
    AddOneTells(c, Rounds(o, mem, c, 0, d)[c.In(d)],
                if c.hasXor then Rounds(o, mem, c, 0, d)[c.XorAt(d)] else Rounds(o, mem, c, 0, d)[c.In(d)]);
  }

  /** The nearest of the unsafe distances. */
  function Nearest(c: Call): (d: nat)
    requires !SafeDistance(c)
    ensures 1 <= d <= 5 && (Unsafe(c, c.inBlocks) ==> d <= Ahead(c, c.inBlocks))
    ensures c.hasXor && Unsafe(c, c.xorBlocks) ==> d <= Ahead(c, c.xorBlocks)
    ensures d == Ahead(c, c.inBlocks) || (c.hasXor && d == Ahead(c, c.xorBlocks))
  {
    if Unsafe(c, c.inBlocks) && !(c.hasXor && Unsafe(c, c.xorBlocks) && Ahead(c, c.xorBlocks) < Ahead(c, c.inBlocks))
    then Ahead(c, c.inBlocks) else Ahead(c, c.xorBlocks)
  }

  /** At an unsafe distance the cipher that adds one, on a memory of zeros, tells batches from the loop. */
  lemma UnsafeDistanceMatters(c: Call, size: nat)
    requires c.InBounds(size) && Moving(c) && c.flags.allowParallel && c.blocks >= 6
    requires !SafeDistance(c) && !SelfXored(c)
    ensures Schedule(Blocks128(AddOne), Zeros(size), c, 0) != Rounds(Blocks128(AddOne), Zeros(size), c, 0, c.blocks)
  {
    var d := Nearest(c);
    BatchMakesOne(c, size, d);
    LoopMakesOther(c, size, d);
  }

  /** There are no batches, or no round reads what its own batch has written, or the input cancels. */
  predicate MayBatch(c: Call) {
    !c.flags.allowParallel || c.blocks < 6 || SafeDistance(c) || SelfXored(c)
  }

  lemma MayBatchSuffices(c: Call, enc: bv128 -> bv128, mem: seq<bv128>)
    requires c.InBounds(|mem|) && Moving(c) && MayBatch(c)
    ensures Schedule(Blocks128(enc), mem, c, 0) == Rounds(Blocks128(enc), mem, c, 0, c.blocks)
  {
    hide Schedule, Rounds;
    if SelfXored(c) {
      SelfXoredSchedule(Blocks128(enc), 0, mem, c, 0);
    } else {
      SafeIsIndependent(c);
      ScheduleIsRounds(Blocks128(enc), mem, c, 0);
    }
  }

  /** Batches give what the loop gives, for every cipher and memory, exactly where they may be used. */
  lemma BatchesAgree(c: Call, size: nat)
    requires c.InBounds(size) && Moving(c)
    ensures MayBatch(c) <==>
            forall enc: bv128 -> bv128, mem: seq<bv128> {:trigger Schedule(Blocks128(enc), mem, c, 0)} ::
              Injective(enc) && |mem| == size ==>
                Schedule(Blocks128(enc), mem, c, 0) == Rounds(Blocks128(enc), mem, c, 0, c.blocks)
  {
    hide Schedule, Rounds, Blocks128;
    if MayBatch(c) {
      forall enc: bv128 -> bv128, mem: seq<bv128> | Injective(enc) && |mem| == size
        ensures Schedule(Blocks128(enc), mem, c, 0) == Rounds(Blocks128(enc), mem, c, 0, c.blocks)
      {
        MayBatchSuffices(c, enc, mem);
      }
    } else {
      AddOneIsCipher();
      UnsafeDistanceMatters(c, size);
    }
  }

  // ---------- Independent blocks ----------

  /** The output of round j, from the memory as it was before the call. */
  function Output<B>(o: Ops<B>, mem: seq<B>, c: Call, j: nat): B
    requires c.Within(0, |mem|) && c.Within(j, |mem|)
  {
    Value(o, mem, mem, c, 0, j)
  }

  predicate IsOutput(c: Call, p: int) {
    exists j :: 0 <= j < c.blocks && c.Out(j) == p
  }

  /** When no round reads what an earlier one wrote, every output is computed from the memory before the call. */
  lemma OutputAt<B>(o: Ops<B>, mem: seq<B>, c: Call, j: nat)
    requires c.InBounds(|mem|) && Free(c, 0, c.blocks) && !c.flags.dontIncrement && j < c.blocks
    ensures c.Within(0, |mem|) && c.Within(j, |mem|)
    ensures Rounds(o, mem, c, 0, c.blocks)[c.Out(j)] == Output(o, mem, c, j)
  {
    hide Rounds, Stored, Free;
    assert c.Within(0, |mem|) && c.Within(j, |mem|);
    var counted := Counted(o, mem, c, 0, c.blocks);
    BatchIsRounds(o, mem, c, 0, c.blocks);
    StoredAt(o, mem, counted, c, 0, c.blocks, j);
    CounterApart(c, 0, c.blocks, j);
  }

  /** What is no output stays, except that the counter has been counted up once for every block. */
  lemma ElsewhereAt<B>(o: Ops<B>, mem: seq<B>, c: Call, p: nat)
    requires c.InBounds(|mem|) && Free(c, 0, c.blocks) && c.blocks > 0 && p < |mem| && !IsOutput(c, p)
    ensures Rounds(o, mem, c, 0, c.blocks)[p] ==
            if c.flags.inBlockIsCounter && p == c.In(0) then Advance(o, mem[p], c.blocks) else mem[p]
  {
    hide Rounds, Stored, Free;
    assert c.Within(0, |mem|);
    BatchIsRounds(o, mem, c, 0, c.blocks);
    forall a | 0 <= a < c.blocks ensures c.Out(a) != p {
      assert c.Out(a) != p;
    }
    StoredElsewhere(o, mem, Counted(o, mem, c, 0, c.blocks), c, 0, c.blocks, p);
  }

  lemma FreeIsIndependent(c: Call)
    requires Free(c, 0, c.blocks)
    ensures Independent(c)
  {
    forall j | 0 <= j && j + 6 <= c.blocks ensures Free(c, j, 6) {
    }
    if c.flags.inBlockIsCounter {
      forall j | 0 <= j < c.blocks ensures Free(c, j, 1) {
      }
    }
  }

  /** The buffers lie apart, or coincide, or the output stays behind in the direction of travel. */
  predicate StaysBehind(c: Call, from: int) {
    Ahead(c, from) <= 0 || Ahead(c, from) >= c.blocks
  }

  /** The round that writes the block at offset j of the output. */
  function RoundOf(c: Call, j: nat): nat
    requires j < c.blocks
  {
    if c.flags.reverse then c.blocks - 1 - j else j
  }

  /** In either direction blocks are enciphered one by one, exclusive or before or after. */
  lemma IndependentBlocks<B>(o: Ops<B>, mem: seq<B>, c: Call, j: nat)
    requires c.InBounds(|mem|) && Moving(c) && j < c.blocks
    requires StaysBehind(c, c.inBlocks) && (c.hasXor ==> StaysBehind(c, c.xorBlocks))
    ensures 0 <= c.inBlocks + j < |mem| && 0 <= c.outBlocks + j < |mem| && (c.hasXor ==> 0 <= c.xorBlocks + j < |mem|)
    ensures Schedule(o, mem, c, 0) == Rounds(o, mem, c, 0, c.blocks)
    ensures Schedule(o, mem, c, 0)[c.outBlocks + j] ==
            Combined(o, c, mem[c.inBlocks + j], mem[if c.hasXor then c.xorBlocks + j else c.inBlocks + j])
  {
    hide *;
    StayingBehindIsFree(c);
    OutputCombines(o, mem, c, j);
    FreeIsIndependent(c);
    ScheduleIsRounds(o, mem, c, 0);
    OutputAt(o, mem, c, RoundOf(c, j));
  }

  lemma OutputCombines<B>(o: Ops<B>, mem: seq<B>, c: Call, j: nat)
    requires c.InBounds(|mem|) && Moving(c) && j < c.blocks
    ensures RoundOf(c, j) < c.blocks && c.Within(0, |mem|) && c.Within(RoundOf(c, j), |mem|)
    ensures c.Out(RoundOf(c, j)) == c.outBlocks + j && !c.flags.dontIncrement
    ensures 0 <= c.inBlocks + j < |mem| && 0 <= c.outBlocks + j < |mem| && (c.hasXor ==> 0 <= c.xorBlocks + j < |mem|)
    ensures Output(o, mem, c, RoundOf(c, j)) ==
            Combined(o, c, mem[c.inBlocks + j], mem[if c.hasXor then c.xorBlocks + j else c.inBlocks + j])
  {
    assert c.Within(0, |mem|) && c.Within(RoundOf(c, j), |mem|);
  }

  lemma StayingBehindIsFree(c: Call)
    requires Moving(c) && StaysBehind(c, c.inBlocks) && (c.hasXor ==> StaysBehind(c, c.xorBlocks))
    ensures Free(c, 0, c.blocks)
  {
  }

  /** A call in counter mode: the input, if there is any, is exclusive-ored with the encrypted counters. */
  function CounterCall(counter: int, hasXor: bool, input: int, out: int, n: nat): Call {
    Call(counter, hasXor, input, out, n, Flags(true, false, false, false, true))
  }

  /** The counter lies outside both buffers, and the output does not run ahead of the input. */
  predicate CounterApartFrom(c: Call, size: nat) {
    && 0 <= c.inBlocks < size && 0 <= c.outBlocks && c.outBlocks + c.blocks <= size
    && !(c.outBlocks <= c.inBlocks < c.outBlocks + c.blocks)
    && (c.hasXor ==> 0 <= c.xorBlocks && c.xorBlocks + c.blocks <= size)
    && (c.hasXor ==> !(c.xorBlocks <= c.inBlocks < c.xorBlocks + c.blocks))
    && (c.hasXor ==> c.outBlocks <= c.xorBlocks || c.outBlocks >= c.xorBlocks + c.blocks)
  }

  /** Counter mode: block j is the encryption of the counter counted up j times, exclusive-ored with the input. */
  lemma CounterBlocks<B>(o: Ops<B>, mem: seq<B>, counter: int, hasXor: bool, input: int, out: int, n: nat, j: nat)
    requires CounterApartFrom(CounterCall(counter, hasXor, input, out, n), |mem|) && j < n
    ensures var c := CounterCall(counter, hasXor, input, out, n);
            && c.InBounds(|mem|) && Schedule(o, mem, c, 0) == Rounds(o, mem, c, 0, n)
            && Schedule(o, mem, c, 0)[out + j] == KeyStreamed(o, mem, c, j)
            && Schedule(o, mem, c, 0)[counter] == Advance(o, mem[counter], n)
  {
    var c := CounterCall(counter, hasXor, input, out, n);
    hide *;
    CounterCallIs(counter, hasXor, input, out, n, |mem|);
    CounterFree(c);
    CounterOutput(o, mem, c, j);
    FreeIsIndependent(c);
    ScheduleIsRounds(o, mem, c, 0);
    OutputAt(o, mem, c, j);
    ElsewhereAt(o, mem, c, counter);
  }

  lemma CounterCallIs(counter: int, hasXor: bool, input: int, out: int, n: nat, size: nat)
    requires CounterApartFrom(CounterCall(counter, hasXor, input, out, n), size)
    ensures var c := CounterCall(counter, hasXor, input, out, n);
            c == Call(counter, hasXor, input, out, n, Flags(true, false, false, false, true)) &&
            !IsOutput(c, counter) && 0 <= counter < size && 0 <= out && out + n <= size &&
            !(out <= counter < out + n) && (hasXor ==> !(input <= counter < input + n)) &&
            (hasXor ==> out <= input || out >= input + n)
  {
  }

  function KeyStreamed<B>(o: Ops<B>, mem: seq<B>, c: Call, j: nat): B
    requires CounterApartFrom(c, |mem|) && j < c.blocks
  {
    var k := o.enc(Advance(o, mem[c.inBlocks], j));
    if c.hasXor then o.xor(k, mem[c.xorBlocks + j]) else k
  }

  lemma CounterOutput<B>(o: Ops<B>, mem: seq<B>, c: Call, j: nat)
    requires CounterApartFrom(c, |mem|) && j < c.blocks
    requires c.flags == Flags(true, false, false, false, true)
    ensures c.InBounds(|mem|) && c.Within(0, |mem|) && c.Within(j, |mem|)
    ensures Output(o, mem, c, j) == KeyStreamed(o, mem, c, j) && c.Out(j) == c.outBlocks + j && c.In(0) == c.inBlocks
  {
  }

  lemma CounterFree(c: Call)
    requires c.flags.inBlockIsCounter && !c.flags.reverse && !c.flags.dontIncrement
    requires !(c.outBlocks <= c.inBlocks < c.outBlocks + c.blocks)
    requires c.hasXor ==> !(c.xorBlocks <= c.inBlocks < c.xorBlocks + c.blocks)
    requires c.hasXor ==> c.outBlocks <= c.xorBlocks || c.outBlocks >= c.xorBlocks + c.blocks
    ensures Free(c, 0, c.blocks)
  {
  }
}
