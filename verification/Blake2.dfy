/**
 BLAKE2_Base: the last block is compressed only at the end, under a two-word count of the bytes and a last-block flag.
 */
module Blake2 {
  import opened PowersOfTwo
  import opened Radix
  import opened Blocks

  /** What a compression is told besides its block: the count of bytes in two words, and the finalization flags. */
  datatype Control = Control(t0: nat, t1: nat, f0: bool, f1: bool)

  /**
   A compression function on any type of hash states, the size of its blocks and the number of values of its words.
   */
  datatype Function<!H> = Function(F: (H, Bytes, Control) -> H, block: nat, words: nat)

  predicate Sized<H>(f: Function<H>) {
    0 < f.block < f.words
  }

  // ---------- The one-shot definition ----------

  /** A count of n bytes: the low word, and the high word that takes the carries. */
  function CountOf(n: nat, words: nat, last: bool, node: bool): Control
    requires words > 0
  {
    Control(n % words, n / words % words, last, node)
  }

  /** The two words make up the offset of section 3.2 of RFC 7693; the flags mark the last block and the last node. */
  lemma CountReads(n: nat, words: nat, last: bool, node: bool)
    requires words > 0
    ensures var c := CountOf(n, words, last, node);
            && c.t0 < words && c.t1 < words && c.f0 == last && c.f1 == node
            && words * words > 0 && c.t0 + words * c.t1 == n % (words * words)
  {
    var q := n / words;
    DivModLaw(n, words);
    DivModLaw(q, words);
    MulMonotone(1, words, words);
    var a, t1, t0 := q / words, q % words, n % words;
    MulDistributes(a * words, t1, words);
    MulAssoc(a, words, words);
    MulMonotone(t1 + 1, words, words);
    MulDistributes(t1, 1, words);
    DivModUnique(n, words * words, a, t1 * words + t0);
  }

  /** The whole blocks of data, compressed in turn; before them, count bytes have been. */
  function Chain<H>(f: Function<H>, h: H, data: Bytes, count: nat): H
    requires Sized(f)
    decreases |data|
  {
    if |data| < f.block then h
    else
      var next := count + f.block;
      Chain(f, f.F(h, data[..f.block], CountOf(next, f.words, false, false)), data[f.block..], next)
  }

  /** All but the last one to block bytes are chained; those are filled up with zeros and compressed under the flags. */
  function Hash<H>(f: Function<H>, init: H, data: Bytes, tree: bool): H
    requires Sized(f)
  {
    var n := HeadLength(|data|, f.block);
    HeadBound(|data|, f.block);
    var last := data[n..];
    f.F(Chain(f, init, data[..n], 0), last + Zeros(f.block - |last|), CountOf(|data|, f.words, true, tree))
  }

  /** A keyed hash is the hash of the message after the key, filled up to a block. */
  function KeyBlock(key: Bytes, block: nat): Bytes
    requires |key| <= block
  {
    if key == [] then [] else key + Zeros(block - |key|)
  }

  lemma {:induction false} ChainConcat<H>(f: Function<H>, h: H, a: Bytes, b: Bytes, count: nat)
    requires Sized(f) && |a| % f.block == 0
    ensures Chain(f, h, a + b, count) == Chain(f, Chain(f, h, a, count), b, count + |a|)
    decreases |a|
  {
    if |a| == 0 {
      assert a + b == b;
    } else {
      MultipleAtLeast(|a|, f.block);
      assert (a + b)[..f.block] == a[..f.block] && (a + b)[f.block..] == a[f.block..] + b;
      var next := count + f.block;
      ChainConcat(f, f.F(h, a[..f.block], CountOf(next, f.words, false, false)), a[f.block..], b, next);
    }
  }

  lemma ChainOneBlock<H>(f: Function<H>, h: H, b: Bytes, count: nat)
    requires Sized(f) && |b| == f.block
    ensures Chain(f, h, b, count) == f.F(h, b, CountOf(count + f.block, f.words, false, false))
  {
    assert b[..f.block] == b && b[f.block..] == [];
  }

  // ---------- The counter ----------

  /** Adding to the low word wraps; the sum is then below the addend, and the high word takes the carry. */
  method IncrementCounter(t0: nat, t1: nat, count: nat, words: nat, ghost n: nat) returns (t0': nat, t1': nat)
    requires 0 < words && count < words && t0 == n % words && t1 == n / words % words
    ensures t0' == (n + count) % words && t1' == (n + count) / words % words
  {
    t0' := (t0 + count) % words;
    t1' := if t0' < count then (t1 + 1) % words else t1;
    CountCarries(n, count, words);
  }

  lemma CountCarries(n: nat, count: nat, words: nat)
    requires 0 < words && count < words
    ensures var low := (n % words + count) % words;
            && (n + count) % words == low
            && (n + count) / words == n / words + (if low < count then 1 else 0)
    ensures (n / words + 1) % words == (n / words % words + 1) % words
  {
    var q, r := n / words, n % words;
    DivModLaw(n, words);
    MulDistributes(q, 1, words);
    if r + count < words {
      DivModUnique(n + count, words, q, r + count);
      DivModUnique(r + count, words, 0, r + count);
    } else {
      DivModUnique(n + count, words, q + 1, r + count - words);
      DivModUnique(r + count, words, 1, r + count - words);
    }
    NextModulo(q, words);
  }

  lemma NextModulo(q: nat, words: nat)
    requires words > 0
    ensures (q + 1) % words == (q % words + 1) % words
  {
    var a, b := q / words, q % words;
    DivModLaw(q, words);
    MulDistributes(a, 1, words);
    if b + 1 < words {
      DivModUnique(q + 1, words, a, b + 1);
      DivModUnique(b + 1, words, 0, b + 1);
    } else {
      DivModUnique(q + 1, words, a + 1, 0);
      DivModUnique(b + 1, words, 1, 0);
    }
  }

  // ---------- The state ----------

  datatype State<H> = State(h: H, t0: nat, t1: nat, f0: bool, f1: bool, length: nat)

  /** What has been taken since the restart: whole blocks already compressed, and at most one block waiting. */
  datatype History = History(done: Bytes, waiting: Bytes) {
    function Taken(): Bytes { done + waiting }
  }

  /** The hash state is that after the compressed blocks, the counter their length, and no flag is up. */
  ghost predicate Compressed<H>(f: Function<H>, init: H, s: State<H>, done: Bytes) {
    && Sized(f) && |done| % f.block == 0 && s.h == Chain(f, init, done, 0)
    && Control(s.t0, s.t1, s.f0, s.f1) == CountOf(|done|, f.words, false, false)
  }

  ghost predicate Holds<H>(f: Function<H>, init: H, buf: Bytes, s: State<H>, h: History) {
    && Compressed(f, init, s, h.done) && (h.done != [] ==> h.waiting != [])
    && |buf| == f.block && s.length == |h.waiting| <= f.block && buf[..s.length] == h.waiting
  }

  /** IncrementCounter(); Compress(block): one more block of the chain. */
  method CompressBlock<H>(f: Function<H>, s: State<H>, block: Bytes, ghost init: H, ghost done: Bytes)
    returns (s': State<H>)
    requires Compressed(f, init, s, done) && |block| == f.block
    ensures Compressed(f, init, s', done + block)
  {
    hide Chain;
    var t0, t1 := IncrementCounter(s.t0, s.t1, f.block, f.words, |done|);
    ChainConcat(f, init, done, block, 0);
    ChainOneBlock(f, s.h, block, |done|);
    AddMultiple(|done|, f.block);
    s' := s.(h := f.F(s.h, block, Control(t0, t1, s.f0, s.f1)), t0 := t0, t1 := t1);
  }

  /** s with data written over it from position at on. */
  function Put(s: Bytes, at: nat, data: Bytes): (r: Bytes)
    requires at + |data| <= |s|
    ensures |r| == |s| && r[..at + |data|] == s[..at] + data
  {
    s[..at] + data + s[at + |data|..]
  }

  method CopyInto(a: array<bv8>, at: nat, data: Bytes)
    requires at + |data| <= a.Length
    modifies a
    ensures a[..] == Put(old(a[..]), at, data)
  {
    forall i | 0 <= i < |data| {
      a[at + i] := data[i];
    }
  }

  /** Update's loop: blocks are compressed where they lie as long as more follows. */
  method CompressInput<H>(f: Function<H>, s: State<H>, input: Bytes, ghost init: H, ghost done: Bytes)
    returns (s': State<H>, used: nat)
    requires Compressed(f, init, s, done) && |input| > 0
    ensures used < |input| && |input| - used <= f.block && Compressed(f, init, s', done + input[..used])
  {
    hide Compressed;
    s', used := s, 0;
    assert done + input[..0] == done;
    SizedFrom(f, init, s, done);
    while |input| - used > f.block
      invariant used < |input| && Compressed(f, init, s', done + input[..used])
      decreases |input| - used
    {
      var block := input[used..used + f.block];
      s' := CompressBlock(f, s', block, init, done + input[..used]);
      assert done + input[..used] + block == done + input[..used + f.block];
      used := used + f.block;
    }
  }

  lemma SizedFrom<H>(f: Function<H>, init: H, s: State<H>, done: Bytes)
    requires Compressed(f, init, s, done)
    ensures Sized(f)
  {
  }

  /** The tail of Update: bytes that fit the buffer wait in it. */
  method Wait<H>(f: Function<H>, buf: array<bv8>, s: State<H>, input: Bytes, ghost init: H, ghost h: History)
    returns (s': State<H>, ghost h': History)
    requires Compressed(f, init, s, h.done) && (h.done != [] ==> h.waiting != [] || input != [])
    requires buf.Length == f.block && s.length == |h.waiting| && s.length + |input| <= f.block
    requires buf[..s.length] == h.waiting
    modifies buf
    ensures Holds(f, init, buf[..], s', h') && h' == History(h.done, h.waiting + input)
  {
    hide Chain, CountOf;
    CopyInto(buf, s.length, input);
    s' := s.(length := s.length + |input|);
    assert buf[..s'.length] == buf[..][..s.length + |input|];
    h' := History(h.done, h.waiting + input);
  }

  /** The case where the input overflows the buffer: all but its last one to block bytes are compressed. */
  method Overflow<H>(f: Function<H>, buf: array<bv8>, s: State<H>, input: Bytes, ghost init: H, ghost h: History)
    returns (s': State<H>, rest: Bytes, ghost done: Bytes)
    requires Holds(f, init, buf[..], s, h) && s.length + |input| > buf.Length
    modifies buf
    ensures Compressed(f, init, s', done) && s'.length == 0 && 0 < |rest| <= f.block && done + rest == h.Taken() + input
  {
    var fill := buf.Length - s.length;
    CopyInto(buf, s.length, input[..fill]);
    ghost var block := h.waiting + input[..fill];
    assert buf[..] == buf[..][..s.length + fill] == block;
    hide Compressed, Put;
    s' := CompressBlock(f, s, buf[..], init, h.done);
    rest := input[fill..];
    var used;
    s', used := CompressInput(f, s', rest, init, h.done + block);
    done := h.done + block + rest[..used];
    assert done + rest[used..] == h.Taken() + input;
    rest := rest[used..];
    LengthApart(f, init, s', done);
    s' := s'.(length := 0);
  }

  lemma LengthApart<H>(f: Function<H>, init: H, s: State<H>, done: Bytes)
    requires Compressed(f, init, s, done)
    ensures Compressed(f, init, s.(length := 0), done)
  {
  }

  /** The body of Update. */
  method TakeInput<H>(f: Function<H>, buf: array<bv8>, s: State<H>, input: Bytes, ghost init: H, ghost h: History)
    returns (s': State<H>, ghost h': History)
    requires Holds(f, init, buf[..], s, h)
    modifies buf
    ensures Holds(f, init, buf[..], s', h') && h'.Taken() == h.Taken() + input
  {
    hide Compressed;
    if s.length + |input| > buf.Length {
      var rest; ghost var done;
      s', rest, done := Overflow(f, buf, s, input, init, h);
      s', h' := Wait(f, buf, s', rest, init, History(done, []));
      assert [] + rest == rest;
    } else {
      s', h' := Wait(f, buf, s, input, init, h);
      assert h.done + (h.waiting + input) == h.Taken() + input;
    }
  }

  // ---------- The object ----------

  /** The eight words of a hash state. */
  type Words = h: seq<nat> | |h| == 8 witness seq(8, _ => 0)

  type byte = x: nat | x < 256

  /** A word of k bytes as it lies in memory, its lowest byte first. */
  function LittleEndian(n: nat, k: nat): (r: seq<byte>)
    ensures |r| == k
  {
    if k == 0 then [] else [n % 256] + LittleEndian(n / 256, k - 1)
  }

  function FromLittleEndian(b: seq<byte>): nat {
    if b == [] then 0 else b[0] + 256 * FromLittleEndian(b[1..])
  }

  lemma {:induction false} WordReadsBack(n: nat, k: nat)
    requires n < Power(256, k)
    ensures FromLittleEndian(LittleEndian(n, k)) == n
    decreases k
  {
    if k > 0 {
      var b := LittleEndian(n, k);
      assert b[1..] == LittleEndian(n / 256, k - 1);
      WordReadsBack(n / 256, k - 1);
    }
  }

  /** The memory that words of k bytes fill. */
  function Layout(h: seq<nat>, k: nat): (r: seq<byte>)
    ensures |r| == |h| * k
  {
    if h == [] then [] else
      MulDistributes(1, |h| - 1, k);
      LittleEndian(h[0], k) + Layout(h[1..], k)
  }

  function WordsIn(b: seq<byte>, k: nat, n: nat): seq<nat>
    requires |b| == n * k
    decreases n
  {
    if n == 0 then [] else
      MulDistributes(1, n - 1, k);
      MulMonotone(0, n - 1, k);
      [FromLittleEndian(b[..k])] + WordsIn(b[k..], k, n - 1)
  }

  /** Every bit of the words is in their bytes. */
  lemma {:induction false} LayoutReadsBack(h: seq<nat>, k: nat)
    requires forall i :: 0 <= i < |h| ==> h[i] < Power(256, k)
    ensures WordsIn(Layout(h, k), k, |h|) == h
    decreases |h|
  {
    if h != [] {
      hide LittleEndian, FromLittleEndian, Power;
      WordReadsBack(h[0], k);
      LayoutReadsBack(h[1..], k);
      var b := Layout(h, k);
      assert b[..k] == LittleEndian(h[0], k) && b[k..] == Layout(h[1..], k);
    }
  }

  datatype Result = Digest(bytes: seq<byte>) | InvalidArgument

  /** A hash object: init is the state its parameter block sets up, key the block its key fills, if it has one. */
  class Blake2Base {
    const f: Function<Words>
    const wordBytes: nat
    const init: Words
    const key: Bytes
    const tree: bool
    const digestSize: nat
    const buffer: array<bv8>
    var s: State<Words>
    ghost var h: History

    ghost predicate Valid()
      reads this, buffer
    {
      Holds(f, init, buffer[..], s, h) && digestSize <= 8 * wordBytes
    }

    /** Sets up the state and takes in the key block. */
    method Restart()
      requires Sized(f) && buffer.Length == f.block && digestSize <= 8 * wordBytes
      modifies this, buffer
      ensures Valid() && h.Taken() == key
    {
      s := State(init, 0, 0, false, false, 0);
      h := History([], []);
      StartState(f, init, buffer[..], s);
      hide Holds;
      if |key| > 0 {
        s, h := TakeInput(f, buffer, s, key, init, h);
        assert [] + key == key;
      }
    }

    constructor (f: Function<Words>, wordBytes: nat, init: Words, key: Bytes, tree: bool, digestSize: nat)
      requires Sized(f) && |key| <= f.block && digestSize <= 8 * wordBytes
      ensures Valid() && fresh(buffer) && h.Taken() == this.key == KeyBlock(key, f.block)
      ensures this.f == f && this.init == init && this.tree == tree
      ensures this.wordBytes == wordBytes && this.digestSize == digestSize
    {
      this.f, this.init, this.tree := f, init, tree;
      this.wordBytes, this.digestSize := wordBytes, digestSize;
      var temp: Bytes := [];
      if |key| > 0 {
        temp := seq(f.block, i requires 0 <= i < f.block => if i < |key| then key[i] else 0);
      }
      assert temp == KeyBlock(key, f.block);
      this.key := temp;
      buffer := new bv8[f.block];
      s := State(init, 0, 0, false, false, 0);
      new;
      Restart();
    }

    method Update(input: Bytes)
      requires Valid()
      modifies this, buffer
      ensures Valid() && h.Taken() == old(h.Taken()) + input
    {
      hide Holds;
      s, h := TakeInput(f, buffer, s, input, init, h);
    }

    /** The hash of everything taken since the restart; the object starts over. */
    method TruncatedFinal(size: nat) returns (r: Result)
      requires Valid()
      modifies this, buffer
      ensures Valid()
      ensures r.InvalidArgument? <==> size > digestSize
      ensures r.InvalidArgument? ==> h == old(h)
      ensures r.Digest? ==>
                && h.Taken() == key
                && size <= 8 * wordBytes && r.bytes == Layout(Hash(f, init, old(h.Taken()), tree), wordBytes)[..size]
    {
      if size > digestSize {
        return Result.InvalidArgument;
      }
      hide Hash, Holds, Layout;
      var hash := LastCompression(f, buffer, s, tree, init, h);
      r := Digest(Layout(hash, wordBytes)[..size]);
      SizedFromState(f, init, old(buffer[..]), old(s), h);
      Restart();
    }
  }

  lemma SizedFromState<H>(f: Function<H>, init: H, buf: Bytes, s: State<H>, h: History)
    requires Holds(f, init, buf, s, h)
    ensures Sized(f) && |buf| == f.block
  {
  }

  /** The flags go up, the counter takes the waiting bytes, and the block is filled up with zeros. */
  method LastCompression<H>(f: Function<H>, buf: array<bv8>, s: State<H>, tree: bool, ghost init: H, ghost h: History)
    returns (hash: H)
    requires Holds(f, init, buf[..], s, h)
    modifies buf
    ensures Sized(f) && hash == Hash(f, init, h.Taken(), tree)
  {
    hide Hash, Chain;
    var s' := s.(f0 := true);
    if tree {
      s' := s'.(f1 := true);
    }
    var t0, t1 := IncrementCounter(s'.t0, s'.t1, s'.length, f.words, |h.done|);
    s' := s'.(t0 := t0, t1 := t1);
    PadBuffer(buf, s'.length);
    LastBlock(f, init, h, tree);
    hash := f.F(s'.h, buf[..], Control(s'.t0, s'.t1, s'.f0, s'.f1));
  }

  method PadBuffer(buf: array<bv8>, n: nat)
    requires n <= buf.Length
    modifies buf
    ensures buf[..] == old(buf[..])[..n] + Zeros(buf.Length - n)
  {
    forall i | n <= i < buf.Length {
      buf[i] := 0;
    }
  }

  lemma StartState<H>(f: Function<H>, init: H, buf: Bytes, s: State<H>)
    requires Sized(f) && |buf| == f.block && s == State(init, 0, 0, false, false, 0)
    ensures Holds(f, init, buf, s, History([], []))
  {
    DivModUnique(0, f.block, 0, 0);
    DivModUnique(0, f.words, 0, 0);
  }

  lemma LastBlock<H>(f: Function<H>, init: H, h: History, tree: bool)
    requires Sized(f) && |h.done| % f.block == 0 && |h.waiting| <= f.block && (h.done != [] ==> h.waiting != [])
    ensures Hash(f, init, h.Taken(), tree) ==
            f.F(Chain(f, init, h.done, 0), h.waiting + Zeros(f.block - |h.waiting|),
                CountOf(|h.done| + |h.waiting|, f.words, true, tree))
  {
    hide Chain, HeadLength;
    HeadIs(|h.done|, |h.waiting|, f.block);
    assert h.Taken()[..|h.done|] == h.done && h.Taken()[|h.done|..] == h.waiting;
  }
}
