/** CMAC_Base: a MAC whose last block is held back until it is known to be the last. */
module Cmac {
  import opened PowersOfTwo
  import opened Blocks
  import opened CmacSubkeys

  // ---------- The one-shot definition ----------

  function Subkey1(E: Bytes -> Bytes, size: nat): Bytes
    requires size > 0 && |E(Zeros(size))| == size
  {
    Multiplied(E(Zeros(size)))
  }

  function Subkey2(E: Bytes -> Bytes, size: nat): Bytes
    requires size > 0 && |E(Zeros(size))| == size
  {
    Multiplied(Subkey1(E, size))
  }

  /** The last block, masked with the first subkey if it is whole, and otherwise padded and masked with the second. */
  function MaskedLast(E: Bytes -> Bytes, size: nat, last: Bytes): (r: Bytes)
    requires size > 0 && |E(Zeros(size))| == size && |last| <= size
    ensures |r| == size
  {
    if |last| == size then Xor(last, Subkey1(E, size))
    else Xor(last + [0x80] + Zeros(size - |last| - 1), Subkey2(E, size))
  }

  ghost function CmacOf(E: Bytes -> Bytes, size: nat, message: Bytes): (r: Bytes)
    requires IsCipher(E, size)
    ensures |r| == size
  {
    var n := HeadLength(|message|, size);
    HeadBound(|message|, size);
    E(Xor(CbcChain(E, size, Zeros(size), message[..n]), MaskedLast(E, size, message[n..])))
  }

  // ---------- The register ----------

  /** Whole blocks have been chained; the bytes after them are exclusive-ored into the register and wait. */
  ghost predicate Chained(E: Bytes -> Bytes, size: nat, reg: Bytes, done: Bytes, waiting: Bytes) {
    && IsCipher(E, size) && |done| % size == 0 && |waiting| <= size
    && reg == Xor(CbcChain(E, size, Zeros(size), done), waiting + Zeros(size - |waiting|))
  }

  /** s with data exclusive-ored into it from position at on. */
  function XorAt(s: Bytes, at: nat, data: Bytes): (r: Bytes)
    requires at + |data| <= |s|
    ensures |r| == |s|
  {
    s[..at] + Xor(s[at..at + |data|], data) + s[at + |data|..]
  }

  lemma XorMore(chain: Bytes, waiting: Bytes, data: Bytes)
    requires |waiting| + |data| <= |chain|
    ensures XorAt(Xor(chain, waiting + Zeros(|chain| - |waiting|)), |waiting|, data) ==
            Xor(chain, waiting + data + Zeros(|chain| - |waiting| - |data|))
  {
    hide Xor;
    var s, n := Xor(chain, waiting + Zeros(|chain| - |waiting|)), |waiting|;
    var t := Xor(chain, waiting + data + Zeros(|chain| - n - |data|));
    XorMiddle(chain, waiting, data);
    SameAround(chain, waiting, data);
    Reassemble(t, n, n + |data|);
  }

  lemma Reassemble(t: Bytes, a: nat, b: nat)
    requires a <= b <= |t|
    ensures t == t[..a] + t[a..b] + t[b..]
  {
  }

  lemma XorMiddle(chain: Bytes, waiting: Bytes, data: Bytes)
    requires |waiting| + |data| <= |chain|
    ensures var s, n := Xor(chain, waiting + Zeros(|chain| - |waiting|)), |waiting|;
            var t := Xor(chain, waiting + data + Zeros(|chain| - n - |data|));
            Xor(s[n..n + |data|], data) == t[n..n + |data|]
  {
    var s, n := Xor(chain, waiting + Zeros(|chain| - |waiting|)), |waiting|;
    var t := Xor(chain, waiting + data + Zeros(|chain| - n - |data|));
    hide Xor;
    var u, v := Xor(s[n..n + |data|], data), t[n..n + |data|];
    forall j | 0 <= j < |data| ensures u[j] == v[j] {
      XorMiddleAt(chain, waiting, data, j);
    }
  }

  lemma XorMiddleAt(chain: Bytes, waiting: Bytes, data: Bytes, j: nat)
    requires |waiting| + |data| <= |chain| && j < |data|
    ensures var s, n := Xor(chain, waiting + Zeros(|chain| - |waiting|)), |waiting|;
            var t := Xor(chain, waiting + data + Zeros(|chain| - n - |data|));
            Xor(s[n..n + |data|], data)[j] == t[n + j]
  {
    var n := |waiting|;
    var a, b := waiting + Zeros(|chain| - n), waiting + data + Zeros(|chain| - n - |data|);
    var s := Xor(chain, a);
    assert a[n + j] == 0 && b[n + j] == data[j];
    assert s[n + j] == chain[n + j] ^ a[n + j];
    XorZero(chain[n + j]);
    assert s[n..n + |data|][j] == s[n + j];
  }

  lemma SameAround(chain: Bytes, waiting: Bytes, data: Bytes)
    requires |waiting| + |data| <= |chain|
    ensures var s, n := Xor(chain, waiting + Zeros(|chain| - |waiting|)), |waiting|;
            var t := Xor(chain, waiting + data + Zeros(|chain| - n - |data|));
            s[..n] == t[..n] && s[n + |data|..] == t[n + |data|..]
  {
  }

  lemma WaitMore(E: Bytes -> Bytes, size: nat, reg: Bytes, done: Bytes, waiting: Bytes, data: Bytes)
    requires Chained(E, size, reg, done, waiting) && |waiting| + |data| <= size
    ensures Chained(E, size, XorAt(reg, |waiting|, data), done, waiting + data)
  {
    hide CbcChain, XorAt, Xor;
    XorMore(CbcChain(E, size, Zeros(size), done), waiting, data);
  }

  lemma XorZerosRight(b: Bytes)
    ensures Xor(b, [] + Zeros(|b|)) == b
  {
    forall i | 0 <= i < |b| ensures Xor(b, [] + Zeros(|b|))[i] == b[i] {
      XorZero(b[i]);
    }
  }

  /** Chaining whole blocks when none wait. */
  lemma ChainMore(E: Bytes -> Bytes, size: nat, reg: Bytes, done: Bytes, data: Bytes)
    requires Chained(E, size, reg, done, []) && |data| % size == 0
    ensures |reg| == size && Chained(E, size, CbcChain(E, size, reg, data), done + data, [])
  {
    hide CbcChain, Xor;
    var chain := CbcChain(E, size, Zeros(size), done);
    XorZerosRight(chain);
    CbcChainConcat(E, size, Zeros(size), done, data);
    XorZerosRight(CbcChain(E, size, reg, data));
    SumOfMultiples(|done|, |data|, size);
  }

  /** Enciphering the register when a whole block waits. */
  lemma ChainWaiting(E: Bytes -> Bytes, size: nat, reg: Bytes, done: Bytes, waiting: Bytes)
    requires Chained(E, size, reg, done, waiting) && |waiting| == size
    ensures |reg| == size && Chained(E, size, E(reg), done + waiting, [])
  {
    hide CbcChain, Xor;
    var chain := CbcChain(E, size, Zeros(size), done);
    assert waiting + Zeros(0) == waiting;
    CbcChainOneBlock(E, size, chain, waiting);
    CbcChainConcat(E, size, Zeros(size), done, waiting);
    XorZerosRight(E(reg));
    DivModUnique(size, size, 1, 0);
    SumOfMultiples(|done|, |waiting|, size);
  }

  // ---------- Operations on the register ----------

  method XorInto(a: array<bv8>, at: nat, data: Bytes)
    requires at + |data| <= a.Length
    modifies a
    ensures a[..] == XorAt(old(a[..]), at, data)
  {
    forall i | 0 <= i < |data| {
      a[at + i] := a[at + i] ^ data[i];
    }
  }

  method ProcessBlock(a: array<bv8>, E: Bytes -> Bytes)
    requires IsCipher(E, a.Length)
    modifies a
    ensures a[..] == E(old(a[..]))
  {
    var e := E(a[..]);
    forall i | 0 <= i < a.Length {
      a[i] := e[i];
    }
  }

  /** The cipher's fold over the whole blocks of data; the number of bytes left over. */
  method FoldBlocks(a: array<bv8>, E: Bytes -> Bytes, data: Bytes) returns (leftOver: nat)
    requires IsCipher(E, a.Length)
    modifies a
    ensures leftOver < a.Length && leftOver <= |data| && (|data| - leftOver) % a.Length == 0
    ensures a[..] == CbcChain(E, a.Length, old(a[..]), data[..|data| - leftOver])
  {
    hide Xor;
    var i := 0;
    DivModUnique(0, a.Length, 0, 0);
    while |data| - i >= a.Length
      invariant i <= |data| && i % a.Length == 0
      invariant a[..] == CbcChain(E, a.Length, old(a[..]), data[..i])
    {
      var block := data[i..i + a.Length];
      ghost var before := a[..];
      XorWhole(before, block);
      XorInto(a, 0, block);
      ProcessBlock(a, E);
      CbcChainOneBlock(E, a.Length, before, block);
      CbcChainConcat(E, a.Length, old(a[..]), data[..i], block);
      assert data[..i + a.Length] == data[..i] + block;
      AddMultiple(i, a.Length);
      i := i + a.Length;
    }
    leftOver := |data| - i;
  }

  lemma XorWhole(a: Bytes, b: Bytes)
    requires |a| == |b|
    ensures XorAt(a, 0, b) == Xor(a, b)
  {
    assert a[0..|b|] == a;
  }

  // ---------- The object ----------

  /** What has been taken since the last final call: whole blocks already chained, and at most one block waiting. */
  datatype History = History(done: Bytes, waiting: Bytes) {
    function Taken(): Bytes { done + waiting }
  }

  ghost predicate State(E: Bytes -> Bytes, size: nat, reg: Bytes, counter: nat, h: History) {
    Chained(E, size, reg, h.done, h.waiting) && counter == |h.waiting| && (h.done != [] ==> counter > 0)
  }

  datatype Result = Mac(mac: Bytes) | InvalidArgument

  /** Update, once the waiting block has been dealt with: all but the last one to size bytes are chained. */
  method UpdateAligned(a: array<bv8>, E: Bytes -> Bytes, input: Bytes, ghost done: Bytes)
    returns (counter: nat, ghost h: History)
    requires Chained(E, a.Length, a[..], done, []) && |input| > 0
    modifies a
    ensures h.Taken() == done + input && State(E, a.Length, a[..], counter, h)
  {
    hide CbcChain, Xor, XorAt;
    var size := a.Length;
    var length := |input|;
    h := History(done, []);
    if length > size {
      ghost var before := a[..];
      var leftOver := FoldBlocks(a, E, input[..length - 1]);
      leftOver := leftOver + 1;
      ghost var whole := input[..length - leftOver];
      assert input[..length - 1][..length - leftOver] == whole;
      ChainMore(E, size, before, done, whole);
      h := History(done + whole, []);
      length := leftOver;
    }
    var rest := input[|input| - length..];
    WaitMore(E, size, a[..], h.done, [], rest);
    XorInto(a, 0, rest);
    counter := length;
    assert [] + rest == rest;
    h := History(h.done, rest);
    assert h.done + rest == done + input;
  }

  /** The body of Update. */
  method TakeInput(a: array<bv8>, E: Bytes -> Bytes, counter: nat, input: Bytes, ghost h: History)
    returns (counter': nat, ghost h': History)
    requires State(E, a.Length, a[..], counter, h)
    modifies a
    ensures State(E, a.Length, a[..], counter', h') && h'.Taken() == h.Taken() + input
  {
    hide CbcChain, Xor, XorAt;
    counter', h' := counter, h;
    if |input| == 0 {
      assert h.Taken() + input == h.Taken();
      return;
    }
    if counter == 0 {
      counter', h' := UpdateAligned(a, E, input, h.done);
      assert h.done + input == h.Taken() + input;
      return;
    }
    var len := if a.Length - counter <= |input| then a.Length - counter else |input|;
    WaitMore(E, a.Length, a[..], h.done, h.waiting, input[..len]);
    XorInto(a, counter, input[..len]);
    ghost var waiting := h.waiting + input[..len];
    if len == |input| {
      counter', h' := counter + len, History(h.done, waiting);
      assert input[..len] == input;
      assert h'.Taken() == h.Taken() + input;
      return;
    }
    ChainWaiting(E, a.Length, a[..], h.done, waiting);
    ProcessBlock(a, E);
    counter', h' := UpdateAligned(a, E, input[len..], h.done + waiting);
    assert h.done + waiting + input[len..] == h.Taken() + input;
  }

  lemma XorAssoc(a: Bytes, b: Bytes, c: Bytes)
    requires |a| == |b| == |c|
    ensures Xor(Xor(a, b), c) == Xor(a, Xor(b, c))
  {
    forall i | 0 <= i < |a| ensures Xor(Xor(a, b), c)[i] == Xor(a, Xor(b, c))[i] {
      XorBytesAssoc(a[i], b[i], c[i]);
    }
  }

  lemma XorBytesAssoc(x: bv8, y: bv8, z: bv8)
    ensures (x ^ y) ^ z == x ^ (y ^ z)
  {
  }

  lemma CutWhereDone(E: Bytes -> Bytes, size: nat, reg: Bytes, counter: nat, h: History)
    requires State(E, size, reg, counter, h)
    ensures |E(Zeros(size))| == size
    ensures CmacOf(E, size, h.Taken()) ==
            E(Xor(CbcChain(E, size, Zeros(size), h.done), MaskedLast(E, size, h.waiting)))
  {
    hide CmacOf, CbcChain, Xor, MaskedLast;
    CmacCut(E, size, h.done, h.waiting);
  }

  lemma CmacCut(E: Bytes -> Bytes, size: nat, a: Bytes, b: Bytes)
    requires IsCipher(E, size) && |a| % size == 0 && |b| <= size && (a != [] ==> b != [])
    ensures |E(Zeros(size))| == size
    ensures CmacOf(E, size, a + b) == E(Xor(CbcChain(E, size, Zeros(size), a), MaskedLast(E, size, b)))
  {
    hide CbcChain, Xor, MaskedLast, HeadLength;
    HeadIs(|a|, |b|, size);
    var m := a + b;
    assert m[..|a|] == a && m[|a|..] == b;
  }

  /** Masking and enciphering the register gives the MAC of all that was taken. */
  lemma FinalBlock(E: Bytes -> Bytes, size: nat, reg: Bytes, counter: nat, h: History)
    requires State(E, size, reg, counter, h)
    ensures |reg| == size && counter <= size && |E(Zeros(size))| == size
    ensures CmacOf(E, size, h.Taken()) ==
            if counter < size then E(Xor(XorAt(reg, counter, [0x80]), Subkey2(E, size)))
            else E(Xor(reg, Subkey1(E, size)))
  {
    CutWhereDone(E, size, reg, counter, h);
    hide CbcChain, Xor, XorAt, CmacOf, Multiplied;
    var chain := CbcChain(E, size, Zeros(size), h.done);
    if counter < size {
      XorMore(chain, h.waiting, [0x80]);
      XorAssoc(chain, h.waiting + [0x80] + Zeros(size - counter - 1), Subkey2(E, size));
    } else {
      assert h.waiting + Zeros(0) == h.waiting;
      XorAssoc(chain, h.waiting, Subkey1(E, size));
    }
  }

  lemma StartState(E: Bytes -> Bytes, size: nat)
    requires IsCipher(E, size)
    ensures State(E, size, Zeros(size), 0, History([], []))
  {
    XorZerosRight(Zeros(size));
    DivModUnique(0, size, 0, 0);
  }

  /** A MAC object with its key set. */
  class CmacBase {
    const E: Bytes -> Bytes
    const reg: array<bv8>
    const key1: Bytes
    const key2: Bytes
    var counter: nat
    ghost var h: History

    ghost predicate Valid()
      reads this, reg
    {
      && State(E, reg.Length, reg[..], counter, h)
      && |E(Zeros(reg.Length))| == reg.Length
      && key1 == Subkey1(E, reg.Length) && key2 == Subkey2(E, reg.Length)
    }

    constructor (E: Bytes -> Bytes, size: nat, key1: Bytes, key2: Bytes)
      requires IsCipher(E, size) && |E(Zeros(size))| == size
      requires key1 == Subkey1(E, size) && key2 == Subkey2(E, size)
      ensures Valid() && fresh(reg) && reg.Length == size && this.E == E && h == History([], [])
    {
      this.E, this.key1, this.key2 := E, key1, key2;
      reg := new bv8[size](i => 0);
      counter, h := 0, History([], []);
      new;
      StartState(E, size);
      assert reg[..] == Zeros(size);
    }

    method Update(input: Bytes)
      requires Valid()
      modifies this, reg
      ensures Valid() && h.Taken() == old(h.Taken()) + input
    {
      hide State, Subkey1, Subkey2;
      counter, h := TakeInput(reg, E, counter, input, h);
    }

    /**
     The MAC, or as much of it as is asked for, of everything taken since the last final call; the object starts over.
     */
    method TruncatedFinal(size: nat) returns (r: Result)
      requires Valid()
      modifies this, reg
      ensures Valid()
      ensures r.InvalidArgument? <==> size > reg.Length
      ensures r.InvalidArgument? ==> h == old(h)
      ensures r.Mac? ==> h == History([], []) && r.mac == CmacOf(E, reg.Length, old(h.Taken()))[..size]
    {
      if size > reg.Length {
        return Result.InvalidArgument;
      }
      CipherOf(E, reg.Length, reg[..], counter, h);
      hide Subkey1, Subkey2, State, CmacOf;
      var mac := FinalMac(reg, E, key1, key2, counter, size, h);
      Clear(reg);
      StartState(E, reg.Length);
      counter, h := 0, History([], []);
      r := Mac(mac);
    }
  }

  lemma CipherOf(E: Bytes -> Bytes, size: nat, reg: Bytes, counter: nat, h: History)
    requires State(E, size, reg, counter, h)
    ensures IsCipher(E, size)
  {
  }

  method Clear(reg: array<bv8>)
    modifies reg
    ensures reg[..] == Zeros(reg.Length)
  {
    forall i | 0 <= i < reg.Length {
      reg[i] := 0;
    }
  }

  /** The last block: filled up with a one bit and zeros and masked by the second subkey, or masked by the first. */
  method FinalMac(reg: array<bv8>, E: Bytes -> Bytes, key1: Bytes, key2: Bytes, counter: nat, size: nat,
                  ghost h: History)
    returns (mac: Bytes)
    requires State(E, reg.Length, reg[..], counter, h) && |E(Zeros(reg.Length))| == reg.Length && size <= reg.Length
    requires key1 == Subkey1(E, reg.Length) && key2 == Subkey2(E, reg.Length)
    modifies reg
    ensures |E(Zeros(reg.Length))| == reg.Length && IsCipher(E, reg.Length)
    ensures mac == CmacOf(E, reg.Length, h.Taken())[..size]
  {
    FinalBlock(E, reg.Length, reg[..], counter, h);
    CipherOf(E, reg.Length, reg[..], counter, h);
    hide Subkey1, Subkey2, State, Xor, XorAt, CmacOf;
    if counter < reg.Length {
      XorInto(reg, counter, [0x80]);
      FinalStep(reg, E, key2);
    } else {
      FinalStep(reg, E, key1);
    }
    mac := reg[..size];
    assert mac == reg[..][..size];
  }

  /** AdvancedProcessBlocks over the one block of a subkey. */
  method FinalStep(a: array<bv8>, E: Bytes -> Bytes, key: Bytes)
    requires IsCipher(E, a.Length) && |key| == a.Length
    modifies a
    ensures a[..] == E(Xor(old(a[..]), key))
  {
    hide Xor, XorAt;
    XorWhole(a[..], key);
    XorInto(a, 0, key);
    ProcessBlock(a, E);
  }

  /** UncheckedSetKey: the subkeys are the enciphered zero block times x and times x squared. */
  method SetKey(E: Bytes -> Bytes, size: nat) returns (m: CmacBase?)
    requires IsCipher(E, size)
    ensures |E(Zeros(size))| == size
    ensures m == null <==>
            !Supported(size) && (ShiftedOut(E(Zeros(size))) == 1 || ShiftedOut(Subkey1(E, size)) == 1)
    ensures m != null ==> fresh(m) && fresh(m.reg) && m.Valid() && m.E == E && m.reg.Length == size
    ensures m != null ==> m.h == History([], [])
  {
    assert |E(Zeros(size))| == size;
    hide Multiplied, State;
    var key := E(Zeros(size));
    var k := new bv8[size](i requires 0 <= i < size => key[i]);
    assert k[..] == key;
    var r := MulU(k);
    if r.InvalidArgument? {
      return null;
    }
    var key1 := k[..];
    r := MulU(k);
    if r.InvalidArgument? {
      return null;
    }
    m := new CmacBase(E, size, key1, k[..]);
  }
}
