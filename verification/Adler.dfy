/** Adler32: two running sums modulo 65521, reduced as seldom as 32-bit words allow. */
module Adler {
  import opened PowersOfTwo

  type byte = x: nat | x < 256
  type word32 = x: nat | x < 0x1_0000_0000

  const BASE: nat := 65521

  // ---------- The definition ----------

  /** One plus the sum of the bytes. */
  function Sum1(data: seq<byte>): nat {
    if data == [] then 1 else Sum1(data[..|data|-1]) + data[|data|-1]
  }

  /** The sum of the first sum's values after every byte. */
  function Sum2(data: seq<byte>): nat {
    if data == [] then 0 else Sum2(data[..|data|-1]) + Sum1(data)
  }

  lemma Snoc(data: seq<byte>, x: byte)
    ensures Sum1(data + [x]) == Sum1(data) + x && Sum2(data + [x]) == Sum2(data) + Sum1(data + [x])
  {
    assert (data + [x])[..|data|] == data;
  }

  /** The bytes, the first counted |data| times and the last once. */
  function Weighted(data: seq<byte>): nat {
    if data == [] then 0 else |data| * data[0] + Weighted(data[1..])
  }

  lemma {:induction false} WeightedSnoc(data: seq<byte>, x: byte)
    ensures Weighted(data + [x]) + 1 == Weighted(data) + Sum1(data + [x])
    decreases |data|
  {
    Snoc(data, x);
    if data == [] {
      assert [x][1..] == [];
    } else {
      var rest := data[1..];
      assert (data + [x])[1..] == rest + [x];
      WeightedSnoc(rest, x);
      FirstByte(data);
      Snoc(rest, x);
      MulDistributes(|data|, 1, data[0]);
    }
  }

  lemma {:induction false} FirstByte(data: seq<byte>)
    requires data != []
    ensures Sum1(data) == data[0] + Sum1(data[1..])
    decreases |data|
  {
    var front := data[..|data|-1];
    if front != [] {
      FirstByte(front);
      assert front[1..] == data[1..][..|data|-2];
    } else {
      assert data[1..] == [];
    }
  }

  /** Section 8.2 of RFC 1950 in closed form: every byte counts once for each byte from it on, and once for the one. */
  lemma {:induction false} SecondSum(data: seq<byte>)
    ensures Sum2(data) == Weighted(data) + |data|
    decreases |data|
  {
    if data != [] {
      var front := data[..|data|-1];
      SecondSum(front);
      assert data == front + [data[|data|-1]];
      WeightedSnoc(front, data[|data|-1]);
    }
  }

  // ---------- Update ----------

  /** The working sums are the true ones less some multiple of the base. */
  ghost predicate Stand(s1: nat, s2: nat, data: seq<byte>, k1: nat, k2: nat) {
    Sum1(data) == s1 + BASE * k1 && Sum2(data) == s2 + BASE * k2
  }

  lemma TakeByte(s1: nat, s2: nat, data: seq<byte>, k1: nat, k2: nat, x: byte)
    requires Stand(s1, s2, data, k1, k2)
    ensures Stand(s1 + x, s2 + (s1 + x), data + [x], k1, k2 + k1)
  {
    Snoc(data, x);
  }

  /** The most that a byte adds to the second sum, while at most eight have been added since the first was reduced. */
  const STEP: nat := 65520 + 8 * 255

  /** Adds n bytes, at most eight, to the sums. */
  method Accumulate(input: seq<byte>, from: nat, n: nat, s1: word32, s2: word32, ghost data: seq<byte>,
                    ghost k1: nat, ghost k2: nat)
    returns (s1': word32, s2': word32, ghost m2: nat)
    requires from + n <= |input| && n <= 8 && s1 < BASE && s2 + STEP * n < 0x1_0000_0000
    requires Stand(s1, s2, data, k1, k2)
    ensures s1' <= s1 + 255 * n && s2' <= s2 + STEP * n
    ensures Stand(s1', s2', data + input[from..from + n], k1, m2)
  {
    hide Stand;
    s1', s2', m2 := s1, s2, k2;
    assert data + input[from..from] == data;
    for i := 0 to n
      invariant s1' <= s1 + 255 * i && s2' <= s2 + STEP * i
      invariant Stand(s1', s2', data + input[from..from + i], k1, m2)
    {
      ghost var taken := data + input[from..from + i];
      TakeByte(s1', s2', taken, k1, m2, input[from + i]);
      assert taken + [input[from + i]] == data + input[from..from + i + 1];
      s1' := s1' + input[from + i];
      s2' := s2' + s1';
      m2 := m2 + k1;
    }
  }

  /** One subtraction reduces the first sum. */
  lemma Reduce1(s1: nat, s2: nat, data: seq<byte>, k1: nat, k2: nat)
    requires Stand(s1, s2, data, k1, k2) && BASE <= s1
    ensures Stand(s1 - BASE, s2, data, k1 + 1, k2)
  {
  }

  lemma Reduce2(s1: nat, s2: nat, data: seq<byte>, k1: nat, k2: nat)
    requires Stand(s1, s2, data, k1, k2)
    ensures Stand(s1, s2 % BASE, data, k1, k2 + s2 / BASE)
  {
    DivModLaw(s2, BASE);
  }

  /** Reduces the sums: the first by one subtraction, which is always enough, the second only when told to. */
  method Reduce(s1: word32, s2: word32, both: bool, ghost data: seq<byte>, ghost k1: nat, ghost k2: nat)
    returns (s1': word32, s2': word32, ghost m1: nat, ghost m2: nat)
    requires s1 < 2 * BASE && Stand(s1, s2, data, k1, k2)
    ensures s1' < BASE && Stand(s1', s2', data, m1, m2)
    ensures if both then s2' < BASE else s2' == s2
  {
    hide Stand;
    s1', s2', m1, m2 := s1, s2, k1, k2;
    if s1' >= BASE {
      Reduce1(s1', s2', data, m1, m2);
      s1', m1 := s1' - BASE, m1 + 1;
    }
    if both {
      Reduce2(s1', s2', data, m1, m2);
      DivModLaw(s2', BASE);
      m2 := m2 + s2' / BASE;
      s2' := s2' % BASE;
    }
  }

  /** How many bytes may have been added since the second sum was reduced, when length bytes are left. */
  ghost predicate Since(since: nat, length: nat) {
    length % 8 == 0 && since + length % 0x8000 <= 0x8000 && (length % 0x8000 == 0 ==> since == 0)
  }

  lemma SinceNext(since: nat, length: nat)
    requires Since(since, length) && length > 0
    ensures length >= 8 && since + 8 <= 0x8000
    ensures Since(if (length - 8) % 0x8000 == 0 then 0 else since + 8, length - 8)
  {
  }

  /** The loop over eight bytes at a time: between reductions the second sum stays below 2^32. */
  method TakeEights(input: seq<byte>, s1: word32, s2: word32, ghost data: seq<byte>, ghost k1: nat, ghost k2: nat)
    returns (s1': word32, s2': word32, ghost m1: nat, ghost m2: nat)
    requires |input| % 8 == 0 && s1 < BASE && s2 < BASE && Stand(s1, s2, data, k1, k2)
    ensures s1' < BASE && s2' < BASE && Stand(s1', s2', data + input, m1, m2)
  {
    hide Stand, Since;
    s1', s2', m1, m2 := s1, s2, k1, k2;
    var at := 0;
    ghost var since := 0;
    assert data + input[..0] == data;
    SinceStart(|input|);
    while at < |input|
      invariant at <= |input| && s1' < BASE && Since(since, |input| - at)
      invariant Stand(s1', s2', data + input[..at], m1, m2)
      invariant s2' < BASE + STEP * since && (at == |input| ==> s2' < BASE)
    {
      ghost var taken := data + input[..at];
      SinceNext(since, |input| - at);
      s1', s2', m2 := Accumulate(input, at, 8, s1', s2', taken, m1, m2);
      assert taken + input[at..at + 8] == data + input[..at + 8];
      at := at + 8;
      var both := (|input| - at) % 0x8000 == 0;
      s1', s2', m1, m2 := Reduce(s1', s2', both, data + input[..at], m1, m2);
      since := if both then 0 else since + 8;
    }
    assert input[..at] == input;
  }

  lemma SinceStart(length: nat)
    requires length % 8 == 0
    ensures Since(0, length)
  {
  }

  /** The body of Update. */
  method TakeInput(input: seq<byte>, s1: word32, s2: word32, ghost data: seq<byte>, ghost k1: nat, ghost k2: nat)
    returns (s1': word32, s2': word32, ghost m1: nat, ghost m2: nat)
    requires s1 < BASE && s2 < BASE && Stand(s1, s2, data, k1, k2)
    ensures s1' < BASE && s2' < BASE && Stand(s1', s2', data + input, m1, m2)
  {
    hide Stand;
    s1', s2', m1, m2 := s1, s2, k1, k2;
    var first := |input| % 8;
    ghost var taken := data + input[0..first];
    if first != 0 {
      s1', s2', m2 := Accumulate(input, 0, first, s1', s2', data, m1, m2);
      s1', s2', m1, m2 := Reduce(s1', s2', true, taken, m1, m2);
    } else {
      assert taken == data;
    }
    s1', s2', m1, m2 := TakeEights(input[first..], s1', s2', taken, m1, m2);
    assert taken + input[first..] == data + input;
  }

  // ---------- The object ----------

  datatype Result = Checksum(bytes: seq<byte>) | InvalidArgument

  /** The checksum of data: the second sum, then the first, each high byte first. */
  function ChecksumOf(data: seq<byte>): (r: seq<byte>)
    ensures |r| == 4
  {
    var a, b := Sum1(data) % 65521, Sum2(data) % 65521;
    [b / 256, b % 256, a / 256, a % 256]
  }

  class Adler32 {
    var s1: word32
    var s2: word32
    ghost var data: seq<byte>
    ghost var k1: nat
    ghost var k2: nat

    ghost predicate Valid()
      reads this
    {
      s1 < BASE && s2 < BASE && Stand(s1, s2, data, k1, k2)
    }

    constructor ()
      ensures Valid() && data == []
    {
      s1, s2, data, k1, k2 := 1, 0, [], 0, 0;
    }

    method Reset()
      modifies this
      ensures Valid() && data == []
    {
      s1, s2, data, k1, k2 := 1, 0, [], 0, 0;
    }

    /** However the data are cut into calls, the sums stand for all of them. */
    method Update(input: seq<byte>)
      requires Valid()
      modifies this
      ensures Valid() && data == old(data) + input
    {
      hide Stand;
      s1, s2, k1, k2 := TakeInput(input, s1, s2, data, k1, k2);
      data := data + input;
    }

    method TruncatedFinal(size: nat) returns (r: Result)
      requires Valid()
      modifies this
      ensures Valid()
      ensures r.InvalidArgument? <==> size > 4
      ensures r.InvalidArgument? ==> data == old(data)
      ensures r.Checksum? ==> data == [] && r.bytes == ChecksumOf(old(data))[..size]
    {
      if size > 4 {
        return InvalidArgument;
      }
      DivModUnique(Sum1(data), BASE, k1, s1);
      DivModUnique(Sum2(data), BASE, k2, s2);
      var hash: seq<byte> := [s2 / 256, s2 % 256, s1 / 256, s1 % 256];
      r := Checksum(hash[..size]);
      Reset();
    }
  }
}
