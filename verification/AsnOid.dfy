/** Object identifiers: their arcs in base 128 and the whole value (section 8.19 of X.690). */
module AsnOid {
  import opened PowersOfTwo
  import opened Options
  import opened Radix
  import opened AsnLength

  const WORD32_LIMIT := 0x1_0000_0000
  const OBJECT_IDENTIFIER: byte := 6

  datatype Decoded<T> = Got(value: T, rest: seq<byte>) | Error

  // ---------- One arc ----------

  /** Base-128 digits, all but the last with the top bit set. */
  function Continued(ds: seq<nat>): (r: seq<byte>)
    requires forall i :: 0 <= i < |ds| ==> ds[i] < 128
    ensures |r| == |ds|
  {
    if ds == [] then [] else [if |ds| == 1 then ds[0] else 0x80 + ds[0]] + Continued(ds[1..])
  }

  function ArcWidth(v: nat): (k: nat)
    ensures k >= 1
  {
    if v == 0 then 1 else Width(v, 128)
  }

  function EncodeArc(v: nat): (r: seq<byte>)
    ensures |r| == ArcWidth(v)
  {
    Continued(Digits(v, 128, ArcWidth(v)))
  }

  /** DecodeValue with v the value read so far: seven bits must still fit in 32 before each octet is taken. */
  function DecodeArc(s: seq<byte>, v: nat): (r: Decoded<nat>)
    ensures r.Got? ==> |r.rest| < |s|
    decreases |s|
  {
    if s == [] || v >= WORD32_LIMIT / 128 then Error
    else if s[0] < 0x80 then Got(v * 128 + s[0], s[1..])
    else DecodeArc(s[1..], v * 128 + (s[0] - 0x80))
  }

  /** Digits that fit are accepted with exactly their value; others are refused. */
  lemma {:induction false} ArcAccepted(ds: seq<nat>, rest: seq<byte>, v: nat)
    requires ds != [] && v < WORD32_LIMIT && forall i :: 0 <= i < |ds| ==> ds[i] < 128
    ensures DecodeArc(Continued(ds) + rest, v) ==
            if Horner(v, ds, 128) < WORD32_LIMIT then Got(Horner(v, ds, 128), rest) else Error
    decreases |ds|
  {
    var s := Continued(ds) + rest;
    HornerGrows(v, ds, 128);
    var v' := v * 128 + ds[0];
    HornerGrows(v', ds[1..], 128);
    assert s[1..] == Continued(ds[1..]) + rest;
    if |ds| == 1 {
      assert ds[1..] == [];
      assert Continued(ds[1..]) + rest == rest;
    } else if v < WORD32_LIMIT / 128 {
      ArcAccepted(ds[1..], rest, v');
    }
  }

  /** Every accepted arc is the exact value of its digits, below 2^32. */
  lemma {:induction false} ArcExact(s: seq<byte>, v: nat) returns (ds: seq<nat>)
    requires v < WORD32_LIMIT && DecodeArc(s, v).Got?
    ensures ds != [] && forall i :: 0 <= i < |ds| ==> ds[i] < 128
    ensures s == Continued(ds) + DecodeArc(s, v).rest
    ensures DecodeArc(s, v).value == Horner(v, ds, 128) < WORD32_LIMIT
    decreases |s|
  {
    if s[0] < 0x80 {
      ds := [s[0]];
      assert ds[1..] == [];
      assert Continued(ds) == [s[0]];
    } else {
      var tail := ArcExact(s[1..], v * 128 + (s[0] - 0x80));
      ds := [s[0] - 0x80] + tail;
      assert ds[1..] == tail;
    }
  }

  lemma ArcRoundTrip(v: nat, rest: seq<byte>)
    requires v < WORD32_LIMIT
    ensures DecodeArc(EncodeArc(v) + rest, 0) == Got(v, rest)
  {
    var ds := Digits(v, 128, ArcWidth(v));
    ValueOfDigits(v, 128, ArcWidth(v));
    ArcAccepted(ds, rest, 0);
  }

  // ---------- The rest of the arcs ----------

  function EncodeArcs(vs: seq<nat>): seq<byte> {
    if vs == [] then [] else EncodeArc(vs[0]) + EncodeArcs(vs[1..])
  }

  /** The loop of OID::BERDecode over the octets its length still allows. */
  function DecodeArcs(s: seq<byte>, length: nat): (r: Decoded<seq<nat>>)
    decreases |s|
  {
    if length == 0 then Got([], s) else
      match DecodeArc(s, 0)
      case Error => Error
      case Got(v, rest) =>
        var used := |s| - |rest|;
        if used > length then Error else
          match DecodeArcs(rest, length - used)
          case Error => Error
          case Got(vs, rest') => Got([v] + vs, rest')
  }

  lemma {:induction false} ArcsRoundTrip(vs: seq<nat>, rest: seq<byte>)
    requires forall i :: 0 <= i < |vs| ==> vs[i] < WORD32_LIMIT
    ensures DecodeArcs(EncodeArcs(vs) + rest, |EncodeArcs(vs)|) == Got(vs, rest)
    decreases |vs|
  {
    if vs == [] {
      assert EncodeArcs(vs) + rest == rest;
    } else {
      var a, tail := EncodeArc(vs[0]), EncodeArcs(vs[1..]);
      assert EncodeArcs(vs) + rest == a + (tail + rest);
      ArcRoundTrip(vs[0], tail + rest);
      ArcsRoundTrip(vs[1..], rest);
      assert vs == [vs[0]] + vs[1..];
    }
  }

  // ---------- Whole identifiers ----------

  /** The octet the first two arcs share; a byte conversion drops what does not fit. */
  function FirstOctet(v0: nat, v1: nat): byte {
    (v0 * 40 + v1) % 256
  }

  function OidBody(vs: seq<nat>): (r: seq<byte>)
    requires |vs| >= 2
  {
    [FirstOctet(vs[0], vs[1])] + EncodeArcs(vs[2..])
  }

  function EncodeOid(vs: seq<nat>): seq<byte>
    requires |vs| >= 2 && |OidBody(vs)| < LWORD_LIMIT
  {
    [OBJECT_IDENTIFIER] + DerLength(|OidBody(vs)|) + OidBody(vs)
  }

  function DecodeOid(s: seq<byte>): Decoded<seq<nat>> {
    if s == [] || s[0] != OBJECT_IDENTIFIER then Error else
      match DecodeLength(s[1..])
      case Definite(n, rest) =>
        if n < 1 || rest == [] then Error else
          (match DecodeArcs(rest[1..], n - 1)
           case Error => Error
           case Got(vs, rest') => Got([rest[0] / 40, rest[0] % 40] + vs, rest'))
      case _ => Error
  }

  /** Decoding what was encoded splits the shared octet again and returns every other arc as it was. */
  lemma OidDecodes(vs: seq<nat>, rest: seq<byte>)
    requires |vs| >= 2 && |OidBody(vs)| < LWORD_LIMIT
    requires forall i :: 0 <= i < |vs| ==> vs[i] < WORD32_LIMIT
    ensures var b := FirstOctet(vs[0], vs[1]);
            DecodeOid(EncodeOid(vs) + rest) == Got([b / 40, b % 40] + vs[2..], rest)
  {
    hide EncodeArcs, DecodeArcs, DerLength, DecodeLength;
    var body, arcs := OidBody(vs), EncodeArcs(vs[2..]);
    LengthRoundTrip(|body|, body + rest);
    ArcsRoundTrip(vs[2..], rest);
    assert (EncodeOid(vs) + rest)[1..] == DerLength(|body|) + (body + rest);
    assert (body + rest)[1..] == arcs + rest;
  }

  /** An identifier survives the round trip exactly when its second arc is below 40 and the shared octet fits. */
  lemma OidRoundTrip(vs: seq<nat>, rest: seq<byte>)
    requires |vs| >= 2 && |OidBody(vs)| < LWORD_LIMIT
    requires forall i :: 0 <= i < |vs| ==> vs[i] < WORD32_LIMIT
    ensures DecodeOid(EncodeOid(vs) + rest) == Got(vs, rest) <==> vs[1] < 40 && vs[0] * 40 + vs[1] < 256
  {
    OidDecodes(vs, rest);
    FirstOctetSplits(vs[0], vs[1]);
    hide *;
    var b := FirstOctet(vs[0], vs[1]);
    var got := [b / 40, b % 40] + vs[2..];
    assert got == vs <==> got[0] == vs[0] && got[1] == vs[1] by {
      assert got[2..] == vs[2..];
      FrontAndRest(got, vs);
    }
  }

  lemma FrontAndRest(a: seq<nat>, b: seq<nat>)
    requires |a| >= 2 && |b| >= 2 && a[2..] == b[2..]
    ensures a == b <==> a[0] == b[0] && a[1] == b[1]
  {
    assert a == [a[0], a[1]] + a[2..] && b == [b[0], b[1]] + b[2..];
  }

  lemma FirstOctetSplits(v0: nat, v1: nat)
    ensures var b := FirstOctet(v0, v1); b / 40 == v0 && b % 40 == v1 <==> v1 < 40 && v0 * 40 + v1 < 256
  {
  }

  /** 2.40 is such a casualty: it comes back as 3.0. */
  lemma OidCounterexample(rest: seq<byte>)
    ensures |OidBody([2, 40])| < LWORD_LIMIT && DecodeOid(EncodeOid([2, 40]) + rest) == Got([3, 0], rest)
  {
    var vs := [2, 40];
    assert vs[2..] == [];
    OidDecodes(vs, rest);
    assert [3, 0] + vs[2..] == [3, 0];
  }

  /** The octets of 1.2.840.113549, the identifier that RSA Data Security's own begin with. */
  lemma KnownOid()
    ensures |OidBody([1, 2, 840, 113549])| == 6
    ensures EncodeOid([1, 2, 840, 113549]) == [0x06, 0x06, 0x2a, 0x86, 0x48, 0x86, 0xf7, 0x0d]
  {
    KnownArcs();
    var vs := [1, 2, 840, 113549];
    assert vs[2..] == [840, 113549] && [840, 113549][1..] == [113549] && [113549][1..] == [];
    assert EncodeArcs([113549]) == EncodeArc(113549) + EncodeArcs([]);
    assert EncodeArcs([840, 113549]) == EncodeArc(840) + EncodeArcs([113549]);
  }

  lemma KnownArcs()
    ensures EncodeArc(840) == [0x86, 0x48] && EncodeArc(113549) == [0x86, 0xf7, 0x0d]
  {
    assert Width(6, 128) == 1 && Width(840, 128) == 2 && Width(887, 128) == 2 && Width(113549, 128) == 3;
    assert Digits(6, 128, 1) == Digits(0, 128, 0) + [6];
    assert Digits(840, 128, 2) == Digits(6, 128, 1) + [72];
    assert Digits(887, 128, 2) == Digits(6, 128, 1) + [119];
    assert Digits(113549, 128, 3) == Digits(887, 128, 2) + [13];
    assert [6, 72][1..] == [72] && [72][1..] == [];
    assert [6, 119, 13][1..] == [119, 13] && [119, 13][1..] == [13] && [13][1..] == [];
    assert Continued([72]) == [72] && Continued([13]) == [13];
    assert Continued([119, 13]) == [0xf7] + Continued([13]);
  }

  // ---------- The code ----------

  /** The digit count from the number of bits rounded up to a multiple of 7. */
  lemma {:induction false} SevenBitsADigit(v: nat)
    ensures Width(v, 128) == (BitCount(v) + 6) / 7
  {
    if v >= 128 {
      SevenBitsADigit(v / 128);
      SevenHalvings(v);
    } else if v > 0 {
      SmallBitCount(v);
      assert v / 128 == 0;
    }
  }

  lemma FirstShift(v: nat)
    ensures ((if BitCount(v) > 7 then BitCount(v) else 7) + 6) / 7 == ArcWidth(v)
  {
    SevenBitsADigit(v);
  }

  lemma SmallBitCount(v: nat)
    requires 0 < v < 128
    ensures 1 <= BitCount(v) <= 7
  {
    BitCountBounds(v);
    if BitCount(v) > 7 {
      Pow2Monotone(7, BitCount(v) - 1);
      assert Pow2(7) == 128 by { assert Pow2(3) == 8; Pow2Add(3, 4); }
    }
  }

  lemma SevenHalvings(v: nat)
    requires v >= 128
    ensures BitCount(v) == 7 + BitCount(v / 128)
  {
    var a, b, c := v / 2, v / 4, v / 8;
    assert BitCount(v) == 1 + BitCount(a) && BitCount(a) == 1 + BitCount(a / 2) && a / 2 == b;
    assert BitCount(b) == 1 + BitCount(b / 2) && b / 2 == c;
    var d, e, f := v / 16, v / 32, v / 64;
    assert BitCount(c) == 1 + BitCount(c / 2) && c / 2 == d;
    assert BitCount(d) == 1 + BitCount(d / 2) && d / 2 == e;
    assert BitCount(e) == 1 + BitCount(e / 2) && e / 2 == f;
    assert BitCount(f) == 1 + BitCount(f / 2) && f / 2 == v / 128;
  }

  lemma {:induction false} SevenBitShift(m: nat)
    ensures Pow2(7 * m) == Power(128, m)
  {
    if m > 0 {
      SevenBitShift(m - 1);
      Pow2Add(7, 7 * (m - 1));
      assert Pow2(7) == 128 by { assert Pow2(3) == 8; Pow2Add(3, 4); }
    }
  }

  lemma {:induction false} ContinuedAt(ds: seq<nat>, i: nat)
    requires i < |ds| && forall j :: 0 <= j < |ds| ==> ds[j] < 128
    ensures Continued(ds)[i] == if i == |ds| - 1 then ds[i] else 0x80 + ds[i]
    decreases |ds|
  {
    if i > 0 {
      ContinuedAt(ds[1..], i - 1);
    }
  }

  /** Octet number k-1-m of an arc holds its bits from 7m up. */
  lemma ArcOctet(v: nat, m: nat)
    requires m < ArcWidth(v)
    ensures EncodeArc(v)[ArcWidth(v) - 1 - m] == Shr(v, 7 * m) % 128 + if m == 0 then 0 else 0x80
  {
    var k := ArcWidth(v);
    SevenBitShift(m);
    DigitAt(v, 128, k, k - 1 - m);
    ContinuedAt(Digits(v, 128, k), k - 1 - m);
  }

  /** OID::EncodeValue. */
  method EncodeValue(bt: ByteQueue, v: nat)
    requires v < WORD32_LIMIT
    modifies bt
    ensures bt.contents == old(bt.contents) + EncodeArc(v)
  {
    hide EncodeArc, ArcWidth, Shr, BitCount;
    var bits := if BitCount(v) > 7 then BitCount(v) else 7;
    FirstShift(v);
    // the shift of the first octet, counted in steps of seven bits
    var m: nat := (bits + 6) / 7 - 1;
    while m != 0
      invariant m < ArcWidth(v)
      invariant bt.contents == old(bt.contents) + EncodeArc(v)[..ArcWidth(v) - 1 - m]
    {
      ArcOctet(v, m);
      bt.Put([0x80 + Shr(v, 7 * m) % 128]);
      m := m - 1;
    }
    ArcOctet(v, 0);
    ShrZero(v);
    bt.Put([v % 128]);
  }

  /** OID::DecodeValue: the value and the number of octets it took. */
  method DecodeValue(bt: ByteQueue) returns (r: Option<(nat, nat)>)
    modifies bt
    ensures r.Some? <==> DecodeArc(old(bt.contents), 0).Got?
    ensures r.Some? ==>
              && DecodeArc(old(bt.contents), 0) == Got(r.value.0, bt.contents)
              && r.value.1 + |bt.contents| == |old(bt.contents)|
  {
    var v: nat := 0;
    var i := 0;
    while true
      invariant DecodeArc(bt.contents, v) == DecodeArc(old(bt.contents), 0)
      invariant i + |bt.contents| == |old(bt.contents)|
      decreases |bt.contents|
    {
      var o := bt.Get();
      if o == None {
        return None;
      }
      i := i + 1;
      if v >= 0x0200_0000 {
        return None;
      }
      v := v * 128 + o.value % 128;
      if o.value < 0x80 {
        return Some((v, i));
      }
    }
  }

  class OID {
    var values: seq<nat>

    constructor (values: seq<nat>)
      ensures this.values == values
    {
      this.values := values;
    }

    /** OID::DEREncode, which asserts that there are at least two arcs. */
    method DEREncode(bt: ByteQueue)
      requires |values| >= 2 && |OidBody(values)| < LWORD_LIMIT
      requires forall i :: 0 <= i < |values| ==> values[i] < WORD32_LIMIT
      modifies bt
      ensures bt.contents == old(bt.contents) + EncodeOid(values)
    {
      hide EncodeArc, DerLength;
      var temp := new ByteQueue();
      temp.Put([FirstOctet(values[0], values[1])]);
      for i := 2 to |values|
        invariant temp.contents == [FirstOctet(values[0], values[1])] + EncodeArcs(values[2..i])
        invariant fresh(temp) && bt.contents == old(bt.contents) && values == old(values)
      {
        EncodeValue(temp, values[i]);
        EncodeArcsAppend(values[2..i], values[i]);
        assert values[2..i+1] == values[2..i] + [values[i]];
      }
      assert values[2..|values|] == values[2..];
      bt.Put([OBJECT_IDENTIFIER]);
      var written := DERLengthEncode(bt, |temp.contents|);
      var moved := temp.TransferTo(bt, |temp.contents|);
    }

    /** OID::BERDecode; a failed call says nothing of what it has read or stored. */
    method BERDecode(bt: ByteQueue) returns (ok: bool)
      modifies this, bt
      ensures ok <==> DecodeOid(old(bt.contents)).Got?
      ensures ok ==> Got(values, bt.contents) == DecodeOid(old(bt.contents))
    {
      hide DecodeLength, DecodeArc;
      var t := bt.Get();
      if t == None || t.value != OBJECT_IDENTIFIER {
        return false;
      }
      var l := BERLengthDecode(bt);
      if !l.Definite? || l.length < 1 {
        return false;
      }
      var first := bt.Get();
      if first == None {
        return false;
      }
      var length: nat := l.length - 1;
      values := [first.value / 40, first.value % 40];
      ghost var s, n := bt.contents, length;
      ghost var read: seq<nat> := [];
      AfterNothing(DecodeArcs(s, n));
      while length > 0
        invariant |bt.contents| <= |s|
        invariant values == [first.value / 40, first.value % 40] + read
        invariant DecodeArcs(s, n) == After(read, DecodeArcs(bt.contents, length))
        decreases length
      {
        var d := DecodeValue(bt);
        if d == None {
          return false;
        }
        var (v, valueLen) := d.value;
        if valueLen > length {
          return false;
        }
        values := values + [v];
        AfterOne(read, v, DecodeArcs(bt.contents, length - valueLen));
        read := read + [v];
        length := length - valueLen;
      }
      assert read + [] == read;
      ok := true;
    }
  }

  function After(vs: seq<nat>, d: Decoded<seq<nat>>): Decoded<seq<nat>> {
    match d
    case Error => Error
    case Got(ws, rest) => Got(vs + ws, rest)
  }

  lemma AfterNothing(d: Decoded<seq<nat>>)
    ensures After([], d) == d
  {
    if d.Got? {
      assert [] + d.value == d.value;
    }
  }

  lemma AfterOne(vs: seq<nat>, v: nat, d: Decoded<seq<nat>>)
    ensures After(vs, After([v], d)) == After(vs + [v], d)
  {
    if d.Got? {
      assert vs + ([v] + d.value) == vs + [v] + d.value;
    }
  }

  lemma {:induction false} EncodeArcsAppend(vs: seq<nat>, v: nat)
    ensures EncodeArcs(vs + [v]) == EncodeArcs(vs) + EncodeArc(v)
    decreases |vs|
  {
    if vs == [] {
      assert (vs + [v])[1..] == [];
    } else {
      assert (vs + [v])[1..] == vs[1..] + [v];
      EncodeArcsAppend(vs[1..], v);
    }
  }
}
