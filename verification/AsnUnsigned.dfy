/** DEREncodeUnsigned and BERDecodeUnsigned for an unsigned type of a given number of bytes (section 8.3 of X.690). */
module AsnUnsigned {
  import opened Options
  import opened Radix
  import opened AsnLength
  import opened AsnOid

  const BOOLEAN: byte := 0x01
  const INTEGER: byte := 0x02
  const ENUMERATED: byte := 0x0a

  // ---------- The octets of a non-negative INTEGER ----------

  /** The shortest octets of w with a clear sign bit; a BOOLEAN is all ones or zero. */
  function Content(w: nat, tag: byte): (r: seq<byte>)
    ensures |r| >= 1
  {
    if tag == BOOLEAN then [if w != 0 then 0xff else 0] else
      var ds := Octets(w, if w == 0 then 1 else Width(w, 256));
      if ds[0] >= 0x80 then [0] + ds else ds
  }

  function EncodeUnsigned(w: nat, tag: byte): seq<byte>
    requires |Content(w, tag)| < LWORD_LIMIT
  {
    [tag] + DerLength(|Content(w, tag)|) + Content(w, tag)
  }

  /** The value BERDecodeUnsigned reads back for w. */
  function Recovered(w: nat, tag: byte): nat {
    if tag == BOOLEAN then (if w != 0 then 0xff else 0) else w
  }

  lemma ContentValue(w: nat, tag: byte)
    ensures Value(Content(w, tag), 256) == Recovered(w, tag)
    ensures tag != BOOLEAN ==> Content(w, tag)[0] < 0x80
    ensures |Content(w, tag)| <= 1 + (if w == 0 then 1 else Width(w, 256))
  {
    if tag != BOOLEAN {
      var k := if w == 0 then 1 else Width(w, 256);
      var ds := Octets(w, k);
      ValueOfDigits(w, 256, k);
      if ds[0] >= 0x80 {
        assert Content(w, tag)[1..] == ds;
      }
    } else {
      var c := Content(w, tag);
      assert c[1..] == [];
      assert Value(c, 256) == Horner(c[0], [], 256);
    }
  }

  /** The octets are the shortest with a clear sign bit that stand for w. */
  lemma ContentShortest(w: nat, c: seq<byte>)
    requires c != [] && c[0] < 0x80 && Value(c, 256) == w
    ensures |Content(w, INTEGER)| <= |c|
  {
    WidthMinimal(c, 256);
    var k := if w == 0 then 1 else Width(w, 256);
    var ds := Octets(w, k);
    ValueOfDigits(w, 256, k);
    if ds[0] >= 0x80 && |c| == k {
      SameDigits(c, ds);
    }
  }

  /** Equal values in equally many digits are equal digit by digit. */
  lemma {:induction false} SameDigits(a: seq<byte>, b: seq<byte>)
    requires |a| == |b| && Value(a, 256) == Value(b, 256)
    ensures a == b
  {
    if a != [] {
      var n := |a| - 1;
      HornerLast(0, a[..n], a[n], 256);
      HornerLast(0, b[..n], b[n], 256);
      assert a == a[..n] + [a[n]];
      assert b == b[..n] + [b[n]];
      SameDigits(a[..n], b[..n]);
    }
  }

  // ---------- Decoding ----------

  /** Leading zero octets are dropped while there are more octets than the type has bytes. */
  function StripZeros(c: seq<byte>, size: nat): (r: seq<byte>)
    ensures |r| <= |c|
  {
    if |c| > size && c[0] == 0 then StripZeros(c[1..], size) else c
  }

  function DecodeUnsigned(s: seq<byte>, size: nat, tag: byte, minValue: nat, maxValue: nat): Decoded<nat> {
    if s == [] || s[0] != tag then Error else
      match DecodeLength(s[1..])
      case Definite(bc, rest) =>
        if || bc > |rest| || (tag == BOOLEAN && bc != 1)
           || ((tag == INTEGER || tag == ENUMERATED) && bc == 0) then Error else
          var c := StripZeros(rest[..bc], size);
          if |c| > size || Value(c, 256) < minValue || Value(c, 256) > maxValue then Error
          else Got(Value(c, 256), rest[bc..])
      case _ => Error
  }

  lemma {:induction false} StripZerosKeepsValue(c: seq<byte>, size: nat)
    ensures Value(StripZeros(c, size), 256) == Value(c, 256)
    ensures |StripZeros(c, size)| > size ==> StripZeros(c, size)[0] != 0
    decreases |c|
  {
    if |c| > size && c[0] == 0 {
      StripZerosKeepsValue(c[1..], size);
    }
  }

  /** Octets are accepted exactly when their value fits the type, so an accepted value never wraps. */
  lemma StripFits(c: seq<byte>, size: nat)
    requires size >= 1
    ensures |StripZeros(c, size)| <= size <==> Value(c, 256) < Power(256, size)
  {
    var d := StripZeros(c, size);
    StripZerosKeepsValue(c, size);
    if |d| <= size {
      ValueBound(d, size);
    } else {
      LeadingOctet(d, size);
    }
  }

  lemma {:induction false} ValueBound(c: seq<byte>, k: nat)
    requires |c| <= k
    ensures Value(c, 256) < Power(256, k)
    decreases |c|
  {
    if c == [] {
      PowerPositive(256, k);
    } else {
      var n := |c| - 1;
      assert c == c[..n] + [c[n]];
      HornerLast(0, c[..n], c[n], 256);
      ValueBound(c[..n], k - 1);
    }
  }

  /** A leading octet above the k low ones makes the value at least 256^k. */
  lemma {:induction false} LeadingOctet(c: seq<byte>, k: nat)
    requires |c| > k && c[0] > 0
    ensures Value(c, 256) >= Power(256, k)
    decreases |c|
  {
    var n := |c| - 1;
    assert c == c[..n] + [c[n]];
    HornerLast(0, c[..n], c[n], 256);
    if k > 0 {
      LeadingOctet(c[..n], k - 1);
    } else {
      HornerGrows(c[0], c[1..], 256);
    }
  }

  /** Whatever the tag, decoding returns what the content octets stand for, with the rest untouched. */
  lemma UnsignedDecodes(w: nat, size: nat, tag: byte, minValue: nat, maxValue: nat, rest: seq<byte>)
    requires 1 <= size <= 8 && w < Power(256, size)
    ensures |Content(w, tag)| < LWORD_LIMIT
    ensures DecodeUnsigned(EncodeUnsigned(w, tag) + rest, size, tag, minValue, maxValue) ==
            if minValue <= Recovered(w, tag) <= maxValue then Got(Recovered(w, tag), rest) else Error
  {
    ContentValue(w, tag);
    WidthBound(w, 256, size);
    hide Content, DerLength, DecodeLength, StripZeros, Value, Power;
    var c := Content(w, tag);
    Framing(tag, c, rest);
    RecoveredFits(w, size, tag);
    StripFits(c, size);
    StripZerosKeepsValue(c, size);
    BooleanLength(w, tag);
  }

  lemma Framing(tag: byte, c: seq<byte>, rest: seq<byte>)
    requires |c| < LWORD_LIMIT
    ensures DecodeLength(([tag] + DerLength(|c|) + c + rest)[1..]) == Definite(|c|, c + rest)
    ensures (c + rest)[..|c|] == c && (c + rest)[|c|..] == rest
  {
    LengthRoundTrip(|c|, c + rest);
    assert ([tag] + DerLength(|c|) + c + rest)[1..] == DerLength(|c|) + (c + rest);
  }

  lemma BooleanLength(w: nat, tag: byte)
    ensures tag == BOOLEAN ==> |Content(w, tag)| == 1
  {
  }

  lemma RecoveredFits(w: nat, size: nat, tag: byte)
    requires 1 <= size && w < Power(256, size)
    ensures Recovered(w, tag) < Power(256, size)
  {
    PowerPositive(256, size - 1);
  }

  /** The value comes back exactly when the tag is not BOOLEAN, or the value is one of the two a BOOLEAN carries. */
  lemma UnsignedRoundTrip(w: nat, size: nat, tag: byte, minValue: nat, maxValue: nat, rest: seq<byte>)
    requires 1 <= size <= 8 && w < Power(256, size) && minValue <= w <= maxValue
    ensures |Content(w, tag)| < LWORD_LIMIT
    ensures DecodeUnsigned(EncodeUnsigned(w, tag) + rest, size, tag, minValue, maxValue) == Got(w, rest) <==>
            tag != BOOLEAN || w == 0 || w == 0xff
  {
    UnsignedDecodes(w, size, tag, minValue, maxValue, rest);
  }

  /** One, encoded as a BOOLEAN, comes back as 0xff. */
  lemma BooleanCounterexample(rest: seq<byte>)
    ensures |Content(1, BOOLEAN)| < LWORD_LIMIT
    ensures DecodeUnsigned(EncodeUnsigned(1, BOOLEAN) + rest, 1, BOOLEAN, 0, 0xff) == Got(0xff, rest)
  {
    assert Power(256, 1) == 256 * Power(256, 0);
    UnsignedDecodes(1, 1, BOOLEAN, 0, 0xff, rest);
  }

  /** No content at all is an error for BOOLEAN, INTEGER and ENUMERATED, and zero under any other tag. */
  lemma NoContent(tag: byte, size: nat, maxValue: nat, rest: seq<byte>)
    requires size >= 1
    ensures DecodeUnsigned([tag, 0] + rest, size, tag, 0, maxValue) == if tag in {1, 2, 10} then Error else Got(0, rest)
  {
    var s := [tag, 0] + rest;
    assert s[1..] == [0] + rest && s[1..][1..] == rest;
    assert DecodeLength(s[1..]) == Definite(0, rest);
    assert rest[..0] == [] && rest[0..] == rest;
  }

  /** Two octets are too long for a BOOLEAN and for no other tag. */
  lemma TwoOctets(tag: byte, a: byte, b: byte, rest: seq<byte>)
    ensures DecodeUnsigned([tag, 2, a, b] + rest, 2, tag, 0, 0xffff) ==
            if tag == 1 then Error else Got(256 * a + b, rest)
  {
    var s := [tag, 2, a, b] + rest;
    assert s[1..] == [2] + ([a, b] + rest) && s[1..][1..] == [a, b] + rest;
    assert DecodeLength(s[1..]) == Definite(2, [a, b] + rest);
    assert ([a, b] + rest)[..2] == [a, b] && ([a, b] + rest)[2..] == rest;
    assert Value([a, b], 256) == 256 * a + b by {
      assert [a, b][1..] == [b] && [b][1..] == [];
      assert Horner(a, [b], 256) == Horner(256 * a + b, [], 256);
    }
  }

  // ---------- The code ----------

  /** The buffer of DEREncodeUnsigned: a zero and the bytes of w, then the place its content starts. */
  method ContentBuffer(w: nat, size: nat) returns (buf: seq<byte>, bc: nat)
    requires 1 <= size && w < Power(256, size)
    ensures |buf| == size + 1 && 1 <= bc <= size + 1
    ensures buf[size + 1 - bc..] == Content(w, INTEGER)
  {
    buf := FillBuffer(w, size);
    bc := SkipZeros(w, size, buf);
    hide Octets, Content;
    BuffersContent(w, size, buf, bc);
    if buf[size + 1 - bc] >= 0x80 {
      bc := bc + 1;
    }
  }

  /** A zero byte, then the bytes of the word. */
  method FillBuffer(w: nat, size: nat) returns (buf: seq<byte>)
    requires 1 <= size
    ensures buf == [0] + Octets(w, size)
  {
    hide Octets;
    buf := [0];
    for i := 0 to size
      invariant buf == [0] + Octets(w, size)[..i]
    {
      OctetAt(w, size, i);
      buf := buf + [w / Power(256, size - 1 - i) % 256];
    }
  }

  function Needed(w: nat): nat {
    if w == 0 then 1 else Width(w, 256)
  }

  /** Leading zero bytes are passed over, but not the last byte. */
  method SkipZeros(w: nat, size: nat, buf: seq<byte>) returns (bc: nat)
    requires 1 <= size && w < Power(256, size) && buf == [0] + Octets(w, size)
    ensures 1 <= bc <= size && bc == Needed(w)
    ensures buf[size + 1 - bc..] == Octets(w, bc) && buf[size - bc] == 0
  {
    hide Octets;
    bc := size;
    WidthBound(w, 256, size);
    while bc > 1 && buf[size + 1 - bc] == 0
      invariant Needed(w) <= bc <= size && bc >= 1
      invariant buf[size + 1 - bc..] == Octets(w, bc) && buf[size - bc] == 0
    {
      DropLeadingZero(w, bc);
      assert buf[size + 2 - bc..] == buf[size + 1 - bc..][1..];
      bc := bc - 1;
    }
    NoLeadingZero(w, bc);
  }

  /** One zero byte more is taken when the first bit is set. */
  lemma BuffersContent(w: nat, size: nat, buf: seq<byte>, bc: nat)
    requires 1 <= bc <= size && |buf| == size + 1 && bc == Needed(w)
    requires buf[size + 1 - bc..] == Octets(w, bc) && buf[size - bc] == 0
    ensures Content(w, INTEGER) == if buf[size + 1 - bc] >= 0x80 then buf[size - bc..] else buf[size + 1 - bc..]
  {
    hide Octets;
    assert buf[size - bc..] == [0] + buf[size + 1 - bc..];
    assert buf[size + 1 - bc] == Octets(w, bc)[0];
  }

  lemma DropLeadingZero(w: nat, k: nat)
    requires k >= 2 && Octets(w, k)[0] == 0 && (if w == 0 then 1 else Width(w, 256)) <= k
    ensures Octets(w, k)[1..] == Octets(w, k - 1) && (if w == 0 then 1 else Width(w, 256)) <= k - 1
  {
    Tail(w, k);
    if w > 0 && Width(w, 256) == k {
      LeadingDigit(w, 256);
    }
  }

  lemma {:induction false} Tail(w: nat, k: nat)
    requires k >= 1
    ensures Octets(w, k)[1..] == Octets(w, k - 1)
    decreases k
  {
    if k > 1 {
      Tail(w / 256, k - 1);
    }
  }

  /** Where the loop stops, the octets are the minimal ones. */
  lemma NoLeadingZero(w: nat, k: nat)
    requires k >= 1 && (if w == 0 then 1 else Width(w, 256)) <= k && (k == 1 || Octets(w, k)[0] != 0)
    ensures k == if w == 0 then 1 else Width(w, 256)
  {
    var m := if w == 0 then 1 else Width(w, 256);
    if m < k {
      ZeroAbove(w, k);
    }
  }

  lemma {:induction false} ZeroAbove(w: nat, k: nat)
    requires k >= 1 && Width(w, 256) < k
    ensures Octets(w, k)[0] == 0
    decreases k
  {
    if k > 1 {
      ZeroAbove(w / 256, k - 1);
    }
  }

  /** DEREncodeUnsigned: the tag, the length and the content octets, and their number. */
  method DEREncodeUnsigned(out: ByteQueue, w: nat, size: nat, tag: byte) returns (written: nat)
    requires 1 <= size <= 8 && w < Power(256, size)
    modifies out
    ensures |Content(w, tag)| < LWORD_LIMIT
    ensures out.contents == old(out.contents) + EncodeUnsigned(w, tag)
    ensures written == |EncodeUnsigned(w, tag)|
  {
    hide Content, DerLength, Power;
    var content: seq<byte>;
    if tag == BOOLEAN {
      BooleanContent(w);
      content := [if w != 0 then 0xff else 0];
    } else {
      var buf, bc := ContentBuffer(w, size);
      IntegerContent(w, tag);
      content := buf[size + 1 - bc..];
    }
    out.Put([tag]);
    var lengthBytes := DERLengthEncode(out, |content|);
    out.Put(content);
    written := 1 + lengthBytes + |content|;
  }

  lemma BooleanContent(w: nat)
    ensures Content(w, BOOLEAN) == [if w != 0 then 0xff else 0]
  {
  }

  lemma IntegerContent(w: nat, tag: byte)
    requires tag != BOOLEAN
    ensures Content(w, tag) == Content(w, INTEGER)
  {
  }

  /** BERDecodeUnsigned; a failed call says nothing of what it has read. */
  method BERDecodeUnsigned(bt: ByteQueue, size: nat, tag: byte, minValue: nat, maxValue: nat) returns (r: Option<nat>)
    requires size >= 1
    modifies bt
    ensures r.Some? <==> DecodeUnsigned(old(bt.contents), size, tag, minValue, maxValue).Got?
    ensures r.Some? ==>
              && DecodeUnsigned(old(bt.contents), size, tag, minValue, maxValue) == Got(r.value, bt.contents)
              && r.value < Power(256, size)
  {
    hide DecodeLength;
    var t := bt.Get();
    if t == None || t.value != tag {
      return None;
    }
    var l := BERLengthDecode(bt);
    if !l.Definite? {
      return None;
    }
    var bc := l.length;
    if bc > |bt.contents| || (tag == BOOLEAN && bc != 1) || ((tag == INTEGER || tag == ENUMERATED) && bc == 0) {
      return None;
    }
    var buf := bt.contents[..bc];
    bt.contents := bt.contents[bc..];
    var w := ReadContent(buf, size);
    if w == None || w.value < minValue || w.value > maxValue {
      return None;
    }
    r := w;
  }

  /** Leading zeros are skipped, then the octets are accumulated. */
  method ReadContent(buf: seq<byte>, size: nat) returns (r: Option<nat>)
    requires size >= 1
    ensures r == if |StripZeros(buf, size)| > size then None else Some(Value(StripZeros(buf, size), 256))
    ensures r.Some? ==> r.value < Power(256, size)
  {
    var c := buf;
    while |c| > size && c[0] == 0
      invariant StripZeros(c, size) == StripZeros(buf, size)
      decreases |c|
    {
      c := c[1..];
    }
    if |c| > size {
      return None;
    }
    var w: nat := 0;
    for i := 0 to |c|
      invariant w == Value(c[..i], 256)
    {
      HornerLast(0, c[..i], c[i], 256);
      assert c[..i+1] == c[..i] + [c[i]];
      w := w * 256 + c[i];
    }
    assert c[..|c|] == c;
    ValueBound(c, size);
    r := Some(w);
  }
}
