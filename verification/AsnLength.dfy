/** Byte queues, and the length octets of BER and DER (sections 8.1.3 and 10.1 of X.690). */
module AsnLength {
  import opened Options
  import opened Radix

  type byte = x: nat | x < 256

  const LWORD_LIMIT := 0x1_0000_0000_0000_0000


  /** BufferedTransformation as a first-in first-out queue of bytes. */
  class ByteQueue {
    var contents: seq<byte>

    constructor ()
      ensures contents == []
    {
      contents := [];
    }

    method Put(data: seq<byte>)
      modifies this
      ensures contents == old(contents) + data
    {
      contents := contents + data;
    }

    method Get() returns (b: Option<byte>)
      modifies this
      ensures old(contents) == [] ==> b == None && contents == []
      ensures old(contents) != [] ==> b == Some(old(contents)[0]) && contents == old(contents)[1..]
    {
      if contents == [] {
        b := None;
      } else {
        b := Some(contents[0]);
        contents := contents[1..];
      }
    }

    /** TransferTo: up to n bytes move to the end of another queue. */
    method TransferTo(target: ByteQueue, n: nat) returns (moved: nat)
      requires target != this
      modifies this, target
      ensures moved == if n <= |old(contents)| then n else |old(contents)|
      ensures contents == old(contents)[moved..]
      ensures target.contents == old(target.contents) + old(contents)[..moved]
    {
      moved := if n <= |contents| then n else |contents|;
      target.Put(contents[..moved]);
      contents := contents[moved..];
    }
  }

  /** What BERLengthDecode reports: a length, the indefinite form, end of input, or a length about to overflow. */
  datatype LengthResult =
    | Definite(length: nat, rest: seq<byte>)
    | Indefinite(rest: seq<byte>)
    | Truncated
    | Overflow(rest: seq<byte>)

  /** k length octets after a value read so far: each must leave room for eight more bits. */
  function DecodeOctets(s: seq<byte>, k: nat, acc: nat): (r: LengthResult)
    ensures r.Definite? ==> |r.rest| + k == |s| && r.rest == s[k..]
    ensures !r.Indefinite?
    decreases k
  {
    if k == 0 then Definite(acc, s)
    else if acc >= LWORD_LIMIT / 256 then Overflow(s)
    else if s == [] then Truncated
    else DecodeOctets(s[1..], k - 1, acc * 256 + s[0])
  }

  function DecodeLength(s: seq<byte>): (r: LengthResult)
    ensures r.Definite? || r.Indefinite? ==> |r.rest| < |s|
  {
    if s == [] then Truncated
    else if s[0] < 0x80 then Definite(s[0], s[1..])
    else if s[0] == 0x80 then Indefinite(s[1..])
    else DecodeOctets(s[1..], s[0] - 0x80, 0)
  }

  /** The DER form: one octet below 128, otherwise a count and the minimal big-endian octets. */
  function DerLength(n: nat): (r: seq<byte>)
    requires n < LWORD_LIMIT
    ensures 1 <= |r| <= 9
  {
    if n < 0x80 then [n] else
      WidthOfLword(n);
      [0x80 + Width(n, 256)] + Octets(n, Width(n, 256))
  }

  function Octets(n: nat, k: nat): (r: seq<byte>)
    ensures |r| == k
  {
    Digits(n, 256, k)
  }

  lemma WidthOfLword(n: nat)
    requires n < LWORD_LIMIT
    ensures Width(n, 256) <= 8
  {
    assert Power(256, 8) == LWORD_LIMIT by {
      assert Power(256, 4) == 0x1_0000_0000;
    }
    WidthBound(n, 256, 8);
  }

  /** Octets whose value fits are accepted and give exactly that value; others overflow. */
  lemma {:induction false} OctetsAccepted(octets: seq<byte>, rest: seq<byte>, acc: nat)
    ensures Horner(acc, octets, 256) < LWORD_LIMIT ==>
              DecodeOctets(octets + rest, |octets|, acc) == Definite(Horner(acc, octets, 256), rest)
    ensures Horner(acc, octets, 256) >= LWORD_LIMIT > acc ==>
              DecodeOctets(octets + rest, |octets|, acc).Overflow?
    decreases |octets|
  {
    if octets == [] {
      assert octets + rest == rest;
    } else {
      var s := octets + rest;
      assert s[0] == octets[0] && s[1..] == octets[1..] + rest;
      HornerGrows(acc, octets, 256);
      HornerGrows(acc * 256 + octets[0], octets[1..], 256);
      OctetsAccepted(octets[1..], rest, acc * 256 + octets[0]);
    }
  }

  /** No accepted length has wrapped: it is the big-endian value of its octets, and below 2^64. */
  lemma {:induction false} OctetsExact(s: seq<byte>, k: nat, acc: nat)
    requires acc < LWORD_LIMIT && DecodeOctets(s, k, acc).Definite?
    ensures k <= |s| && DecodeOctets(s, k, acc).length == Horner(acc, s[..k], 256) < LWORD_LIMIT
    decreases k
  {
    if k > 0 {
      OctetsExact(s[1..], k - 1, acc * 256 + s[0]);
      assert s[..k][1..] == s[1..][..k - 1];
    }
  }

  /** A well-formed definite length field: its octets and the number they stand for. */
  predicate LengthField(field: seq<byte>, n: nat) {
    && field != []
    && n < LWORD_LIMIT
    && (if field[0] < 0x80 then field == [n]
        else |field| + 0x7f == field[0] && |field| > 1 && n == Value(field[1..], 256))
  }

  /** Decoding accepts exactly the well-formed fields, and yields what they say with the rest untouched. */
  lemma DecodeLengthExact(s: seq<byte>, n: nat, rest: seq<byte>)
    ensures DecodeLength(s) == Definite(n, rest) <==>
            exists field: seq<byte> :: LengthField(field, n) && s == field + rest
  {
    if DecodeLength(s) == Definite(n, rest) {
      var k := |s| - |rest|;
      var field := s[..k];
      if s[0] >= 0x80 {
        OctetsExact(s[1..], s[0] - 0x80, 0);
        assert field[1..] == s[1..][..s[0] - 0x80];
      }
      assert LengthField(field, n) && s == field + rest;
    }
    if exists field: seq<byte> :: LengthField(field, n) && s == field + rest {
      var field: seq<byte> :| LengthField(field, n) && s == field + rest;
      LengthFieldDecodes(field, n, rest);
    }
  }

  lemma LengthFieldDecodes(field: seq<byte>, n: nat, rest: seq<byte>)
    requires LengthField(field, n)
    ensures DecodeLength(field + rest) == Definite(n, rest)
  {
    var s := field + rest;
    assert s[1..] == field[1..] + rest;
    if field[0] >= 0x80 {
      OctetsAccepted(field[1..], rest, 0);
    }
  }

  lemma DerLengthIsField(n: nat)
    requires n < LWORD_LIMIT
    ensures LengthField(DerLength(n), n)
  {
    if n >= 0x80 {
      WidthOfLword(n);
      ValueOfDigits(n, 256, Width(n, 256));
      LeadingDigit(n, 256);
      assert DerLength(n)[1..] == Octets(n, Width(n, 256));
    }
  }

  /** Round trip of lengths, with the remaining input untouched. */
  lemma LengthRoundTrip(n: nat, rest: seq<byte>)
    requires n < LWORD_LIMIT
    ensures DecodeLength(DerLength(n) + rest) == Definite(n, rest)
  {
    DerLengthIsField(n);
    LengthFieldDecodes(DerLength(n), n, rest);
  }

  /** The DER form is the shortest of all the fields BER admits. */
  lemma DerLengthShortest(field: seq<byte>, n: nat)
    requires LengthField(field, n)
    ensures |DerLength(n)| <= |field|
  {
    if field[0] >= 0x80 {
      WidthMinimal(field[1..], 256);
    }
  }

  // ---------- The code ----------

  /** DERLengthEncode. */
  method DERLengthEncode(bt: ByteQueue, length: nat) returns (written: nat)
    requires length < LWORD_LIMIT
    modifies bt
    ensures bt.contents == old(bt.contents) + DerLength(length)
    ensures written == |DerLength(length)|
  {
    hide Octets, Width;
    if length <= 0x7f {
      bt.Put([length]);
      written := 1;
    } else {
      WidthOfLword(length);
      var k := Width(length, 256);
      bt.Put([0x80 + k]);
      PutOctets(bt, length, k);
      written := 1 + k;
      assert bt.contents == old(bt.contents) + ([0x80 + k] + Octets(length, k));
    }
  }

  /** The loop of DERLengthEncode: the k low bytes, from the highest down. */
  method PutOctets(bt: ByteQueue, n: nat, k: nat)
    modifies bt
    ensures bt.contents == old(bt.contents) + Octets(n, k)
  {
    hide Octets, Power;
    var j := k;
    while j > 0
      invariant 0 <= j <= k
      invariant bt.contents == old(bt.contents) + Octets(n, k)[..k - j]
    {
      OctetAt(n, k, k - j);
      // byte(length >> (j-1)*8)
      bt.Put([n / Power(256, j - 1) % 256]);
      j := j - 1;
    }
  }

  /** Octet i of the big-endian form is the number shifted down by the octets after it. */
  lemma OctetAt(n: nat, k: nat, i: nat)
    requires i < k
    ensures Power(256, k - 1 - i) > 0 && n / Power(256, k - 1 - i) >= 0
    ensures Octets(n, k)[i] == n / Power(256, k - 1 - i) % 256
  {
    DigitAt(n, 256, k, i);
  }

  /** BERLengthDecode: the queue is left just after the length octets. */
  method BERLengthDecode(bt: ByteQueue) returns (r: LengthResult)
    modifies bt
    ensures r == DecodeLength(old(bt.contents))
    ensures bt.contents == if r.Truncated? then [] else r.rest
  {
    ghost var s := bt.contents;
    var o := bt.Get();
    match o {
      case None => return Truncated;
      case Some(b) =>
        if b < 0x80 {
          return Definite(b, bt.contents);
        }
        var lengthBytes: nat := b - 0x80;
        if lengthBytes == 0 {
          return Indefinite(bt.contents);
        }
        var length: nat := 0;
        while lengthBytes > 0
          invariant DecodeOctets(bt.contents, lengthBytes, length) == DecodeLength(s)
        {
          if length >= 0x0100_0000_0000_0000 {
            return Overflow(bt.contents);
          }
          var c := bt.Get();
          match c {
            case None => return Truncated;
            case Some(octet) => length := length * 256 + octet;
          }
          lengthBytes := lengthBytes - 1;
        }
        r := Definite(length, bt.contents);
    }
  }
}
