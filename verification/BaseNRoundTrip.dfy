/** Encoder, grouper and decoder attached to one another; and the lookup array that makes them fit. */
module BaseNRoundTrip {
  import opened PowersOfTwo
  import opened BitStrings
  import opened BitPacking
  import BaseNEncoder
  import BaseNDecoder
  import Grouper

  // ---------- The lookup array ----------

  predicate IsAlpha(c: byte) {
    65 <= c <= 90 || 97 <= c <= 122
  }

  function ToUpper(c: byte): byte {
    if 97 <= c <= 122 then c - 32 else c
  }

  function ToLower(c: byte): byte {
    if 65 <= c <= 90 then c + 32 else c
  }

  /** Whether c is read as the alphabet's character a. */
  predicate Reads(a: byte, c: byte, caseInsensitive: bool) {
    if caseInsensitive && IsAlpha(a) then c == ToUpper(a) || c == ToLower(a) else c == a
  }

  const UPPER: string := "ABCDEFGHIJKLMNOPQRSTUVWXYZ"
  const LOWER: string := "abcdefghijklmnopqrstuvwxyz"

  /** The same letter in either case. */
  predicate SameLetter(a: byte, c: byte) {
    exists i :: 0 <= i < 26 && a in {UPPER[i] as int, LOWER[i] as int} && c in {UPPER[i] as int, LOWER[i] as int}
  }

  lemma Letter(i: nat)
    requires i < 26
    ensures UPPER[i] as int == 65 + i && LOWER[i] as int == 97 + i
  {
  }

  /** Without regard to case a character is read as itself and, if it is a letter, in the other case. */
  lemma ReadsEitherCase(a: byte, c: byte)
    ensures Reads(a, c, true) <==> a == c || SameLetter(a, c)
    ensures Reads(a, c, false) <==> a == c
  {
    forall i | 0 <= i < 26 ensures UPPER[i] as int == 65 + i && LOWER[i] as int == 97 + i {
      Letter(i);
    }
    if IsAlpha(a) {
      var i: nat := if a <= 90 then a - 65 else a - 97;
      assert a in {UPPER[i] as int, LOWER[i] as int};
      assert c in {UPPER[i] as int, LOWER[i] as int} ==> SameLetter(a, c);
    }
  }

  /** The last of the first n characters that c is read as. */
  function LastMatch(alphabet: seq<byte>, caseInsensitive: bool, c: byte, n: nat): (r: int)
    requires n <= |alphabet|
    ensures -1 <= r < n && (r >= 0 ==> Reads(alphabet[r], c, caseInsensitive))
    ensures forall j :: r < j < n ==> !Reads(alphabet[j], c, caseInsensitive)
  {
    if n == 0 then -1
    else if Reads(alphabet[n - 1], c, caseInsensitive) then n - 1
    else LastMatch(alphabet, caseInsensitive, c, n - 1)
  }

  method InitializeDecodingLookupArray(lookup: array<int>, alphabet: seq<byte>, base: nat, caseInsensitive: bool)
    requires lookup.Length == 256 && base <= |alphabet|
    modifies lookup
    ensures forall c: byte :: lookup[c] == LastMatch(alphabet, caseInsensitive, c, base)
  {
    forall c | 0 <= c < 256 {
      lookup[c] := -1;
    }
    for i := 0 to base
      invariant forall c: byte :: lookup[c] == LastMatch(alphabet, caseInsensitive, c, i)
    {
      if caseInsensitive && IsAlpha(alphabet[i]) {
        lookup[ToUpper(alphabet[i])] := i;
        lookup[ToLower(alphabet[i])] := i;
      } else {
        lookup[alphabet[i]] := i;
      }
    }
  }

  /** The lookup inverts the alphabet exactly when no character is read as a later one. */
  lemma LookupInverts(lookup: seq<int>, alphabet: seq<byte>, base: nat, caseInsensitive: bool)
    requires |lookup| == 256 && base <= |alphabet|
    requires forall c: byte :: lookup[c] == LastMatch(alphabet, caseInsensitive, c, base)
    ensures (forall v :: 0 <= v < base ==> lookup[alphabet[v]] == v) <==>
            (forall i, j :: 0 <= i < j < base ==> !Reads(alphabet[j], alphabet[i], caseInsensitive))
  {
    forall v | 0 <= v < base
      ensures Reads(alphabet[v], alphabet[v], caseInsensitive)
    {
    }
  }

  // ---------- Round trip ----------

  predicate Inverts(lookup: seq<int>, alphabet: seq<byte>, k: nat) {
    |lookup| == 256 && Pow2(k) <= |alphabet| && forall v :: 0 <= v < Pow2(k) ==> lookup[alphabet[v]] == v
  }

  predicate Skipped(lookup: seq<int>, s: seq<byte>)
    requires |lookup| == 256
  {
    forall i :: 0 <= i < |s| ==> lookup[s[i]] < 0
  }

  lemma {:induction false} DigitsOfSkipped(lookup: seq<int>, s: seq<byte>)
    requires |lookup| == 256 && Skipped(lookup, s)
    ensures BaseNDecoder.Digits(lookup, s) == []
    decreases |s|
  {
    if s != [] {
      DigitsOfSkipped(lookup, s[1..]);
    }
  }

  /** Looking up the characters of values returns the values. */
  lemma {:induction false} DigitsOfChars(lookup: seq<int>, alphabet: seq<byte>, k: nat, ds: seq<nat>)
    requires Inverts(lookup, alphabet, k) && forall i :: 0 <= i < |ds| ==> ds[i] < Pow2(k)
    ensures BaseNDecoder.Digits(lookup, BaseNEncoder.Chars(alphabet, ds)) == ds
    decreases |ds|
  {
    if ds != [] {
      var cs := BaseNEncoder.Chars(alphabet, ds);
      assert cs[1..] == BaseNEncoder.Chars(alphabet, ds[1..]);
      DigitsOfChars(lookup, alphabet, k, ds[1..]);
      assert lookup[cs[0]] == ds[0];
    }
  }

  /** Separators and terminator do not count. */
  lemma {:induction false} DigitsOfSeparated(lookup: seq<int>, size: nat, separator: seq<byte>, s: seq<byte>)
    requires |lookup| == 256 && size > 0 && Skipped(lookup, separator)
    ensures BaseNDecoder.Digits(lookup, Grouper.Separated(size, separator, s)) == BaseNDecoder.Digits(lookup, s)
    decreases |s|
  {
    if |s| > size {
      var first, rest := s[..size], Grouper.Separated(size, separator, s[size..]);
      DigitsOfSkipped(lookup, separator);
      DigitsOfSeparated(lookup, size, separator, s[size..]);
      BaseNDecoder.DigitsConcat(lookup, first + separator, rest);
      BaseNDecoder.DigitsConcat(lookup, first, separator);
      BaseNDecoder.DigitsConcat(lookup, first, s[size..]);
      assert first + s[size..] == s;
    }
  }

  lemma DigitsOfMessage(lookup: seq<int>, size: nat, separator: seq<byte>, terminator: seq<byte>, s: seq<byte>)
    requires |lookup| == 256 && (size > 0 ==> Skipped(lookup, separator)) && Skipped(lookup, terminator)
    ensures BaseNDecoder.Digits(lookup, Grouper.GroupMessage(size, separator, terminator, s)) ==
            BaseNDecoder.Digits(lookup, s)
  {
    hide BaseNDecoder.Digits;
    if size == 0 {
      BaseNDecoder.DigitsConcat(lookup, s, terminator);
    } else {
      DigitsOfSeparated(lookup, size, separator, s);
      BaseNDecoder.DigitsConcat(lookup, Grouper.Separated(size, separator, s), terminator);
    }
    DigitsOfSkipped(lookup, terminator);
  }

  lemma DigitsOfEncoding(lookup: seq<int>, alphabet: seq<byte>, k: nat, padding: int, message: seq<byte>)
    requires ValidLog2Base(k) && Inverts(lookup, alphabet, k) && -1 <= padding < 256
    requires padding == -1 || lookup[padding] < 0
    ensures BaseNDecoder.Digits(lookup, BaseNEncoder.EncodeMessage(alphabet, k, padding, message)) ==
            BaseNEncoder.Values(k, message)
  {
    hide BaseNDecoder.Digits, BaseNEncoder.Values, BaseNEncoder.PadCount, Pow2;
    var ds := BaseNEncoder.Values(k, message);
    var cs := BaseNEncoder.Chars(alphabet, ds);
    DigitsOfChars(lookup, alphabet, k, ds);
    if padding != -1 {
      var pad := BaseNEncoder.Repeat(padding, BaseNEncoder.PadCount(|cs|, k));
      DigitsOfSkipped(lookup, pad);
      BaseNDecoder.DigitsConcat(lookup, cs, pad);
    }
  }

  lemma FillCompletes(n: nat, k: nat)
    requires ValidLog2Base(k)
    ensures (n + BaseNEncoder.Fill(n, k)) % k == 0
  {
    ToMultipleCompletes(n, k);
  }

  /** The bits of the values are the message's bits and fewer than eight more. */
  lemma BytesOfValues(k: nat, message: seq<byte>)
    requires ValidLog2Base(k)
    ensures Groups(GroupBits(BaseNEncoder.Values(k, message), k), 8) == message
  {
    hide Groups, GroupBits, ByteBits, BaseNEncoder.Fill;
    var bits := ByteBits(message);
    var fill := Falses(BaseNEncoder.Fill(|bits|, k));
    var all := bits + fill;
    FillCompletes(|bits|, k);
    DivModLaw(|all|, k);
    GroupBitsOfGroups(all, k, |all| / k);
    GroupsOfByteBits(message, fill);
  }

  /** What was encoded and grouped decodes to itself. */
  lemma RoundTrip(lookup: seq<int>, alphabet: seq<byte>, k: nat, padding: int, size: nat, separator: seq<byte>,
                  terminator: seq<byte>, message: seq<byte>)
    requires ValidLog2Base(k) && Inverts(lookup, alphabet, k) && -1 <= padding < 256
    requires padding == -1 || lookup[padding] < 0
    requires (size > 0 ==> Skipped(lookup, separator)) && Skipped(lookup, terminator)
    ensures var encoded := BaseNEncoder.EncodeMessage(alphabet, k, padding, message);
            BaseNDecoder.DecodeMessage(lookup, k, Grouper.GroupMessage(size, separator, terminator, encoded)) == message
  {
    hide Groups, GroupBits, BaseNDecoder.Digits, BaseNEncoder.Values, Grouper.GroupMessage, BaseNEncoder.EncodeMessage;
    var encoded := BaseNEncoder.EncodeMessage(alphabet, k, padding, message);
    DigitsOfMessage(lookup, size, separator, terminator, encoded);
    DigitsOfEncoding(lookup, alphabet, k, padding, message);
    BytesOfValues(k, message);
  }

  // ---------- The three filters attached ----------

  function Flatten(parts: seq<seq<byte>>): seq<byte> {
    if parts == [] then [] else Flatten(parts[..|parts|-1]) + parts[|parts|-1]
  }

  ghost predicate Fit(e: BaseNEncoder.Encoder, g: Grouper.Filter, d: BaseNDecoder.Decoder) {
    && ValidLog2Base(e.bitsPerChar) && e.bitsPerChar == d.bitsPerChar
    && Inverts(d.lookup, e.alphabet, e.bitsPerChar) && -1 <= e.padding < 256
    && (e.padding == -1 || d.lookup[e.padding] < 0)
    && (g.groupSize > 0 ==> Skipped(d.lookup, g.separator)) && Skipped(d.lookup, g.terminator)
  }

  /** One part of a message goes through all three. */
  method PutThrough(e: BaseNEncoder.Encoder, g: Grouper.Filter, d: BaseNDecoder.Decoder, part: seq<byte>,
                    ghost sent: seq<byte>)
    returns (out: seq<byte>)
    requires e.Valid() && g.Valid() && d.Valid() && e.outBuf != d.outBuf
    requires g.taken == e.h.sent && d.h.taken == g.sent && d.h.sent == sent
    modifies e, e.outBuf, g, d, d.outBuf
    ensures e.Valid() && g.Valid() && d.Valid()
    ensures e.h.Taken() == old(e.h.Taken()) + part
    ensures g.taken == e.h.sent && d.h.taken == g.sent && d.h.sent == sent + out
  {
    hide BaseNEncoder.State, BaseNDecoder.State, Grouper.Separated, Grouper.LastGroup, BaseNEncoder.EncodeMessage,
      BaseNDecoder.DecodeMessage, Grouper.GroupMessage;
    var encoded := e.Put2(part, false);
    var grouped := g.Put2(encoded, false);
    out := d.Put2(grouped, false);
  }

  /** Whatever parts a message comes in, what comes out is the message. */
  method RunThrough(e: BaseNEncoder.Encoder, g: Grouper.Filter, d: BaseNDecoder.Decoder, parts: seq<seq<byte>>)
    returns (out: seq<byte>)
    requires e.Valid() && g.Valid() && d.Valid() && e.outBuf != d.outBuf && Fit(e, g, d)
    requires e.h.Taken() == [] && e.h.sent == [] && g.taken == [] && g.sent == [] && d.h == BaseNDecoder.START
    modifies e, e.outBuf, g, d, d.outBuf
    ensures out == Flatten(parts)
  {
    hide BaseNEncoder.State, BaseNDecoder.State, Grouper.Separated, Grouper.LastGroup, BaseNEncoder.EncodeMessage,
      BaseNDecoder.DecodeMessage, Grouper.GroupMessage, Inverts, Skipped;
    out := [];
    for i := 0 to |parts|
      invariant e.Valid() && g.Valid() && d.Valid()
      invariant e.h.Taken() == Flatten(parts[..i])
      invariant g.taken == e.h.sent && d.h.taken == g.sent && d.h.sent == out
    {
      var more := PutThrough(e, g, d, parts[i], out);
      assert parts[..i + 1][..i] == parts[..i];
      out := out + more;
    }
    assert parts[..|parts|] == parts;
    ghost var message := e.h.Taken();
    var encoded := e.Put2([], true);
    assert message + [] == message;
    var grouped := g.Put2(encoded, true);
    var decoded := d.Put2(grouped, true);
    RoundTrip(d.lookup, e.alphabet, e.bitsPerChar, e.padding, g.groupSize, g.separator, g.terminator, message);
    out := out + decoded;
  }
}
