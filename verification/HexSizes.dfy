/** What std::stoi makes of a size line, whoever wrote it: either case, spaces, a sign and a prefix. */
module HexSizes {
  import opened PowersOfTwo
  import opened Radix
  import opened HexNumbers

  // ---------- Case ----------

  function Lower(c: char): char {
    if 'A' <= c <= 'Z' then c + 32 as char else c
  }

  function LowerCase(s: string): (r: string)
    ensures |r| == |s|
  {
    if s == "" then "" else [Lower(s[0])] + LowerCase(s[1..])
  }

  lemma LowerMeansTheSame(c: char)
    ensures HexValue(Lower(c)) == HexValue(c) && (IsSpace(Lower(c)) <==> IsSpace(c))
    ensures (Lower(c) == '\0' <==> c == '\0') && (Lower(c) == '-' <==> c == '-') && (Lower(c) == '+' <==> c == '+')
    ensures (Lower(c) == '0' <==> c == '0') && (Lower(c) == 'x' <==> c == 'x' || c == 'X') && Lower(c) != 'X'
  {
  }

  lemma {:induction false} DigitsIgnoreCase(s: string)
    ensures HexDigits(LowerCase(s)) == HexDigits(s)
    decreases |s|
  {
    if s != "" {
      LowerMeansTheSame(s[0]);
      DigitsIgnoreCase(s[1..]);
      hide HexValue, Lower;
    }
  }

  lemma {:induction false} StringsKeepCase(s: string)
    ensures CString(LowerCase(s)) == LowerCase(CString(s)) && SkipSpaces(LowerCase(s)) == LowerCase(SkipSpaces(s))
    decreases |s|
  {
    if s != "" {
      LowerMeansTheSame(s[0]);
      StringsKeepCase(s[1..]);
      hide Lower, IsSpace;
    }
  }

  lemma {:induction false} LowerAt(s: string, i: nat)
    requires i < |s|
    ensures LowerCase(s)[i] == Lower(s[i]) && LowerCase(s)[i..] == LowerCase(s[i..])
    decreases i
  {
    if i > 0 {
      LowerAt(s[1..], i - 1);
    }
  }

  lemma PrefixIgnoresCase(s: string)
    ensures SkipPrefix(LowerCase(s)) == LowerCase(SkipPrefix(s))
  {
    if |s| >= 3 {
      LowerAt(s, 0);
      LowerAt(s, 1);
      LowerAt(s, 2);
      LowerMeansTheSame(s[0]);
      LowerMeansTheSame(s[1]);
      LowerMeansTheSame(s[2]);
    }
    hide Lower, HexValue, LowerCase;
  }

  /** Reading does not depend on the case of letters. */
  lemma StoiIgnoresCase(s: string)
    ensures Stoi(LowerCase(s)) == Stoi(s)
  {
    hide ReadSigned, LowerCase;
    StringsKeepCase(s);
    StringsKeepCase(CString(s));
    SignedIgnoresCase(SkipSpaces(CString(s)));
  }

  lemma SignIgnoresCase(s: string)
    ensures SkipSign(LowerCase(s)) == LowerCase(SkipSign(s)) && (IsNegative(LowerCase(s)) <==> IsNegative(s))
  {
    if s != "" {
      LowerMeansTheSame(s[0]);
      hide Lower;
    }
  }

  lemma SignedIgnoresCase(s: string)
    ensures ReadSigned(LowerCase(s)) == ReadSigned(s)
  {
    hide LowerCase, SkipSign, SkipPrefix, HexDigits, Value, InRange, IsNegative;
    SignIgnoresCase(s);
    PrefixIgnoresCase(SkipSign(s));
    DigitsIgnoreCase(SkipPrefix(SkipSign(s)));
  }

  // ---------- Any digits, with anything after them ----------

  /** A digit in either case. */
  function DigitChar(d: nat, upper: bool): char
    requires d < 16
  {
    if upper then "0123456789ABCDEF"[d] else "0123456789abcdef"[d]
  }

  lemma DigitCharReads(d: nat, upper: bool)
    requires d < 16
    ensures HexValue(DigitChar(d, upper)) == d && (DigitChar(d, upper) == '0' <==> d == 0)
  {
  }

  predicate AreDigits(ds: seq<nat>) {
    forall i :: 0 <= i < |ds| ==> ds[i] < 16
  }

  /** The digits written out, each in its own case. */
  function Written(ds: seq<nat>, upper: nat -> bool): (s: string)
    requires AreDigits(ds)
    ensures |s| == |ds|
  {
    seq(|ds|, i requires 0 <= i < |ds| => DigitChar(ds[i], upper(i)))
  }

  predicate BeginsWithDigit(s: string) {
    s != "" && IsHex(s[0])
  }

  lemma {:induction false} WrittenReads(ds: seq<nat>, upper: nat -> bool, tail: string)
    requires AreDigits(ds) && !BeginsWithDigit(tail)
    ensures HexDigits(Written(ds, upper) + tail) == ds
    decreases |ds|
  {
    var s := Written(ds, upper) + tail;
    if ds == [] {
      assert s == tail;
    } else {
      DigitCharReads(ds[0], upper(0));
      hide HexValue, DigitChar;
      var later := (i: nat) => upper(i + 1);
      WrittenReads(ds[1..], later, tail);
      assert s[1..] == Written(ds[1..], later) + tail;
    }
  }

  predicate IsSpaces(s: string) {
    forall i :: 0 <= i < |s| ==> s[i] in {' ', '\t', '\n', '\U{0b}', '\U{0c}', '\r'}
  }

  lemma {:induction false} SpacesSkipped(spaces: string, s: string)
    requires IsSpaces(spaces) && (s == "" || !IsSpace(s[0]))
    ensures SkipSpaces(spaces + s) == s
    decreases |spaces|
  {
    if spaces == "" {
      assert spaces + s == s;
    } else {
      assert (spaces + s)[1..] == spaces[1..] + s;
      SpacesSkipped(spaces[1..], s);
    }
  }

  predicate NoNulls(s: string) {
    forall i :: 0 <= i < |s| ==> s[i] != '\0'
  }

  lemma {:induction false} CStringConcat(a: string, b: string)
    requires NoNulls(a)
    ensures CString(a + b) == a + CString(b)
    decreases |a|
  {
    if a == "" {
      assert a + b == b;
    } else {
      assert (a + b)[1..] == a[1..] + b;
      CStringConcat(a[1..], b);
    }
  }

  /** What a number looks like: spaces, a sign, a prefix, and digits. */
  datatype Numeral = Numeral(spaces: string, sign: string, prefix: string, ds: seq<nat>, upper: nat -> bool)

  predicate IsNumeral(n: Numeral) {
    && IsSpaces(n.spaces) && n.sign in {"", "+", "-"} && n.prefix in {"", "0x", "0X"}
    && n.ds != [] && AreDigits(n.ds)
  }

  function NumeralText(n: Numeral): string
    requires IsNumeral(n)
  {
    n.spaces + n.sign + n.prefix + Written(n.ds, n.upper)
  }

  /** No digit comes next, and no x that would make a prefix of a lone zero. */
  predicate Ends(n: Numeral, tail: string) {
    && !BeginsWithDigit(tail)
    && !(n.prefix == "" && n.ds == [0] && |tail| >= 2 && tail[0] in {'x', 'X'} && IsHex(tail[1]))
  }

  lemma HexIsNeither(c: char)
    requires IsHex(c)
    ensures c != '\0' && c != '+' && c != '-' && c != 'x' && c != 'X' && !IsSpace(c)
  {
  }

  /** Digits, perhaps behind a prefix. */
  lemma PrefixSkipped(n: Numeral, tail: string)
    requires IsNumeral(n) && Ends(n, tail)
    ensures SkipPrefix(n.prefix + Written(n.ds, n.upper) + tail) == Written(n.ds, n.upper) + tail
  {
    var w := Written(n.ds, n.upper);
    var s := n.prefix + w + tail;
    DigitCharReads(n.ds[0], n.upper(0));
    HexIsNeither(w[0]);
    if |w| > 1 {
      DigitCharReads(n.ds[1], n.upper(1));
      HexIsNeither(w[1]);
    }
    hide HexValue, DigitChar, IsSpace;
    if n.prefix == "" {
      assert s == w + tail;
      assert |w| > 1 ==> s[1] == w[1];
      assert |w| == 1 ==> n.ds == [n.ds[0]];
    } else {
      assert s[2] == w[0] && s[2..] == w + tail;
    }
  }

  lemma NumeralHasNoNulls(n: Numeral)
    requires IsNumeral(n)
    ensures NoNulls(NumeralText(n))
  {
    var w := Written(n.ds, n.upper);
    forall i | 0 <= i < |w| ensures w[i] != '\0' {
      DigitCharReads(n.ds[i], n.upper(i));
      HexIsNeither(w[i]);
    }
    hide Written;
    assert NoNulls(n.spaces) && NoNulls(n.sign) && NoNulls(n.prefix) && NoNulls(w);
    NoNullsConcat(n.spaces, n.sign);
    NoNullsConcat(n.spaces + n.sign, n.prefix);
    NoNullsConcat(n.spaces + n.sign + n.prefix, w);
  }

  lemma NoNullsConcat(a: string, b: string)
    requires NoNulls(a) && NoNulls(b)
    ensures NoNulls(a + b)
  {
  }

  lemma CutTail(n: Numeral, tail: string)
    requires Ends(n, tail)
    ensures Ends(n, CString(tail))
  {
    if tail != "" && tail[0] != '\0' {
      assert CString(tail)[0] == tail[0];
      if |CString(tail)| >= 2 {
        assert CString(tail)[1] == CString(tail[1..])[0] == tail[1];
      }
    }
  }

  /** Behind the spaces there is a sign, or the first character of the prefix or the digits. */
  lemma SpacesEnd(n: Numeral, tail: string)
    requires IsNumeral(n)
    ensures var s := n.sign + (n.prefix + Written(n.ds, n.upper) + tail);
            s != "" && !IsSpace(s[0]) && (s[0] == '-' <==> n.sign == "-") && (s[0] == '+' <==> n.sign == "+")
  {
    var w := Written(n.ds, n.upper);
    DigitCharReads(n.ds[0], n.upper(0));
    HexIsNeither(w[0]);
    hide Written;
    var s := n.sign + (n.prefix + w + tail);
    if n.sign == "" {
      assert s == n.prefix + w + tail;
      if n.prefix == "" {
        assert s == w + tail;
      }
    }
  }

  /** The number is the digits' value in base 16, negated by a minus, unless it is no int. What follows is ignored. */
  lemma StoiReads(n: Numeral, tail: string)
    requires IsNumeral(n) && Ends(n, tail)
    ensures Stoi(NumeralText(n) + tail) ==
            InRange(if n.sign == "-" then -(Value(n.ds, 16) as int) else Value(n.ds, 16) as int)
  {
    var end := CString(tail);
    var t := n.prefix + Written(n.ds, n.upper) + end;
    CutTail(n, tail);
    NumeralHasNoNulls(n);
    hide *;
    CStringConcat(NumeralText(n), tail);
    Regrouped(n, end);
    SpacesEnd(n, end);
    NumeralParts(n);
    SpacesSkipped(n.spaces, n.sign + t);
    SignedReads(n, end);
    StoiIs(NumeralText(n) + tail);
  }

  lemma StoiIs(s: string)
    ensures Stoi(s) == ReadSigned(SkipSpaces(CString(s)))
  {
  }

  lemma NumeralParts(n: Numeral)
    requires IsNumeral(n)
    ensures IsSpaces(n.spaces) && n.sign in {"", "+", "-"}
  {
  }

  lemma Regrouped(n: Numeral, end: string)
    requires IsNumeral(n)
    ensures NumeralText(n) + end == n.spaces + (n.sign + (n.prefix + Written(n.ds, n.upper) + end))
  {
  }

  lemma SignedReads(n: Numeral, end: string)
    requires IsNumeral(n) && Ends(n, end)
    ensures ReadSigned(n.sign + (n.prefix + Written(n.ds, n.upper) + end)) ==
            InRange(if n.sign == "-" then -(Value(n.ds, 16) as int) else Value(n.ds, 16) as int)
  {
    PrefixSkipped(n, end);
    SpacesEnd(n, end);
    WrittenReads(n.ds, n.upper, end);
    hide SkipPrefix, HexDigits, Value, InRange, Written, IsSpaces, AreDigits, BeginsWithDigit, IsSpace;
    var t := n.prefix + Written(n.ds, n.upper) + end;
    assert n.sign != "" ==> (n.sign + t)[1..] == t;
    assert n.sign == "" ==> n.sign + t == t;
  }

  /** An int has 32 bits. */
  lemma IntRange(v: int)
    ensures InRange(v) == if -(Pow2(31) as int) <= v < Pow2(31) as int then Number(v) else Thrown
  {
    assert Pow2(31) == 0x8000_0000 by {
      assert Pow2(5) == 32 by { assert Pow2(3) == 8; }
      Pow2Add(5, 5);
      Pow2Add(10, 5);
      Pow2Add(15, 15);
    }
  }

  // ---------- Nothing else is a number ----------

  lemma {:induction false} LeadingSpaces(s: string) returns (spaces: string)
    ensures IsSpaces(spaces) && s == spaces + SkipSpaces(s)
    decreases |s|
  {
    spaces := "";
    if s != "" && IsSpace(s[0]) {
      spaces := LeadingSpaces(s[1..]);
      spaces := [s[0]] + spaces;
    }
  }

  lemma DigitOfChar(c: char) returns (upper: bool)
    requires IsHex(c)
    ensures 0 <= HexValue(c) < 16 && DigitChar(HexValue(c), upper) == c
  {
    upper := 'A' <= c <= 'F';
  }

  lemma {:induction false} LeadingDigits(s: string) returns (upper: nat -> bool, tail: string)
    ensures AreDigits(HexDigits(s)) && !BeginsWithDigit(tail) && s == Written(HexDigits(s), upper) + tail
    decreases |s|
  {
    if s == "" || !IsHex(s[0]) {
      upper, tail := i => false, s;
    } else {
      var first := DigitOfChar(s[0]);
      var later;
      later, tail := LeadingDigits(s[1..]);
      hide HexValue, DigitChar;
      upper := (i: nat) => if i == 0 then first else later(i - 1);
      var ds, more := HexDigits(s), HexDigits(s[1..]);
      forall i | 0 <= i < |ds| ensures ds[i] < 16 && Written(ds, upper)[i] == ([s[0]] + Written(more, later))[i] {
        assert i > 0 ==> ds[i] == more[i - 1];
      }
      assert Written(ds, upper) == [s[0]] + Written(more, later);
    }
  }

  lemma {:induction false} CStringBegins(s: string) returns (rest: string)
    ensures s == CString(s) + rest && (rest == "" || rest[0] == '\0')
    decreases |s|
  {
    if s == "" || s[0] == '\0' {
      rest := s;
    } else {
      rest := CStringBegins(s[1..]);
    }
  }

  lemma SplitPrefix(s: string) returns (prefix: string)
    ensures prefix in {"", "0x", "0X"} && s == prefix + SkipPrefix(s)
    ensures prefix == "" ==> !(|s| >= 3 && s[0] == '0' && s[1] in {'x', 'X'} && IsHex(s[2]))
  {
    prefix := "";
    if |s| >= 3 && s[0] == '0' && (s[1] == 'x' || s[1] == 'X') && IsHex(s[2]) {
      prefix := s[..2];
      assert prefix == [s[0], s[1]] && s == prefix + s[2..];
    }
  }

  lemma SplitSign(s: string) returns (sign: string)
    ensures sign in {"", "+", "-"} && s == sign + SkipSign(s) && (IsNegative(s) <==> sign == "-")
  {
    sign := "";
    if s != "" && (s[0] == '-' || s[0] == '+') {
      sign := [s[0]];
      assert s == sign + s[1..];
    }
  }

  lemma StillEnds(n: Numeral, tail: string, rest: string)
    requires Ends(n, tail) && (rest == "" || rest[0] == '\0')
    ensures Ends(n, tail + rest)
  {
    assert |tail| == 1 && rest != "" ==> (tail + rest)[1] == '\0';
  }

  /** Behind spaces: what reads as a number is a sign, a prefix and digits. */
  lemma ParseSigned(s: string) returns (n: Numeral, tail: string)
    requires ReadSigned(s).Number?
    ensures IsNumeral(n) && Ends(n, tail) && n.spaces == "" && s == n.sign + (n.prefix + Written(n.ds, n.upper) + tail)
  {
    var t := SkipSign(s);
    var u := SkipPrefix(t);
    assert HexDigits(u) != [];
    hide *;
    var sign := SplitSign(s);
    var prefix := SplitPrefix(t);
    var upper;
    upper, tail := LeadingDigits(u);
    n := Numeral("", sign, prefix, HexDigits(u), upper);
    NumeralFrom(n, t, u, tail);
    assert t == prefix + Written(n.ds, n.upper) + tail;
  }

  lemma NumeralFrom(n: Numeral, t: string, u: string, tail: string)
    requires n.spaces == "" && n.sign in {"", "+", "-"} && n.prefix in {"", "0x", "0X"} && n.ds != [] && AreDigits(n.ds)
    requires t == n.prefix + u && u == Written(n.ds, n.upper) + tail && !BeginsWithDigit(tail)
    requires n.prefix == "" ==> !(|t| >= 3 && t[0] == '0' && t[1] in {'x', 'X'} && IsHex(t[2]))
    ensures IsNumeral(n) && Ends(n, tail)
  {
    LoneZero(n.ds, n.upper, tail);
    hide Written, IsHex, AreDigits;
    if n.prefix == "" && n.ds == [0] && |tail| >= 2 {
      assert t == "0" + tail;
      assert t[1] == tail[0] && t[2] == tail[1];
    }
  }

  lemma LoneZero(ds: seq<nat>, upper: nat -> bool, tail: string)
    requires AreDigits(ds)
    ensures ds == [0] ==> Written(ds, upper) + tail == "0" + tail
  {
    if ds == [0] {
      assert Written(ds, upper) == "0";
    }
  }

  /** Whatever is read as a number is a numeral with an end. */
  lemma StoiReadsOnlyNumerals(s: string) returns (n: Numeral, tail: string)
    requires Stoi(s).Number?
    ensures IsNumeral(n) && Ends(n, tail) && s == NumeralText(n) + tail
  {
    StoiIs(s);
    hide *;
    var rest := CStringBegins(s);
    var spaces := LeadingSpaces(CString(s));
    var m, end := ParseSigned(SkipSpaces(CString(s)));
    StillEnds(m, end, rest);
    n, tail := m.(spaces := spaces), end + rest;
    SameEnd(m, n, tail);
    Regrouped(n, tail);
    assert s == spaces + (n.sign + (n.prefix + Written(n.ds, n.upper) + end)) + rest;
    assert n.prefix + Written(n.ds, n.upper) + end + rest == n.prefix + Written(n.ds, n.upper) + tail;
  }

  lemma SameEnd(n: Numeral, m: Numeral, tail: string)
    requires IsNumeral(n) && Ends(n, tail) && IsSpaces(m.spaces) && m == n.(spaces := m.spaces)
    ensures IsNumeral(m) && Ends(m, tail) && AreDigits(m.ds)
  {
  }
}
