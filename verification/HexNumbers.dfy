/** Hexadecimal sizes: the printer of the chunk header, and the C library's reader of it. */
module HexNumbers {
  import opened PowersOfTwo
  import opened Radix

  /** The value of a hexadecimal digit, or -1. */
  function HexValue(c: char): (v: int)
    ensures -1 <= v < 16
  {
    if '0' <= c <= '9' then c as int - '0' as int
    else if 'a' <= c <= 'f' then c as int - 'a' as int + 10
    else if 'A' <= c <= 'F' then c as int - 'A' as int + 10
    else -1
  }

  function HexChar(d: nat): (c: char)
    requires d < 16
    ensures HexValue(c) == d
  {
    "0123456789abcdef"[d]
  }

  /** The digits of n, none for zero. */
  function Hex(n: nat): string {
    if n == 0 then "" else Hex(n / 16) + [HexChar(n % 16)]
  }

  function HexOf(n: nat): (s: string)
    ensures |s| >= 1
  {
    if n == 0 then "0" else Hex(n)
  }

  /** from_i_to_hex: digits are put in front until nothing is left, and at least one. */
  method FromIToHex(number: nat) returns (ret: string)
    ensures ret == HexOf(number)
  {
    var n := number;
    FirstDigitOf(number);
    hide *;
    ret := [HexChar(n % 16)];
    n := n / 16;
    while n > 0
      invariant HexOf(number) == Hex(n) + ret
    {
      NextDigit(n, ret);
      ret := [HexChar(n % 16)] + ret;
      n := n / 16;
    }
    NoMoreDigits(ret);
  }

  lemma FirstDigitOf(n: nat)
    ensures HexOf(n) == Hex(n / 16) + [HexChar(n % 16)]
  {
    ZeroDigit();
    hide HexChar;
  }

  lemma NextDigit(n: nat, s: string)
    requires n > 0
    ensures Hex(n) + s == Hex(n / 16) + ([HexChar(n % 16)] + s)
  {
    hide HexChar;
  }

  lemma NoMoreDigits(s: string)
    ensures Hex(0) + s == s
  {
  }

  lemma ZeroDigit()
    ensures HexChar(0) == '0'
  {
  }

  // ---------- Reading ----------

  predicate IsHex(c: char) {
    HexValue(c) >= 0
  }

  /** The values of the digits that s begins with. */
  function HexDigits(s: string): (ds: seq<nat>)
    ensures |ds| <= |s|
  {
    if s == "" || !IsHex(s[0]) then [] else [HexValue(s[0])] + HexDigits(s[1..])
  }

  /** A C string ends at its first null character. */
  function CString(s: string): (r: string)
    ensures |r| <= |s|
  {
    if s == "" || s[0] == '\0' then "" else [s[0]] + CString(s[1..])
  }

  predicate IsSpace(c: char) {
    c == ' ' || '\t' <= c <= '\r'
  }

  function SkipSpaces(s: string): string {
    if s != "" && IsSpace(s[0]) then SkipSpaces(s[1..]) else s
  }

  datatype Number = Number(value: int) | Thrown

  const INT_MAX: int := 0x7fff_ffff

  function SkipPrefix(s: string): string {
    if |s| >= 3 && s[0] == '0' && (s[1] == 'x' || s[1] == 'X') && IsHex(s[2]) then s[2..] else s
  }

  function InRange(v: int): Number {
    if -INT_MAX - 1 <= v <= INT_MAX then Number(v) else Thrown
  }

  /** std::stoi in base 16: spaces, a sign and a prefix may come first; no digits, or a number that is no int, throw. */
  function Stoi(text: string): Number {
    ReadSigned(SkipSpaces(CString(text)))
  }

  function SkipSign(s: string): string {
    if s != "" && (s[0] == '-' || s[0] == '+') then s[1..] else s
  }

  predicate IsNegative(s: string) {
    s != "" && s[0] == '-'
  }

  function ReadSigned(s: string): Number {
    var ds := HexDigits(SkipPrefix(SkipSign(s)));
    if ds == [] then Thrown
    else InRange(if IsNegative(s) then -(Value(ds, 16) as int) else Value(ds, 16))
  }

  // ---------- Reading what was printed ----------

  /** Text that begins with the digits of n and goes on with something else. */
  lemma {:induction false} HexDigitsOf(n: nat, rest: string)
    requires rest == "" || !IsHex(rest[0])
    ensures Value(HexDigits(Hex(n) + rest), 16) == n && (n > 0 ==> HexDigits(Hex(n) + rest) != [])
    decreases n
  {
    if n == 0 {
      assert Hex(n) + rest == rest;
    } else {
      HexDigitsOf(n / 16, "");
      assert Hex(n / 16) + "" == Hex(n / 16);
      OneMoreDigit(n, rest);
    }
  }

  lemma OneMoreDigit(n: nat, rest: string)
    requires n > 0 && (rest == "" || !IsHex(rest[0])) && Value(HexDigits(Hex(n / 16)), 16) == n / 16
    ensures Value(HexDigits(Hex(n) + rest), 16) == n && HexDigits(Hex(n) + rest) != []
  {
    hide *;
    var front, c := Hex(n / 16), HexChar(n % 16);
    NextDigit(n, rest);
    AllHex(n / 16);
    CharIsHex(n % 16);
    HexDigitsAppend(front, c, rest);
    AppendValue(HexDigits(front), n % 16);
    DivModLaw(n, 16);
  }

  lemma AppendValue(ds: seq<nat>, d: nat)
    ensures Value(ds + [d], 16) == Value(ds, 16) * 16 + d
  {
    HornerLast(0, ds, d, 16);
  }

  predicate HexOnly(s: string) {
    forall i :: 0 <= i < |s| ==> IsHex(s[i])
  }

  lemma {:induction false} AllHex(n: nat)
    ensures HexOnly(Hex(n))
    decreases n
  {
    hide IsHex;
    if n > 0 {
      AllHex(n / 16);
      CharIsHex(n % 16);
    }
  }

  lemma CharIsHex(d: nat)
    requires d < 16
    ensures IsHex(HexChar(d)) && HexValue(HexChar(d)) == d
  {
  }

  lemma {:induction false} HexDigitsAppend(s: string, c: char, rest: string)
    requires HexOnly(s) && IsHex(c) && (rest == "" || !IsHex(rest[0]))
    ensures HexDigits(s + ([c] + rest)) == HexDigits(s) + [HexValue(c)]
    decreases |s|
  {
    if s == "" {
      assert s + ([c] + rest) == [c] + rest;
    } else {
      assert (s + ([c] + rest))[1..] == s[1..] + ([c] + rest);
      HexDigitsAppend(s[1..], c, rest);
    }
  }

  /** Nothing that could be taken for a null, a space, a sign or a prefix. */
  predicate IsPlain(c: char) {
    c != '\0' && c != '-' && c != '+' && c != 'x' && c != 'X'
  }

  predicate Plain(s: string) {
    forall i :: 0 <= i < |s| ==> IsPlain(s[i])
  }

  lemma {:induction false} NoNull(s: string)
    requires Plain(s)
    ensures CString(s) == s
    decreases |s|
  {
    if s != "" {
      NoNull(s[1..]);
      assert s == [s[0]] + s[1..];
    }
  }

  lemma HexIsPlain(c: char)
    requires IsHex(c)
    ensures IsPlain(c) && !IsSpace(c)
  {
  }

  /** Digits at the start: there is no space, sign or prefix to skip. */
  lemma StoiOfDigits(s: string)
    requires |s| > 0 && IsHex(s[0]) && Plain(s)
    ensures Stoi(s) == InRange(Value(HexDigits(s), 16))
  {
    NoNull(s);
    HexIsPlain(s[0]);
    FirstDigit(s);
    hide CString, HexDigits, Value, IsHex, IsSpace, InRange;
    assert SkipSpaces(s) == s;
    assert SkipPrefix(s) == s;
  }

  lemma FirstDigit(s: string)
    requires |s| > 0 && IsHex(s[0])
    ensures HexDigits(s) != []
  {
  }

  lemma ZeroReads()
    ensures Value(HexDigits("0\r\n"), 16) == 0
  {
    var s := "0\r\n";
    assert s[1..] == "\r\n" && HexDigits("\r\n") == [];
    assert HexDigits(s) == [0] + HexDigits("\r\n");
    assert Value([0], 16) == Horner(0 * 16 + 0, [0][1..], 16);
  }

  lemma HexIsDigits(n: nat)
    ensures HexOnly(HexOf(n))
  {
    AllHex(n);
  }

  /** A printed size, with its line end, reads back as itself, if it is an int; else reading throws. */
  lemma StoiOfHex(n: nat)
    ensures Stoi(HexOf(n) + "\r\n") == InRange(n)
  {
    var s := HexOf(n) + "\r\n";
    if n == 0 {
      ZeroReads();
    } else {
      HexDigitsOf(n, "\r\n");
    }
    HexIsDigits(n);
    hide HexOf, HexDigits, Value, Stoi, InRange, IsHex;
    forall i | 0 <= i < |s| ensures IsPlain(s[i]) {
      if i < |HexOf(n)| {
        HexIsPlain(s[i]);
      }
    }
    StoiOfDigits(s);
  }
}
