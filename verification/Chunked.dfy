/** Chunked transfer coding: the writer, and the reader over a stream that delivers as little at a time as it likes. */
module Chunked {
  import opened HexNumbers

  // ---------- The stream ----------

  /** What is still to come; a stream that is not sound may fail at any read. */
  class Stream {
    const sound: bool
    var rest: string

    constructor (rest: string, sound: bool)
      ensures this.rest == rest && this.sound == sound
    {
      this.rest, this.sound := rest, sound;
    }

    /** At least one and at most k bytes, none at the end; -1 for failure. */
    method Read(k: nat) returns (n: int, data: string)
      requires k > 0
      modifies this
      ensures n == -1 ==> !sound
      ensures n >= 0 ==> n == |data| <= k && old(rest) == data + rest && (n == 0 <==> old(rest) == "")
      ensures -1 <= n && |rest| <= |old(rest)|
    {
      data := "";
      if !sound {
        var fails := *;
        if fails {
          return -1, data;
        }
      }
      if rest == "" {
        return 0, data;
      }
      var m :| 1 <= m <= k && m <= |rest|;
      data := rest[..m];
      n := m;
      assert rest == data + rest[m..];
      rest := rest[m..];
    }
  }

  // ---------- Lines ----------

  /** Everything up to and with the first newline, or everything. */
  function LineOf(s: string): (r: string)
    ensures |r| <= |s| && r == s[..|r|] && (r == "" <==> s == "")
  {
    if s == "" then ""
    else if s[0] == '\n' then
      assert s[..1] == "\n";
      "\n"
    else
      assert s[..1 + |LineOf(s[1..])|] == [s[0]] + LineOf(s[1..]);
      [s[0]] + LineOf(s[1..])
  }

  function AfterLine(s: string): string {
    s[|LineOf(s)|..]
  }

  lemma {:induction false} LineOfConcat(a: string, s: string)
    requires forall i :: 0 <= i < |a| ==> a[i] != '\n'
    ensures LineOf(a + "\n" + s) == a + "\n" && AfterLine(a + "\n" + s) == s
    decreases |a|
  {
    var t := a + "\n" + s;
    if a != "" {
      assert t[1..] == a[1..] + "\n" + s;
      LineOfConcat(a[1..], s);
    }
  }

  /** Memory that holds a string and a null after it. */
  lemma {:induction false} CStringOf(memory: string, s: string)
    requires |s| < |memory| && memory[..|s|] == s && memory[|s|] == '\0'
    ensures CString(memory) == CString(s)
    decreases |s|
  {
    if s != "" {
      assert memory[1..][..|s| - 1] == s[1..];
      CStringOf(memory[1..], s[1..]);
    }
  }

  /** Two tiers: a fixed buffer as long as a line fits, a growing one from then on. */
  class LineReader {
    const strm: Stream
    const fixed: array<char>
    var used: nat
    var grown: string

    constructor (strm: Stream, size: nat)
      requires size >= 1
      ensures this.strm == strm && fresh(fixed) && fixed.Length == size
    {
      this.strm, used, grown := strm, 0, "";
      fixed := new char[size];
    }

    /** The memory that ptr() points to. */
    function Ptr(): string
      reads this, fixed
    {
      if grown == "" then fixed[..] else grown + "\0"
    }

    /** The line, wherever it is kept; in the fixed buffer a null follows it. */
    ghost predicate Shows(line: string)
      reads this, fixed
    {
      if |line| < fixed.Length
      then grown == "" && used == |line| && fixed[..used] == line && (used > 0 ==> fixed[used] == '\0')
      else grown == line && used == fixed.Length - 1
    }

    method Append(c: char, ghost line: string)
      requires Shows(line) && fixed.Length >= 1
      modifies this, fixed
      ensures Shows(line + [c])
    {
      if used < fixed.Length - 1 {
        fixed[used] := c;
        used := used + 1;
        fixed[used] := '\0';
        assert fixed[..used] == line + [c];
      } else {
        if grown == "" {
          grown := fixed[..used];
        }
        grown := grown + [c];
      }
    }

    /** One line, a byte at a time; what ptr() then points to is that line as a C string. */
    method GetLine() returns (ok: bool)
      requires fixed.Length >= 1
      modifies this, fixed, strm
      ensures ok ==> old(strm.rest) != "" && strm.rest == AfterLine(old(strm.rest))
      ensures ok ==> CString(Ptr()) == CString(LineOf(old(strm.rest)))
      ensures strm.sound ==> (ok <==> old(strm.rest) != "")
    {
      used, grown := 0, "";
      ghost var line, s := "", strm.rest;
      assert fixed[..0] == "";
      assert Shows("");
      hide Shows, LineOf, CString, Reading, AfterLine;
      StartReading(s);
      var i := 0;
      while true
        invariant Shows(line) && i == |line| && Reading(s, line, strm.rest)
        decreases |strm.rest|
      {
        ghost var before := strm.rest;
        var n, data := strm.Read(1);
        if n < 0 {
          return false;
        } else if n == 0 {
          EndOfStream(s, line, strm.rest);
          if i == 0 {
            return false;
          } else {
            break;
          }
        }
        Append(data[0], line);
        OneMore(s, line, before, data[0], strm.rest);
        line := line + [data[0]];
        if data[0] == '\n' {
          break;
        }
        i := i + 1;
      }
      Shown(line);
      ok := true;
    }

    /** The C string at ptr() is the line. */
    lemma Shown(line: string)
      requires Shows(line) && line != ""
      ensures CString(Ptr()) == CString(line)
    {
      if |line| < fixed.Length {
        CStringOf(fixed[..], line);
      } else {
        CStringOf(grown + "\0", line);
      }
    }
  }

  /** Part of the first line of s has been read, and rest is still to come. */
  ghost predicate Reading(s: string, line: string, rest: string) {
    s == line + rest && LineOf(s) == line + LineOf(rest)
  }

  lemma StartReading(s: string)
    ensures Reading(s, "", s)
  {
  }

  lemma EndOfStream(s: string, line: string, rest: string)
    requires Reading(s, line, rest) && rest == ""
    ensures LineOf(s) == line && AfterLine(s) == rest && (s == "" <==> line == "")
  {
  }

  lemma OneMore(s: string, line: string, before: string, c: char, rest: string)
    requires Reading(s, line, before) && before == [c] + rest
    ensures s != ""
    ensures c != '\n' ==> Reading(s, line + [c], rest)
    ensures c == '\n' ==> LineOf(s) == line + [c] && AfterLine(s) == rest
  {
    assert before[1..] == rest;
    assert LineOf(before) == if c == '\n' then "\n" else [c] + LineOf(rest);
    assert s == line + [c] + rest;
  }

  // ---------- The reader ----------

  /** Reads exactly len bytes, in as many reads as it takes. */
  method ReadContentWithLength(strm: Stream, len: nat) returns (ok: bool, out: string)
    modifies strm
    ensures ok ==> |old(strm.rest)| >= len && out == old(strm.rest)[..len] && strm.rest == old(strm.rest)[len..]
    ensures strm.sound ==> (ok <==> |old(strm.rest)| >= len)
  {
    out := "";
    ghost var s := strm.rest;
    while |out| < len
      invariant |out| <= len && s == out + strm.rest
    {
      var n, data := strm.Read(len - |out|);
      if n <= 0 {
        return false, out;
      }
      assert s == out + data + strm.rest;
      out := out + data;
    }
    ok := true;
  }

  /** What the reader makes of a stream's contents: the body and what comes after it, a refusal, or an exception. */
  datatype Outcome = Accepted(out: string, rest: string) | Rejected | Exception

  function ReadChunks(s: string): Outcome {
    if s == "" then Rejected else FromSize(Stoi(LineOf(s)), AfterLine(s), "")
  }

  /**
   A chunk of the given size comes next, then its line end and the next size. Size zero and an empty
   line end the body, and so does a negative size.
   */
  function FromSize(size: Number, s: string, out: string): Outcome
    decreases |s|
  {
    if size.Thrown? then Exception
    else if size.value > 0 then
      if |s| <= size.value then Rejected
      else
        var t := s[size.value..];
        var u := AfterLine(t);
        if LineOf(t) != "\r\n" then Accepted(out, u)
        else if u == "" then Rejected
        else FromSize(Stoi(LineOf(u)), AfterLine(u), out + s[..size.value])
    else if size.value == 0 then
      if s == "" || LineOf(s) != "\r\n" then Rejected else Accepted(out, AfterLine(s))
    else Accepted(out, s)
  }

  /** strcmp with a line end compares whole lines. */
  lemma IsLineEnd(s: string)
    ensures CString(LineOf(s)) == "\r\n" <==> LineOf(s) == "\r\n"
  {
    var l := LineOf(s);
    if CString(l) == "\r\n" {
      CStringFront(l);
      NewlineLast(s, 1);
    }
    assert CString("\r\n") == "\r\n" by {
      assert CString("\n") == "\n" && "\r\n"[1..] == "\n" && "\n"[1..] == "";
    }
  }

  lemma {:induction false} CStringFront(s: string)
    ensures |CString(s)| <= |s| && CString(s) == s[..|CString(s)|]
    decreases |s|
  {
    if s != "" && s[0] != '\0' {
      CStringFront(s[1..]);
      assert s[..|CString(s)|] == [s[0]] + s[1..][..|CString(s[1..])|];
    }
  }

  /** A newline in a line is its last character. */
  lemma {:induction false} NewlineLast(s: string, i: nat)
    requires i < |LineOf(s)| && LineOf(s)[i] == '\n'
    ensures |LineOf(s)| == i + 1
    decreases |s|
  {
    if s[0] != '\n' {
      NewlineLast(s[1..], i - 1);
    }
  }

  datatype Result = Returned(ok: bool, out: string) | Threw

  /** What a call may return for a given outcome: on a sound stream that, on any other also a refusal. */
  ghost predicate Agrees(r: Result, rest: string, o: Outcome, sound: bool) {
    match o {
      case Accepted(out, after) => (r == Returned(true, out) && rest == after) || (!sound && r.Returned? && !r.ok)
      case Rejected => r.Returned? && !r.ok
      case Exception => r.Threw? || (!sound && r.Returned? && !r.ok)
    }
  }

  method ReadContentChunked(strm: Stream) returns (r: Result)
    modifies strm
    ensures Agrees(r, strm.rest, ReadChunks(old(strm.rest)), strm.sound)
  {
    hide Stoi, CString, LineOf;
    var reader := new LineReader(strm, 16);
    ghost var s := strm.rest;
    var out := "";
    var ok := reader.GetLine();
    if !ok {
      return Returned(false, out);
    }
    SameNumber(reader.Ptr(), LineOf(s));
    var size := Stoi(reader.Ptr());
    if size.Thrown? {
      return Threw;
    }
    var chunkLen := size.value;
    while chunkLen > 0
      invariant fresh(reader) && fresh(reader.fixed) && reader.fixed.Length == 16 && reader.strm == strm
      invariant ReadChunks(s) == FromSize(Number(chunkLen), strm.rest, out)
      decreases |strm.rest|
    {
      ghost var t := strm.rest;
      var chunk;
      ok, chunk := ReadContentWithLength(strm, chunkLen);
      if !ok {
        return Returned(false, out);
      }
      IsLineEnd(strm.rest);
      ok := reader.GetLine();
      if !ok {
        return Returned(false, out);
      }
      if CString(reader.Ptr()) != "\r\n" {
        break;
      }
      out := out + chunk;
      ghost var u := strm.rest;
      ok := reader.GetLine();
      if !ok {
        return Returned(false, out);
      }
      SameNumber(reader.Ptr(), LineOf(u));
      size := Stoi(reader.Ptr());
      if size.Thrown? {
        return Threw;
      }
      chunkLen := size.value;
    }
    if chunkLen == 0 {
      IsLineEnd(strm.rest);
      ok := reader.GetLine();
      if !ok || CString(reader.Ptr()) != "\r\n" {
        return Returned(false, out);
      }
    }
    return Returned(true, out);
  }

  lemma SameNumber(a: string, b: string)
    requires CString(a) == CString(b)
    ensures Stoi(a) == Stoi(b)
  {
  }

  // ---------- The writer ----------

  function Frame(chunk: string): string {
    HexOf(|chunk|) + "\r\n" + chunk + "\r\n"
  }

  /** The frames of the chunks and of the empty chunk that ends them. */
  function Framed(chunks: seq<string>): string {
    if chunks == [] then Frame("") else Frame(chunks[0]) + Framed(chunks[1..])
  }

  function Joined(chunks: seq<string>): string {
    if chunks == [] then "" else chunks[0] + Joined(chunks[1..])
  }

  /** Called at the offsets they begin at, the callback returns these chunks and then an empty one. */
  ghost predicate Delivers(callback: nat -> string, offset: nat, chunks: seq<string>)
    decreases |chunks|
  {
    if chunks == [] then callback(offset) == ""
    else callback(offset) == chunks[0] != "" && Delivers(callback, offset + |chunks[0]|, chunks[1..])
  }

  /** What has been written; a sink that is not sound may fail at any write, and then have taken part of it. */
  class Sink {
    const sound: bool
    var written: string

    constructor (sound: bool)
      ensures this.sound == sound && written == ""
    {
      this.sound, written := sound, "";
    }

    method Write(data: string) returns (n: int)
      modifies this
      ensures n >= 0 ==> written == old(written) + data
      ensures n < 0 ==> !sound && IsPrefix(old(written), written) && IsPrefix(written, old(written) + data)
    {
      if !sound {
        var fails := *;
        if fails {
          var m :| 0 <= m <= |data|;
          written := written + data[..m];
          return -1;
        }
      }
      written := written + data;
      n := |data|;
    }
  }

  predicate IsPrefix(s: string, t: string) {
    |s| <= |t| && s == t[..|s|]
  }

  /** The loop of write_response over a chunked response. */
  method WriteChunks(sink: Sink, callback: nat -> string, ghost chunks: seq<string>)
    requires Delivers(callback, 0, chunks) && sink.written == ""
    modifies sink
    ensures IsPrefix(sink.written, Framed(chunks))
    ensures sink.sound ==> sink.written == Framed(chunks)
  {
    hide Frame, Framed, IsPrefix;
    var offset: nat, available := 0, true;
    ghost var rest := chunks;
    assert Framed(chunks) == sink.written + Framed(rest);
    while available
      invariant available ==> Delivers(callback, offset, rest) && Framed(chunks) == sink.written + Framed(rest)
      invariant !available ==> Framed(chunks) == sink.written
      decreases |rest|, available
    {
      var chunk := callback(offset);
      ghost var before := sink.written;
      FramedFirst(rest, before);
      offset := offset + |chunk|;
      available := chunk != "";
      var header := FromIToHex(|chunk|);
      FrameIs(chunk);
      var n := sink.Write(header + "\r\n" + chunk + "\r\n");
      if n < 0 {
        PrefixOfMore(sink.written, before + Frame(chunk), if available then Framed(rest[1..]) else "");
        return;
      }
      rest := if available then rest[1..] else rest;
    }
    PrefixOfItself(sink.written);
  }

  lemma PrefixOfMore(s: string, t: string, more: string)
    requires IsPrefix(s, t)
    ensures IsPrefix(s, t + more) && t + "" == t
  {
  }

  lemma PrefixOfItself(s: string)
    ensures IsPrefix(s, s)
  {
  }

  lemma FramedFirst(chunks: seq<string>, before: string)
    ensures before + Framed(chunks) ==
            if chunks == [] then before + Frame("") else (before + Frame(chunks[0])) + Framed(chunks[1..])
  {
    hide Frame;
  }

  lemma FrameIs(chunk: string)
    ensures Frame(chunk) == HexOf(|chunk|) + "\r\n" + chunk + "\r\n"
  {
  }

  // ---------- Round trip ----------

  predicate FitInt(chunks: seq<string>) {
    forall i :: 0 <= i < |chunks| ==> |chunks[i]| <= INT_MAX
  }

  /** The header of a frame is its first line. */
  lemma HeaderLine(n: nat, s: string)
    ensures LineOf(HexOf(n) + "\r\n" + s) == HexOf(n) + "\r\n" && AfterLine(HexOf(n) + "\r\n" + s) == s
  {
    HexIsDigits(n);
    var a := HexOf(n) + "\r";
    hide HexOf;
    forall i | 0 <= i < |a| ensures a[i] != '\n' {
      if i < |HexOf(n)| {
        NotNewline(a[i]);
      }
    }
    LineOfConcat(a, s);
    assert a + "\n" == HexOf(n) + "\r\n";
    assert a + "\n" + s == HexOf(n) + "\r\n" + s;
  }

  lemma NotNewline(c: char)
    requires IsHex(c)
    ensures c != '\n'
  {
  }

  lemma EndLine(s: string)
    ensures LineOf("\r\n" + s) == "\r\n" && AfterLine("\r\n" + s) == s
  {
    LineOfConcat("\r", s);
    assert "\r" + "\n" == "\r\n";
  }

  /** The reader on one frame: the body grows by its chunk. */
  lemma OneFrame(chunk: string, s: string, out: string)
    requires 0 < |chunk| <= INT_MAX && s != ""
    ensures FromSize(Number(|chunk|), chunk + "\r\n" + s, out) == FromSize(Stoi(LineOf(s)), AfterLine(s), out + chunk)
  {
    hide LineOf, Stoi;
    var t := chunk + "\r\n" + s;
    assert t[|chunk|..] == "\r\n" + s && t[..|chunk|] == chunk;
    EndLine(s);
  }

  lemma FrameShape(chunks: seq<string>, tail: string)
    ensures Framed(chunks) + tail ==
            if chunks == [] then HexOf(0) + "\r\n" + ("\r\n" + tail)
            else HexOf(|chunks[0]|) + "\r\n" + (chunks[0] + "\r\n" + (Framed(chunks[1..]) + tail))
    ensures Framed(chunks) + tail != ""
  {
    hide HexOf;
    if chunks == [] {
      Assoc(HexOf(0) + "\r\n", "", "\r\n", "", tail);
    } else {
      var header := HexOf(|chunks[0]|) + "\r\n";
      assert Framed(chunks) == header + chunks[0] + "\r\n" + Framed(chunks[1..]);
      hide Framed;
      Assoc(header, chunks[0], "\r\n", Framed(chunks[1..]), tail);
    }
  }

  lemma Assoc(a: string, b: string, c: string, d: string, e: string)
    ensures a + b + c + d + e == a + (b + c + (d + e))
  {
  }

  /** What was written is read back, and reading stops right behind it; a chunk too long for an int makes it throw. */
  lemma {:induction false} ReadsBack(chunks: seq<string>, tail: string, out: string)
    requires forall i :: 0 <= i < |chunks| ==> chunks[i] != ""
    ensures var s := Framed(chunks) + tail;
            FromSize(Stoi(LineOf(s)), AfterLine(s), out) ==
            if FitInt(chunks) then Accepted(out + Joined(chunks), tail) else Exception
    decreases |chunks|
  {
    FrameShape(chunks, tail);
    hide HexOf, Stoi, LineOf, AfterLine, Framed;
    if chunks == [] {
      HeaderLine(0, "\r\n" + tail);
      StoiOfHex(0);
      EndLine(tail);
      assert out + "" == out;
    } else {
      var chunk, rest := chunks[0], Framed(chunks[1..]) + tail;
      HeaderLine(|chunk|, chunk + "\r\n" + rest);
      StoiOfHex(|chunk|);
      if |chunk| <= INT_MAX {
        FrameShape(chunks[1..], tail);
        OneFrame(chunk, rest, out);
        ReadsBack(chunks[1..], tail, out + chunk);
        FitsRest(chunks);
        assert out + chunk + Joined(chunks[1..]) == out + Joined(chunks);
      }
    }
  }

  lemma FitsRest(chunks: seq<string>)
    requires chunks != [] && |chunks[0]| <= INT_MAX
    ensures FitInt(chunks) <==> FitInt(chunks[1..])
  {
    if FitInt(chunks[1..]) {
      forall i | 0 <= i < |chunks| ensures |chunks[i]| <= INT_MAX {
        if i > 0 {
          assert chunks[i] == chunks[1..][i - 1];
        }
      }
    }
  }

  /** Written chunks, read from a sound stream in whatever portions: the body is the chunks, and the tail is left. */
  method Exchange(callback: nat -> string, ghost chunks: seq<string>, tail: string) returns (r: Result, rest: string)
    requires Delivers(callback, 0, chunks)
    ensures FitInt(chunks) ==> r == Returned(true, Joined(chunks)) && rest == tail
    ensures !FitInt(chunks) ==> r == Threw
  {
    var sink := new Sink(true);
    WriteChunks(sink, callback, chunks);
    var strm := new Stream(sink.written + tail, true);
    r := ReadContentChunked(strm);
    rest := strm.rest;
    NoneEmpty(callback, 0, chunks);
    FrameShape(chunks, tail);
    ReadsBack(chunks, tail, "");
    assert "" + Joined(chunks) == Joined(chunks);
  }

  lemma {:induction false} NoneEmpty(callback: nat -> string, offset: nat, chunks: seq<string>)
    requires Delivers(callback, offset, chunks)
    ensures forall i :: 0 <= i < |chunks| ==> chunks[i] != ""
    decreases |chunks|
  {
    if chunks != [] {
      NoneEmpty(callback, offset + |chunks[0]|, chunks[1..]);
      forall i | 0 <= i < |chunks| ensures chunks[i] != "" {
        if i > 0 {
          assert chunks[i] == chunks[1..][i - 1];
        }
      }
    }
  }
}
