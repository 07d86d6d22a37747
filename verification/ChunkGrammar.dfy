/** Exactly what the chunked reader accepts, and on what it throws. */
module ChunkGrammar {
  import opened HexNumbers
  import opened Chunked

  /** A size line, as many bytes as it says, and a line end. */
  datatype Piece = Piece(header: string, chunk: string)

  /**
   What stops the reader: size zero and an empty line; a negative size; a chunk with something
   else than a line end after it; or a line that is no size.
   */
  datatype Ending =
    | Terminator(header: string)
    | Negative(header: string)
    | Broken(header: string, lost: string, line: string)
    | Unreadable(header: string)

  function EndText(e: Ending): string {
    match e
    case Terminator(header) => header + "\r\n"
    case Negative(header) => header
    case Broken(header, lost, line) => header + (lost + line)
    case Unreadable(header) => header
  }

  function Text(ps: seq<Piece>, e: Ending): string {
    if ps == [] then EndText(e) else ps[0].header + (ps[0].chunk + ("\r\n" + Text(ps[1..], e)))
  }

  function Body(ps: seq<Piece>): string {
    if ps == [] then "" else ps[0].chunk + Body(ps[1..])
  }

  /** A line when after comes after it: only there is a newline, or nothing follows. */
  predicate IsLine(line: string, after: string) {
    && line != "" && (forall i :: 0 <= i < |line| - 1 ==> line[i] != '\n')
    && (line[|line| - 1] == '\n' || after == "")
  }

  predicate EndsWell(e: Ending, rest: string) {
    match e
    case Terminator(header) => IsLine(header, "\r\n") && Stoi(header) == Number(0)
    case Negative(header) => IsLine(header, rest) && Stoi(header).Number? && Stoi(header).value < 0
    case Broken(header, lost, line) =>
      && lost != "" && IsLine(header, lost) && Stoi(header) == Number(|lost|)
      && IsLine(line, rest) && line != "\r\n"
    case Unreadable(header) => IsLine(header, rest) && Stoi(header).Thrown?
  }

  predicate WellFormed(ps: seq<Piece>, e: Ending, rest: string) {
    if ps == [] then EndsWell(e, rest)
    else
      && ps[0].chunk != "" && IsLine(ps[0].header, ps[0].chunk) && Stoi(ps[0].header) == Number(|ps[0].chunk|)
      && WellFormed(ps[1..], e, rest)
  }

  /** What comes of a well-formed text. */
  function Verdict(ps: seq<Piece>, e: Ending, rest: string, out: string): Outcome {
    if e.Unreadable? then Exception else Accepted(out + Body(ps), rest)
  }

  /** A line is the first line of what it begins. */
  lemma {:induction false} LineFirst(line: string, after: string)
    requires IsLine(line, after)
    ensures LineOf(line + after) == line && AfterLine(line + after) == after && line + after != ""
    decreases |line|
  {
    var s := line + after;
    if |line| > 1 {
      assert s[1..] == line[1..] + after;
      LineFirst(line[1..], after);
    } else if line != "\n" {
      assert s == line && line[1..] == "";
      assert LineOf(line[1..]) == "";
    } else {
      assert s[0] == '\n';
    }
  }

  /** And the first line of a text is a line. */
  lemma {:induction false} FirstIsLine(s: string)
    requires s != ""
    ensures IsLine(LineOf(s), AfterLine(s)) && s == LineOf(s) + AfterLine(s)
    decreases |s|
  {
    if s[0] != '\n' && |s| > 1 {
      FirstIsLine(s[1..]);
      assert LineOf(s) == [s[0]] + LineOf(s[1..]);
      assert AfterLine(s) == AfterLine(s[1..]);
    } else if s[0] != '\n' {
      assert s[1..] == "" && LineOf(s[1..]) == "" && LineOf(s) == s;
    }
  }

  /** The reader before a size line. */
  function Next(s: string, out: string): Outcome {
    if s == "" then Rejected else FromSize(Stoi(LineOf(s)), AfterLine(s), out)
  }

  lemma LineEndIsLine(after: string)
    ensures IsLine("\r\n", after) && "\r\n" + after != ""
  {
  }

  /** The reader after a size line, when there is a chunk. */
  lemma ReadsPiece(chunk: string, line: string, after: string, out: string)
    requires chunk != "" && IsLine(line, after)
    ensures FromSize(Number(|chunk|), chunk + (line + after), out) ==
            if line == "\r\n" then Next(after, out + chunk) else Accepted(out, after)
  {
    var s := chunk + (line + after);
    LineFirst(line, after);
    hide LineOf, Stoi, AfterLine;
    assert s[|chunk|..] == line + after && s[..|chunk|] == chunk;
  }

  lemma ReadsTerminator(header: string, rest: string, out: string)
    requires EndsWell(Terminator(header), rest)
    ensures Next(header + ("\r\n" + rest), out) == Accepted(out, rest)
  {
    hide LineOf, Stoi, AfterLine, IsLine;
    LineEndIsLine(rest);
    LineAfter(header, "\r\n", rest);
    LineFirst("\r\n", rest);
  }

  lemma ReadsBroken(header: string, lost: string, line: string, rest: string, out: string)
    requires EndsWell(Broken(header, lost, line), rest)
    ensures Next(header + (lost + (line + rest)), out) == Accepted(out, rest)
  {
    hide LineOf, Stoi, AfterLine, IsLine, FromSize;
    LineAfter(header, lost, line + rest);
    ReadsPiece(lost, line, rest, out);
  }

  lemma ReadsEnding(e: Ending, rest: string, out: string)
    requires EndsWell(e, rest)
    ensures Next(EndText(e) + rest, out) == Verdict([], e, rest, out)
  {
    hide LineOf, Stoi, AfterLine, IsLine;
    assert out + Body([]) == out;
    match e {
      case Terminator(header) =>
        ReadsTerminator(header, rest, out);
        assert EndText(e) + rest == header + ("\r\n" + rest);
      case Broken(header, lost, line) =>
        ReadsBroken(header, lost, line, rest, out);
        assert EndText(e) + rest == header + (lost + (line + rest));
      case _ =>
        LineFirst(e.header, rest);
    }
  }

  /** A line with more behind it is the first line, whatever comes later still. */
  lemma LineAfter(line: string, after: string, later: string)
    requires IsLine(line, after) && after != ""
    ensures LineOf(line + (after + later)) == line && AfterLine(line + (after + later)) == after + later
    ensures line + (after + later) != ""
  {
    LineFirst(line, after + later);
  }

  /** Every well-formed text is read to its end, and no further. */
  lemma {:induction false} ReadsWellFormed(ps: seq<Piece>, e: Ending, rest: string, out: string)
    requires WellFormed(ps, e, rest)
    ensures Next(Text(ps, e) + rest, out) == Verdict(ps, e, rest, out)
    decreases |ps|
  {
    hide LineOf, Stoi, AfterLine, IsLine, FromSize, EndsWell, EndText;
    if ps == [] {
      ReadsEnding(e, rest, out);
    } else {
      var p, later := ps[0], Text(ps[1..], e) + rest;
      assert Text(ps, e) + rest == p.header + (p.chunk + ("\r\n" + later));
      LineAfter(p.header, p.chunk, "\r\n" + later);
      LineEndIsLine(later);
      ReadsPiece(p.chunk, "\r\n", later, out);
      ReadsWellFormed(ps[1..], e, rest, out + p.chunk);
      assert out + p.chunk + Body(ps[1..]) == out + Body(ps);
    }
  }

  /** What must be there for the reader not to refuse. */
  lemma NotRefused(size: int, s: string, out: string)
    requires FromSize(Number(size), s, out) != Rejected
    ensures size > 0 ==> |s| > size
    ensures size == 0 ==> s != "" && LineOf(s) == "\r\n"
  {
  }

  /** An ending without a chunk. */
  lemma ParseEnding(s: string, out: string) returns (e: Ending, rest: string)
    requires s != "" && Next(s, out) != Rejected && (Stoi(LineOf(s)).Thrown? || Stoi(LineOf(s)).value <= 0)
    ensures EndsWell(e, rest) && s == EndText(e) + rest
  {
    hide LineOf, Stoi, AfterLine, IsLine, FromSize;
    FirstIsLine(s);
    var header, after := LineOf(s), AfterLine(s);
    if Stoi(header).Thrown? {
      e, rest := Unreadable(header), after;
    } else if Stoi(header).value < 0 {
      e, rest := Negative(header), after;
    } else {
      NotRefused(0, after, out);
      FirstIsLine(after);
      e, rest := Terminator(header), AfterLine(after);
      ShorterAfter(header, "\r\n", rest);
    }
  }

  /** A size line, a chunk, and the line that comes after it. */
  lemma ParseChunk(s: string, out: string) returns (header: string, chunk: string, line: string, after: string)
    requires s != "" && Next(s, out) != Rejected && Stoi(LineOf(s)).Number? && Stoi(LineOf(s)).value > 0
    ensures s == header + (chunk + (line + after)) && IsLine(line, after) && |after| < |s|
    ensures chunk != "" && IsLine(header, chunk) && Stoi(header) == Number(|chunk|)
    ensures line == "\r\n" ==> Next(after, out + chunk) == Next(s, out)
  {
    hide LineOf, Stoi, AfterLine, IsLine, FromSize;
    FirstIsLine(s);
    header := LineOf(s);
    var t, n := AfterLine(s), Stoi(header).value;
    NotRefused(n, t, out);
    chunk := t[..n];
    FirstIsLine(t[n..]);
    line, after := LineOf(t[n..]), AfterLine(t[n..]);
    assert t == chunk + (line + after);
    ShorterAfter(header, chunk, line + after);
    ReadsPiece(chunk, line, after, out);
  }

  lemma OnePieceMore(header: string, chunk: string, ps: seq<Piece>, e: Ending, rest: string)
    requires chunk != "" && IsLine(header, chunk) && Stoi(header) == Number(|chunk|) && WellFormed(ps, e, rest)
    ensures WellFormed([Piece(header, chunk)] + ps, e, rest)
    ensures Text([Piece(header, chunk)] + ps, e) + rest == header + (chunk + ("\r\n" + (Text(ps, e) + rest)))
  {
    hide Stoi, IsLine, EndsWell;
    assert ([Piece(header, chunk)] + ps)[1..] == ps;
  }

  /** A text that is not refused for want of more is well-formed. */
  lemma {:induction false} Parse(s: string, out: string) returns (ps: seq<Piece>, e: Ending, rest: string)
    requires Next(s, out) != Rejected
    ensures WellFormed(ps, e, rest) && s == Text(ps, e) + rest
    decreases |s|
  {
    hide LineOf, Stoi, AfterLine, IsLine, FromSize;
    if Stoi(LineOf(s)).Thrown? || Stoi(LineOf(s)).value <= 0 {
      ps := [];
      e, rest := ParseEnding(s, out);
    } else {
      var header, chunk, line, after := ParseChunk(s, out);
      if line == "\r\n" {
        ps, e, rest := Parse(after, out + chunk);
        OnePieceMore(header, chunk, ps, e, rest);
        ps := [Piece(header, chunk)] + ps;
      } else {
        ps, e, rest := [], Broken(header, chunk, line), after;
        assert header + (chunk + (line + after)) == EndText(e) + rest;
      }
    }
  }

  lemma ShorterAfter(line: string, after: string, later: string)
    requires IsLine(line, after + later) && after != ""
    ensures IsLine(line, after)
  {
  }

  /** The reader accepts exactly the well-formed texts that end in a terminator, a negative size or a broken chunk. */
  lemma AcceptsExactly(s: string, out: string, rest: string)
    ensures ReadChunks(s) == Accepted(out, rest) <==>
            exists ps: seq<Piece>, e: Ending ::
              WellFormed(ps, e, rest) && !e.Unreadable? && s == Text(ps, e) + rest && out == Body(ps)
  {
    hide Text, Body, WellFormed, FromSize;
    if ReadChunks(s) == Accepted(out, rest) {
      var ps, e, rest' := Parse(s, "");
      ReadsWellFormed(ps, e, rest', "");
      assert "" + Body(ps) == Body(ps);
    }
    forall ps: seq<Piece>, e: Ending |
      WellFormed(ps, e, rest) && !e.Unreadable? && s == Text(ps, e) + rest && out == Body(ps)
      ensures ReadChunks(s) == Accepted(out, rest)
    {
      ReadsWellFormed(ps, e, rest, "");
      assert "" + Body(ps) == Body(ps);
    }
  }

  /** It throws exactly on a line that is no size where one is due. */
  lemma ThrowsExactly(s: string)
    ensures ReadChunks(s) == Exception <==>
            exists ps: seq<Piece>, e: Ending, rest: string ::
              WellFormed(ps, e, rest) && e.Unreadable? && s == Text(ps, e) + rest
  {
    hide Text, Body, WellFormed, FromSize;
    if ReadChunks(s) == Exception {
      var ps, e, rest := Parse(s, "");
      ReadsWellFormed(ps, e, rest, "");
    }
    forall ps: seq<Piece>, e: Ending, rest: string | WellFormed(ps, e, rest) && e.Unreadable? && s == Text(ps, e) + rest
      ensures ReadChunks(s) == Exception
    {
      ReadsWellFormed(ps, e, rest, "");
    }
  }

  lemma OneReads()
    ensures Stoi("1\r\n") == Number(1) && IsLine("1\r\n", "a")
  {
    StoiOfHex(1);
    assert HexOf(1) == "1";
  }

  /** A chunk with no line end after it is lost, and the body accepted without it. */
  lemma LosesChunk(rest: string)
    ensures ReadChunks("1\r\n" + ("a" + ("x\n" + rest))) == Accepted("", rest)
  {
    OneReads();
    hide Stoi, LineOf, FromSize;
    ReadsBroken("1\r\n", "a", "x\n", rest, "");
  }
}
