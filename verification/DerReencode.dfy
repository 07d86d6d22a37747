/** DERReencode: a BER element read from one queue and written to another with its indefinite lengths made definite. */
module DerReencode {
  import opened Options
  import opened PowersOfTwo
  import opened AsnLength

  /** The mask that the code tests tags with. */
  const CONSTRUCTED: nat := 0x20

  /** Bit 6 of the identifier octet, counted from one (section 8.1.2.5 of X.690). */
  predicate IsConstructed(tag: byte) {
    Bit(tag, 5) == 1
  }

  lemma MaskTestsBit(tag: byte)
    ensures tag / CONSTRUCTED % 2 == Bit(tag, 5)
  {
    assert Pow2(3) == 8 && Pow2(5) == 32 by {
      assert Pow2(4) == 16;
    }
  }

  // ---------- BER elements ----------

  /**
   A BER element: contents preceded by a definite length field, of whatever form, or
   elements closed by end-of-contents octets (section 8.1.3 of X.690).
   */
  datatype Element =
    | Definite(tag: byte, field: seq<byte>, content: seq<byte>)
    | Indefinite(tag: byte, children: Elements)
  datatype Elements = End | More(head: Element, tail: Elements)

  /** The octets of an element as they arrive. */
  function Ber(e: Element): (r: seq<byte>)
    decreases e
  {
    match e
    case Definite(tag, field, content) => [tag] + field + content
    case Indefinite(tag, children) => [tag, 0x80] + BerAll(children)
  }

  function BerAll(es: Elements): (r: seq<byte>)
    decreases es
  {
    match es
    case End => [0, 0]
    case More(head, tail) => Ber(head) + BerAll(tail)
  }

  predicate StartsWithEnd(s: seq<byte>) {
    |s| >= 2 && s[0] == 0 && s[1] == 0
  }

  /** Length fields say what they precede; only constructed elements may be indefinite; no child reads as an end. */
  predicate WellFormed(e: Element)
    decreases e
  {
    match e
    case Definite(tag, field, content) => LengthField(field, |content|)
    case Indefinite(tag, children) => IsConstructed(tag) && WellFormedAll(children)
  }

  predicate WellFormedAll(es: Elements)
    decreases es
  {
    match es
    case End => true
    case More(head, tail) => WellFormed(head) && !StartsWithEnd(Ber(head)) && WellFormedAll(tail)
  }

  /** Input this long leaves every length, in and out, below 2^64. */
  const SIZE_LIMIT: nat := 0x4000_0000_0000_0000

  /** The element with every level reached through indefinite lengths made definite; definite contents as they were. */
  function Der(e: Element): (r: seq<byte>)
    requires |Ber(e)| < SIZE_LIMIT
    ensures |r| <= 3 * |Ber(e)|
    decreases e
  {
    match e
    case Definite(tag, field, content) => [tag] + DerLength(|content|) + content
    case Indefinite(tag, children) => [tag] + DerLength(|DerAll(children)|) + DerAll(children)
  }

  function DerAll(es: Elements): (r: seq<byte>)
    requires |BerAll(es)| < SIZE_LIMIT
    ensures |r| + 6 <= 3 * |BerAll(es)|
    decreases es
  {
    match es
    case End => []
    case More(head, tail) => Der(head) + DerAll(tail)
  }

  // ---------- What DERReencode computes ----------

  datatype Parse = Done(out: seq<byte>, rest: seq<byte>) | Fail

  function Reencode(s: seq<byte>): (r: Parse)
    requires |s| < SIZE_LIMIT
    ensures r.Done? ==> |r.rest| < |s| && |r.out| <= 3 * (|s| - |r.rest|)
    decreases |s|, 0
  {
    if s == [] then Fail else
      match DecodeLength(s[1..])
      case Definite(n, rest) =>
        if n > |rest| then Fail else Done([s[0]] + DerLength(n) + rest[..n], rest[n..])
      case Indefinite(rest) =>
        if !IsConstructed(s[0]) then Fail else
          (match ReencodeAll(rest)
           case Done(body, rest') => Done([s[0]] + DerLength(|body|) + body, rest')
           case Fail => Fail)
      case _ => Fail
  }

  function ReencodeAll(s: seq<byte>): (r: Parse)
    requires |s| < SIZE_LIMIT
    ensures r.Done? ==> |r.rest| < |s| && |r.out| + 6 <= 3 * (|s| - |r.rest|)
    decreases |s|, 1
  {
    if StartsWithEnd(s) then Done([], s[2..]) else
      match Reencode(s)
      case Fail => Fail
      case Done(out, rest) =>
        match ReencodeAll(rest)
        case Fail => Fail
        case Done(outs, rest') => Done(out + outs, rest')
  }

  // ---------- Its meaning ----------

  /** A well-formed element, at any nesting depth, is consumed exactly and comes out in its definite form. */
  lemma {:induction false} ReencodeElement(e: Element, rest: seq<byte>)
    requires WellFormed(e) && |Ber(e) + rest| < SIZE_LIMIT
    ensures Reencode(Ber(e) + rest) == Done(Der(e), rest)
    decreases e
  {
    var s := Ber(e) + rest;
    match e {
      case Definite(tag, field, content) =>
        assert s[1..] == field + (content + rest);
        LengthFieldDecodes(field, |content|, content + rest);
        assert (content + rest)[..|content|] == content && (content + rest)[|content|..] == rest;
      case Indefinite(tag, children) =>
        assert s[1..] == [0x80] + (BerAll(children) + rest);
        assert s[1..][1..] == BerAll(children) + rest;
        ReencodeElements(children, rest);
    }
  }

  lemma {:induction false} ReencodeElements(es: Elements, rest: seq<byte>)
    requires WellFormedAll(es) && |BerAll(es) + rest| < SIZE_LIMIT
    ensures ReencodeAll(BerAll(es) + rest) == Done(DerAll(es), rest)
    decreases es
  {
    var s := BerAll(es) + rest;
    match es {
      case End =>
        assert s[2..] == rest;
      case More(head, tail) =>
        assert s == Ber(head) + (BerAll(tail) + rest);
        NotAnEnd(head, BerAll(tail) + rest);
        ReencodeElement(head, BerAll(tail) + rest);
        ReencodeElements(tail, rest);
    }
  }

  /** An element is at least two octets long, so whether it reads as an end does not depend on what follows. */
  lemma NotAnEnd(e: Element, rest: seq<byte>)
    requires WellFormed(e)
    ensures |Ber(e)| >= 2 && (StartsWithEnd(Ber(e) + rest) <==> StartsWithEnd(Ber(e)))
  {
  }

  /** Under every tag: elements closed by end octets are re-encoded exactly when bit 5 of the tag is set. */
  lemma IndefiniteNeedsBit(tag: byte, es: Elements, rest: seq<byte>)
    requires WellFormedAll(es) && |BerAll(es) + rest| + 2 < SIZE_LIMIT
    ensures Reencode([tag, 0x80] + BerAll(es) + rest) ==
            if Bit(tag, 5) == 1 then Done([tag] + DerLength(|DerAll(es)|) + DerAll(es), rest) else Fail
  {
    hide Bit, DerLength;
    var s := [tag, 0x80] + BerAll(es) + rest;
    assert s[1..] == [0x80] + (BerAll(es) + rest) && s[1..][1..] == BerAll(es) + rest;
    ReencodeElements(es, rest);
  }

  /** SEQUENCE and SET may be indefinite; INTEGER, OCTET STRING and a primitive application tag may not. */
  lemma IndefiniteTags(es: Elements, rest: seq<byte>)
    requires WellFormedAll(es) && |BerAll(es) + rest| + 2 < SIZE_LIMIT
    ensures forall tag: byte :: tag in {0x30, 0x31} ==>
              Reencode([tag, 0x80] + BerAll(es) + rest) == Done([tag] + DerLength(|DerAll(es)|) + DerAll(es), rest)
    ensures forall tag: byte :: tag in {0x02, 0x04, 0x40} ==> Reencode([tag, 0x80] + BerAll(es) + rest) == Fail
  {
    hide Reencode, DerLength;
    forall tag: byte | tag in {0x30, 0x31, 0x02, 0x04, 0x40}
      ensures Reencode([tag, 0x80] + BerAll(es) + rest) ==
              if tag in {0x30, 0x31} then Done([tag] + DerLength(|DerAll(es)|) + DerAll(es), rest) else Fail
    {
      IndefiniteNeedsBit(tag, es, rest);
      MaskTestsBit(tag);
    }
  }

  /** Whatever is accepted was a well-formed element followed by the rest. */
  lemma {:induction false} AcceptsOnlyElements(s: seq<byte>) returns (e: Element)
    requires |s| < SIZE_LIMIT && Reencode(s).Done?
    ensures WellFormed(e) && s == Ber(e) + Reencode(s).rest
    decreases |s|, 0
  {
    var len := s[1..];
    match DecodeLength(len) {
      case Definite(n, rest) =>
        e := DefiniteAccepted(s, n, rest);
      case Indefinite(rest) =>
        var children := AcceptsOnlyElementsAll(rest);
        e := Element.Indefinite(s[0], children);
        IndefiniteHeader(s, rest, children, ReencodeAll(rest).rest);
      case _ =>
    }
  }

  lemma DefiniteAccepted(s: seq<byte>, n: nat, rest: seq<byte>) returns (e: Element)
    requires s != [] && DecodeLength(s[1..]) == LengthResult.Definite(n, rest) && n <= |rest|
    ensures WellFormed(e) && s == Ber(e) + rest[n..]
  {
    DecodeLengthExact(s[1..], n, rest);
    var field: seq<byte> :| LengthField(field, n) && s[1..] == field + rest;
    e := Element.Definite(s[0], field, rest[..n]);
    Reassemble(s, field, rest, n);
  }

  lemma Reassemble(s: seq<byte>, field: seq<byte>, rest: seq<byte>, n: nat)
    requires s != [] && s[1..] == field + rest && n <= |rest|
    ensures s == [s[0]] + field + rest[..n] + rest[n..]
  {
    var t := [s[0]] + field + rest[..n] + rest[n..];
    assert |s| == 1 + |s[1..]|;
    forall i | 0 <= i < |s| ensures s[i] == t[i] {
      if i > 0 {
        assert s[i] == s[1..][i-1];
      }
    }
  }

  lemma IndefiniteHeader(s: seq<byte>, rest: seq<byte>, children: Elements, after: seq<byte>)
    requires s != [] && DecodeLength(s[1..]) == LengthResult.Indefinite(rest) && rest == BerAll(children) + after
    ensures s == Ber(Element.Indefinite(s[0], children)) + after
  {
    assert s[1] == 0x80 && s[1..][1..] == rest;
  }

  lemma {:induction false} AcceptsOnlyElementsAll(s: seq<byte>) returns (es: Elements)
    requires |s| < SIZE_LIMIT && ReencodeAll(s).Done?
    ensures WellFormedAll(es) && s == BerAll(es) + ReencodeAll(s).rest
    decreases |s|, 1
  {
    if StartsWithEnd(s) {
      es := End;
      assert s == [0, 0] + s[2..];
    } else {
      var rest := Reencode(s).rest;
      var head := AcceptsOnlyElements(s);
      var tail := AcceptsOnlyElementsAll(rest);
      NotAnEnd(head, rest);
      es := More(head, tail);
    }
  }

  /** The output is itself an element of definite length, which re-encoding leaves as it is. */
  lemma ReencodeIdempotent(s: seq<byte>, rest: seq<byte>)
    requires |s| < SIZE_LIMIT && Reencode(s).Done? && |Reencode(s).out + rest| < SIZE_LIMIT
    ensures Reencode(Reencode(s).out + rest) == Done(Reencode(s).out, rest)
  {
    var out := Reencode(s).out;
    var tag, content := OutputShape(s);
    var e := Element.Definite(tag, DerLength(|content|), content);
    DerLengthIsField(|content|);
    ReencodeElement(e, rest);
  }

  lemma OutputShape(s: seq<byte>) returns (tag: byte, content: seq<byte>)
    requires |s| < SIZE_LIMIT && Reencode(s).Done?
    ensures |content| < LWORD_LIMIT && Reencode(s).out == [tag] + DerLength(|content|) + content
  {
    tag := s[0];
    match DecodeLength(s[1..]) {
      case Definite(n, rest) => content := rest[..n];
      case Indefinite(rest) => content := ReencodeAll(rest).out;
      case _ => content := [];
    }
  }

  // ---------- The code ----------

  /**
   DERReencode. The encoder is a queue of its own, flushed behind its tag and length once the
   element has been read; the decoder reads through to the source, since only indefinite
   elements are entered.
   */
  method DERReencode(source: ByteQueue, dest: ByteQueue) returns (ok: bool)
    requires source != dest && |source.contents| < SIZE_LIMIT
    modifies source, dest
    ensures ok <==> Reencode(old(source.contents)).Done?
    ensures ok ==>
              && source.contents == Reencode(old(source.contents)).rest
              && dest.contents == old(dest.contents) + Reencode(old(source.contents)).out
    decreases |source.contents|, 0
  {
    hide DecodeLength, DerLength, ReencodeAll;
    var t := source.Get();
    if t == None {
      return false;
    }
    var tag := t.value;
    var length := BERLengthDecode(source);
    var encoder := new ByteQueue();
    match length {
      case Definite(n, _) =>
        var moved := source.TransferTo(encoder, n);
        if moved != n {
          return false;
        }
      case Indefinite(_) =>
        MaskTestsBit(tag);
        if tag / CONSTRUCTED % 2 == 0 {
          return false;
        }
        ok := ReencodeContents(source, encoder);
        if !ok {
          return false;
        }
      case _ => return false;
    }
    // DERGeneralEncoder::MessageEnd
    dest.Put([tag]);
    var written := DERLengthEncode(dest, |encoder.contents|);
    var all := encoder.TransferTo(dest, |encoder.contents|);
    ok := true;
  }

  /** The loop over the elements of an indefinite-length element, and MessageEnd, which removes the end octets. */
  method ReencodeContents(source: ByteQueue, encoder: ByteQueue) returns (ok: bool)
    requires source != encoder && |source.contents| < SIZE_LIMIT && encoder.contents == []
    modifies source, encoder
    ensures ok <==> ReencodeAll(old(source.contents)).Done?
    ensures ok ==>
              && source.contents == ReencodeAll(old(source.contents)).rest
              && encoder.contents == ReencodeAll(old(source.contents)).out
    decreases |source.contents|, 1
  {
    hide Reencode, ReencodeAll;
    ghost var s := source.contents;
    assert Prefixed([], ReencodeAll(s)) == ReencodeAll(s);
    while !StartsWithEnd(source.contents)
      invariant |source.contents| <= |s|
      invariant ReencodeAll(s) == Prefixed(encoder.contents, ReencodeAll(source.contents))
      decreases |source.contents|
    {
      NextElement(source.contents, encoder.contents);
      ok := DERReencode(source, encoder);
      if !ok {
        return false;
      }
    }
    AtEnd(source.contents);
    source.contents := source.contents[2..];
    ok := true;
  }

  lemma NextElement(s: seq<byte>, done: seq<byte>)
    requires |s| < SIZE_LIMIT && !StartsWithEnd(s)
    ensures Reencode(s).Fail? ==> ReencodeAll(s).Fail?
    ensures Reencode(s).Done? ==>
              Prefixed(done, ReencodeAll(s)) == Prefixed(done + Reencode(s).out, ReencodeAll(Reencode(s).rest))
  {
    hide Reencode;
    if Reencode(s).Done? && ReencodeAll(Reencode(s).rest).Done? {
      var out, outs := Reencode(s).out, ReencodeAll(Reencode(s).rest).out;
      assert done + (out + outs) == done + out + outs;
    }
  }

  lemma AtEnd(s: seq<byte>)
    requires |s| < SIZE_LIMIT && StartsWithEnd(s)
    ensures ReencodeAll(s) == Done([], s[2..])
  {
  }

  function Prefixed(out: seq<byte>, p: Parse): Parse {
    match p
    case Done(o, rest) => Done(out + o, rest)
    case Fail => Fail
  }
}
