/** Grouper: a separator after every groupSize bytes that more bytes follow, and a terminator at the end. */
module Grouper {
  import opened BitStrings

  /** The groups of s, separators between them. */
  function Separated(size: nat, separator: seq<byte>, s: seq<byte>): seq<byte>
    requires size > 0
    decreases |s|
  {
    if |s| <= size then s else s[..size] + separator + Separated(size, separator, s[size..])
  }

  function GroupMessage(size: nat, separator: seq<byte>, terminator: seq<byte>, s: seq<byte>): seq<byte> {
    (if size == 0 then s else Separated(size, separator, s)) + terminator
  }

  /** How many bytes the last group of n bytes has. */
  function LastGroup(size: nat, n: nat): (r: nat)
    requires size > 0
    ensures r <= size && (r == 0 <==> n == 0)
  {
    if n <= size then n else LastGroup(size, n - size)
  }

  /** Bytes that fit the last group extend it. */
  lemma {:induction false} ExtendGroup(size: nat, separator: seq<byte>, s: seq<byte>, t: seq<byte>)
    requires size > 0 && LastGroup(size, |s|) + |t| <= size
    ensures Separated(size, separator, s + t) == Separated(size, separator, s) + t
    ensures LastGroup(size, |s + t|) == LastGroup(size, |s|) + |t|
    decreases |s|
  {
    if |s| > size {
      ExtendGroup(size, separator, s[size..], t);
      var first, rest := s[..size] + separator, Separated(size, separator, s[size..]);
      assert (s + t)[..size] == s[..size] && (s + t)[size..] == s[size..] + t;
      assert Separated(size, separator, s + t) == first + (rest + t);
      assert first + (rest + t) == first + rest + t;
    } else {
      assert Separated(size, separator, s + t) == s + t;
    }
  }

  /** Once the last group is full, more bytes begin a group after a separator. */
  lemma {:induction false} BeginGroup(size: nat, separator: seq<byte>, s: seq<byte>, t: seq<byte>)
    requires size > 0 && LastGroup(size, |s|) == size && 1 <= |t| <= size
    ensures Separated(size, separator, s + t) == Separated(size, separator, s) + separator + t
    ensures LastGroup(size, |s + t|) == |t|
    decreases |s|
  {
    if |s| > size {
      BeginGroup(size, separator, s[size..], t);
      assert (s + t)[..size] == s[..size] && (s + t)[size..] == s[size..] + t;
      assert Separated(size, separator, s + t) ==
        s[..size] + separator + (Separated(size, separator, s[size..]) + separator + t);
    } else {
      assert (s + t)[..size] == s && (s + t)[size..] == t;
    }
  }

  class Filter {
    const groupSize: nat
    const separator: seq<byte>
    const terminator: seq<byte>
    var counter: nat
    ghost var taken: seq<byte>
    ghost var sent: seq<byte>

    ghost predicate Valid()
      reads this
    {
      if groupSize == 0 then counter == 0 && sent == taken
      else counter == LastGroup(groupSize, |taken|) && sent == Separated(groupSize, separator, taken)
    }

    constructor (groupSize: nat, separator: seq<byte>, terminator: seq<byte>)
      ensures Valid() && taken == [] && sent == []
      ensures this.groupSize == groupSize && this.separator == separator && this.terminator == terminator
    {
      this.groupSize, this.separator, this.terminator := groupSize, separator, terminator;
      counter, taken, sent := 0, [], [];
    }

    /** However a message is cut into calls, what has been sent at its end is its groups and the terminator. */
    method Put2(input: seq<byte>, messageEnd: bool) returns (out: seq<byte>)
      requires Valid()
      modifies this
      ensures Valid()
      ensures !messageEnd ==> taken == old(taken) + input && sent == old(sent) + out
      ensures messageEnd ==> old(sent) + out == GroupMessage(groupSize, separator, terminator, old(taken) + input)
      ensures messageEnd ==> taken == [] && sent == []
    {
      hide Separated, LastGroup;
      if groupSize != 0 {
        out := PutGroups(input);
      } else {
        out := input;
        taken, sent := taken + input, sent + input;
      }
      if messageEnd {
        assert old(sent) + (out + terminator) == sent + terminator;
        out := out + terminator;
        counter, taken, sent := 0, [], [];
        NothingGrouped(groupSize, separator);
      }
    }

    method PutGroups(input: seq<byte>) returns (out: seq<byte>)
      requires Valid() && groupSize != 0
      modifies this
      ensures Valid() && taken == old(taken) + input && sent == old(sent) + out
    {
      hide Separated, LastGroup;
      out := [];
      var position := 0;
      while position < |input|
        invariant Valid() && position <= |input|
        invariant taken == old(taken) + input[..position] && sent == old(sent) + out
      {
        var start := counter;
        if counter == groupSize {
          out := out + separator;
          counter := 0;
        }
        var len := if |input| - position <= groupSize - counter then |input| - position else groupSize - counter;
        var part := input[position..position + len];
        if start == groupSize {
          BeginGroup(groupSize, separator, taken, part);
          sent := sent + separator + part;
        } else {
          ExtendGroup(groupSize, separator, taken, part);
          sent := sent + part;
        }
        taken := taken + part;
        out := out + part;
        position := position + len;
        counter := counter + len;
        assert input[..position] == input[..position - len] + part;
      }
      assert input[..position] == input;
    }
  }

  lemma NothingGrouped(size: nat, separator: seq<byte>)
    ensures size > 0 ==> Separated(size, separator, []) == [] && LastGroup(size, 0) == 0
  {
  }
}
