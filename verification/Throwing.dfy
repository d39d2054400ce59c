/** redis/reply.cpp: the headers that make the decoder throw, and that nothing else does. */
module Throwing {
  import opened Bytes
  import opened Decimal
  import opened Values
  import opened Reply
  import opened ReplyLaws
  import opened Client

  /** An array header that is no 64-bit number, or a bulk length below -1. */
  predicate BadHeader(s: seq<byte>) {
    s != [] &&
    var r := s[1..];
    LineEnd(r) < |r| && HasLine(r) &&
    match Stol(Line(r))
    case Number(n) => s[0] == DOLLAR && n < -1
    case _ => s[0] == STAR
  }

  lemma BadHeaderThrows(s: seq<byte>)
    requires BadHeader(s)
    ensures Parse(s) == Threw(match Stol(Line(s[1..]))
                              case Number(_) => LengthError
                              case InvalidArgument => HeaderInvalid
                              case RangeError => HeaderOutOfRange)
  {
  }

  /** The header that a call throws at, however deep in the arrays it reads. */
  lemma {:induction false} ThrownAt(s: seq<byte>) returns (c: seq<byte>)
    requires Parse(s).Threw?
    ensures IsSuffix(c, s) && BadHeader(c) && Parse(c) == Parse(s)
    decreases |s|, 0
  {
    if BadHeader(s) {
      c := s;
    } else {
      var r := s[1..];
      c := ThrownInItems(Stol(Line(r)).n, AfterLine(r), []);
      AfterLineIsSuffix(r);
      assert IsSuffix(r, s);
      SuffixTransitive(c, AfterLine(r), r);
      SuffixTransitive(c, r, s);
    }
  }

  lemma {:induction false} ThrownInItems(n: int, s: seq<byte>, items: seq<Value>) returns (c: seq<byte>)
    requires ParseItems(n, s, items).Threw?
    ensures IsSuffix(c, s) && BadHeader(c) && Parse(c) == ParseItems(n, s, items)
    decreases |s|, 1
  {
    ParseItemsStep(n, s, items, Parse(s));
    if Parse(s).Threw? {
      c := ThrownAt(s);
    } else {
      var rest := Parse(s).rest;
      c := ThrownInItems(n - 1, rest, items + [Parse(s).value]);
      ParseProgress(s);
      SuffixTransitive(c, rest, s);
    }
  }

  lemma {:induction false} BrokenAt(s: seq<byte>) returns (c: seq<byte>)
    requires DecodeAll(s).Broken?
    ensures IsSuffix(c, s) && BadHeader(c) && Parse(c) == Threw(DecodeAll(s).what)
    decreases |s|
  {
    if Parse(s).Threw? {
      c := ThrownAt(s);
    } else {
      var rest := Parse(s).rest;
      c := BrokenAt(rest);
      ParseProgress(s);
      SuffixTransitive(c, rest, s);
    }
  }

  /** Some later part of `s` begins with a bad header and throws `what`. */
  ghost predicate ThrowsInside(s: seq<byte>, what: Exception) {
    exists c :: IsSuffix(c, s) && BadHeader(c) && Parse(c) == Threw(what)
  }

  /**
   What throws: a bad header always does, and when a call or the loop over a buffer throws, at
   whatever depth, it is the exception of a bad header in what it was given.
   */
  lemma {:induction false} OnlyBadHeadersThrow(s: seq<byte>)
    ensures BadHeader(s) ==> Parse(s).Threw? && DecodeAll(s) == Broken(Parse(s).what)
    ensures Parse(s).Threw? ==> ThrowsInside(s, Parse(s).what)
    ensures DecodeAll(s).Broken? ==> ThrowsInside(s, DecodeAll(s).what)
  {
    if BadHeader(s) {
      BadHeaderThrows(s);
    }
    if Parse(s).Threw? {
      var c := ThrownAt(s);
    }
    if DecodeAll(s).Broken? {
      var c := BrokenAt(s);
    }
  }
}
