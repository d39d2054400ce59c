/** What the decoder guarantees: round trips, error short-circuit, progress and locality. */
module ReplyLaws {
  import opened Sequences
  import opened Bytes
  import opened Decimal
  import opened Values
  import opened Resp
  import opened Reply

  // ---- Round trip and error short-circuit ----

  /**
   The siblings still unread when the decoder leaves `v` at its leftmost error, innermost level
   first: they stay in the buffer as complete encodings.
   */
  function Remaining(v: Value): (r: seq<Value>)
    ensures NodesIn(r) < Nodes(v)
    ensures Encodable(v) ==> AllEncodable(r)
    decreases v, 1
  {
    match v
    case Array(items) => RemainingIn(items)
    case _ => []
  }

  function RemainingIn(items: seq<Value>): (r: seq<Value>)
    ensures NodesIn(r) <= NodesIn(items)
    ensures AllEncodable(items) ==> AllEncodable(r)
    decreases items, 0
  {
    if items == [] then []
    else if ErrorFree(items[0]) then RemainingIn(items[1..])
    else
      var inner := Remaining(items[0]);
      NodesInConcat(inner, items[1..]);
      EncodeAllConcat(inner, items[1..]);
      inner + items[1..]
  }

  /** The reply a tree is decoded to: itself, unless an error is nested inside an array. */
  function Decoded(v: Value): ReplyData {
    if ErrorFree(v) then ReplyData(v, NoError)
    else if v.Error? then ReplyData(v, ServerError)
    else ReplyData(Nil, ServerError)
  }

  /** A frame is read back as its line and its body, whatever follows the frame. */
  lemma FrameParts(kind: byte, line: seq<byte>, body: seq<byte>, tail: seq<byte>)
    requires CR !in line
    ensures var s := Framed(kind, line, body) + tail;
            s != [] && s[0] == kind && s[1..] != [] && HasLine(s[1..]) && LineEnd(s[1..]) < |s[1..]| &&
            Line(s[1..]) == line && AfterLine(s[1..]) == body + tail
  {
    var s := Framed(kind, line, body) + tail;
    assert s[1..] == line + (CRLF + (body + tail));
    LineEndAfter(line, CRLF + (body + tail));
    assert s[1..][|line| + 2..] == body + tail;
  }

  lemma ParseBulk(bytes: seq<byte>, tail: seq<byte>)
    requires FitsInt64(|bytes|)
    ensures Parse(Encode(Bulk(bytes)) + tail) == Parsed(Bulk(bytes), NoError, tail)
  {
    ReadPrinted(|bytes|);
    FrameParts(DOLLAR, ToString(|bytes|), bytes + CRLF, tail);
    var body := bytes + CRLF + tail;
    assert body[..|bytes|] == bytes && body[|bytes| + 2..] == tail;
  }

  lemma ParseNil(tail: seq<byte>)
    ensures Parse(Encode(Nil) + tail) == Parsed(Nil, NoError, tail)
  {
    assert [] + tail == tail;
    ReadPrinted(-1);
    FrameParts(DOLLAR, ToString(-1), [], tail);
  }

  lemma ParseText(kind: byte, text: seq<byte>, tail: seq<byte>)
    requires CR !in text
    ensures kind == PLUS ==> Parse(Framed(kind, text, []) + tail) == Parsed(Simple(text), NoError, tail)
    ensures kind == MINUS ==> Parse(Framed(kind, text, []) + tail) == Parsed(Error(text), ServerError, tail)
  {
    assert [] + tail == tail;
    FrameParts(kind, text, [], tail);
  }

  /** An integer line with any number on it: decoded to the number, or refused as out of range. */
  lemma ParseNumber(n: int, tail: seq<byte>)
    ensures Parse(Framed(COLON, ToString(n), []) + tail) ==
            if FitsInt64(n) then Parsed(Integer(n), NoError, tail) else Parsed(Nil, OutOfRange, tail)
  {
    assert [] + tail == tail;
    ReadPrinted(n);
    FrameParts(COLON, ToString(n), [], tail);
    var s := Framed(COLON, ToString(n), []) + tail;
    assert Parse(s) == ParseInteger(s[1..]);
  }

  /**
   A header that is no 64-bit number: the bulk parser reports a malformed message behind the
   header line, the integer parser reports out of range, and the array parser throws.
   */
  lemma ParseBadNumber(line: seq<byte>, rest: seq<byte>)
    requires CR !in line && !Stol(line).Number?
    ensures Parse(Framed(DOLLAR, line, []) + rest) == Parsed(Nil, MalformedMessage, rest)
    ensures Parse(Framed(COLON, line, []) + rest) == Parsed(Nil, OutOfRange, rest)
    ensures Parse(Framed(STAR, line, []) + rest) ==
            Threw(if Stol(line) == InvalidArgument then HeaderInvalid else HeaderOutOfRange)
  {
    assert [] + rest == rest;
    FrameParts(DOLLAR, line, [], rest);
    FrameParts(COLON, line, [], rest);
    FrameParts(STAR, line, [], rest);
  }

  lemma ParseNegativeCount(n: int, rest: seq<byte>)
    requires n < 0 && FitsInt64(n)
    ensures Parse(Framed(STAR, ToString(n), []) + rest) == Parsed(Array([]), NoError, rest)
  {
    assert [] + rest == rest;
    ReadPrinted(n);
    FrameParts(STAR, ToString(n), [], rest);
    var s := Framed(STAR, ToString(n), []) + rest;
    assert Parse(s) == ParseArray(s[1..]) == ParseItems(n, rest, []);
  }

  /** A negative length: nil for -1 and an exception below it; a negative count is an empty array. */
  lemma ParseNegativeLength(n: int, rest: seq<byte>)
    requires n < 0 && FitsInt64(n)
    ensures Parse(Framed(DOLLAR, ToString(n), []) + rest) ==
            if n == -1 then Parsed(Nil, NoError, rest) else Threw(LengthError)
    ensures Parse(Framed(STAR, ToString(n), []) + rest) == Parsed(Array([]), NoError, rest)
  {
    ParseNegativeCount(n, rest);
    assert [] + rest == rest;
    ReadPrinted(n);
    FrameParts(DOLLAR, ToString(n), [], rest);
    var s := Framed(DOLLAR, ToString(n), []) + rest;
    assert Parse(s) == ParseBulkString(s[1..]);
  }

  lemma ParseArrayHeader(items: seq<Value>, tail: seq<byte>)
    requires FitsInt64(|items|)
    ensures Parse(Encode(Array(items)) + tail) == ParseItems(|items|, EncodeAll(items) + tail, [])
  {
    var line, body := ToString(|items|), EncodeAll(items);
    ReadPrinted(|items|);
    FrameParts(STAR, line, body, tail);
    var s := Framed(STAR, line, body) + tail;
    assert Parse(s) == ParseArray(s[1..]);
  }

  /**
   Decoding any encoded tree, errors at any depth included, in front of any bytes. Without an
   error the tree itself comes back and the iterator stands on the first byte behind it; with an
   error inside an array the answer is nil and the iterator stands right behind the leftmost
   error, in front of the siblings that were not read.
   */
  lemma {:induction false} ParseEncoded(v: Value, tail: seq<byte>)
    requires Encodable(v)
    ensures Parse(Encode(v) + tail) == Parsed(Decoded(v).value, Decoded(v).error, EncodeAll(Remaining(v)) + tail)
    ensures ErrorFree(v) ==> Remaining(v) == []
    decreases v, 1
  {
    assert [] + tail == tail;
    match v
    case Bulk(bytes) =>
      ParseBulk(bytes, tail);
    case Array(items) =>
      ParseArrayHeader(items, tail);
      ParseItemsEncoded(items, [], tail);
      assert [] + items == items;
    case Nil => ParseNil(tail);
    case Simple(text) => ParseText(PLUS, text, tail);
    case Error(what) => ParseText(MINUS, what, tail);
    case Integer(n) => ParseNumber(n, tail);
  }

  /** The element loop on one encoded element that is decoded as it should be. */
  lemma ParseItemEncoded(n: nat, v: Value, rest: seq<byte>, before: seq<Value>)
    requires n > 0
    requires Parse(Encode(v) + rest) == Parsed(Decoded(v).value, Decoded(v).error, EncodeAll(Remaining(v)) + rest)
    requires ErrorFree(v) ==> Remaining(v) == []
    ensures ParseItems(n, Encode(v) + rest, before) ==
            if ErrorFree(v) then ParseItems(n - 1, rest, before + [v])
            else Parsed(Nil, ServerError, EncodeAll(Remaining(v)) + rest)
  {
    var s := Encode(v) + rest;
    assert s != [];
    ParseItemsStep(n, s, before, Parse(s));
    assert [] + rest == rest;
  }

  lemma {:induction false} ParseItemsEncoded(items: seq<Value>, before: seq<Value>, tail: seq<byte>)
    requires AllEncodable(items)
    ensures ParseItems(|items|, EncodeAll(items) + tail, before) ==
            if AllErrorFree(items) then Parsed(Array(before + items), NoError, tail)
            else Parsed(Nil, ServerError, EncodeAll(RemainingIn(items)) + tail)
    ensures AllErrorFree(items) ==> RemainingIn(items) == []
    decreases items, 0
  {
    if items == [] {
      assert before + items == before;
      assert EncodeAll(items) + tail == tail;
    } else {
      var v, others := items[0], items[1..];
      var rest := EncodeAll(others) + tail;
      Associate(Encode(v), EncodeAll(others), tail);
      assert EncodeAll(items) + tail == Encode(v) + rest;
      ParseEncoded(v, rest);
      ParseItemEncoded(|items|, v, rest, before);
      if ErrorFree(v) {
        ParseItemsEncoded(others, before + [v], tail);
        Associate(before, [v], others);
        assert [v] + others == items;
      } else {
        EncodeAllConcat(Remaining(v), others);
        Associate(EncodeAll(Remaining(v)), EncodeAll(others), tail);
      }
    }
  }

  /** The round trip of the error-free trees, nested to any depth and followed by any bytes. */
  lemma {:induction false} RoundTrip(v: Value, tail: seq<byte>)
    requires Encodable(v) && ErrorFree(v)
    ensures Parse(Encode(v) + tail) == Parsed(v, NoError, tail)
  {
    ParseEncoded(v, tail);
    assert EncodeAll([]) + tail == tail;
  }

  /** The text of the leftmost error of a tree, and the bytes in front of that error's encoding. */
  function FirstError(v: Value): seq<byte>
    requires !ErrorFree(v)
    decreases v, 1
  {
    match v
    case Error(what) => what
    case Array(items) => FirstErrorIn(items)
  }

  function FirstErrorIn(items: seq<Value>): seq<byte>
    requires !AllErrorFree(items)
    decreases items, 0
  {
    if ErrorFree(items[0]) then FirstErrorIn(items[1..]) else FirstError(items[0])
  }

  /** Error-free siblings and the array headers above: no error is in front of the leftmost one. */
  function Lead(v: Value): seq<byte>
    requires !ErrorFree(v)
    decreases v, 1
  {
    match v
    case Error(_) => []
    case Array(items) => Framed(STAR, ToString(|items|), LeadIn(items))
  }

  function LeadIn(items: seq<Value>): seq<byte>
    requires !AllErrorFree(items)
    decreases items, 0
  {
    if ErrorFree(items[0]) then Encode(items[0]) + LeadIn(items[1..]) else Lead(items[0])
  }

  lemma Regroup(a: seq<byte>, b: seq<byte>, c: seq<byte>, d: seq<byte>)
    ensures a + (b + c + d) == (a + b) + c + d
    ensures (b + c + d) + a == b + c + (d + a)
  {
  }

  /**
   Where the decoder stops on a tree with errors: the bytes it consumed end with the encoding of
   the leftmost error, and what it leaves is the unread siblings in order.
   */
  lemma {:induction false} StopsBehindFirstError(v: Value)
    requires !ErrorFree(v)
    ensures Encode(v) == Lead(v) + Encode(Error(FirstError(v))) + EncodeAll(Remaining(v))
    decreases v, 1
  {
    match v
    case Error(what) =>
      assert [] + Encode(v) + [] == Encode(v);
    case Array(items) =>
      StopsBehindFirstErrorIn(items);
      Regroup([STAR] + ToString(|items|) + CRLF, LeadIn(items), Encode(Error(FirstErrorIn(items))),
              EncodeAll(RemainingIn(items)));
  }

  lemma {:induction false} StopsBehindFirstErrorIn(items: seq<Value>)
    requires !AllErrorFree(items)
    ensures EncodeAll(items) ==
            LeadIn(items) + Encode(Error(FirstErrorIn(items))) + EncodeAll(RemainingIn(items))
    decreases items, 0
  {
    var v, others := items[0], items[1..];
    if ErrorFree(v) {
      StopsBehindFirstErrorIn(others);
      Regroup(Encode(v), LeadIn(others), Encode(Error(FirstErrorIn(others))), EncodeAll(RemainingIn(others)));
    } else {
      StopsBehindFirstError(v);
      EncodeAllConcat(Remaining(v), others);
      Regroup(EncodeAll(others), Lead(v), Encode(Error(FirstError(v))), EncodeAll(Remaining(v)));
    }
  }

  /** The texts of all errors of a tree, from left to right. */
  function Errors(v: Value): seq<seq<byte>>
    decreases v, 1
  {
    match v
    case Error(what) => [what]
    case Array(items) => ErrorsIn(items)
    case _ => []
  }

  function ErrorsIn(items: seq<Value>): seq<seq<byte>>
    decreases items, 0
  {
    if items == [] then [] else Errors(items[0]) + ErrorsIn(items[1..])
  }

  lemma {:induction false} ErrorsInConcat(a: seq<Value>, b: seq<Value>)
    ensures ErrorsIn(a + b) == ErrorsIn(a) + ErrorsIn(b)
  {
    if a == [] {
      assert a + b == b;
    } else {
      assert (a + b)[1..] == a[1..] + b;
      ErrorsInConcat(a[1..], b);
    }
  }

  /** The error the decoder stops at is the leftmost one, and all others are still in the buffer. */
  lemma {:induction false} ErrorsConserved(v: Value)
    ensures Errors(v) == (if ErrorFree(v) then [] else [FirstError(v)]) + ErrorsIn(Remaining(v))
    ensures ErrorFree(v) <==> Errors(v) == []
    decreases v, 1
  {
    match v
    case Array(items) => ErrorsConservedIn(items);
    case _ =>
  }

  lemma {:induction false} ErrorsConservedIn(items: seq<Value>)
    ensures ErrorsIn(items) ==
            (if AllErrorFree(items) then [] else [FirstErrorIn(items)]) + ErrorsIn(RemainingIn(items))
    ensures AllErrorFree(items) <==> ErrorsIn(items) == []
    decreases items, 0
  {
    if items != [] {
      ErrorsConserved(items[0]);
      if ErrorFree(items[0]) {
        ErrorsConservedIn(items[1..]);
      } else {
        ErrorsInConcat(Remaining(items[0]), items[1..]);
      }
    }
  }

  // ---- Progress ----

  /** A lower bound on the bytes of anything that decodes to `v`. */
  function Footprint(v: Value): (n: nat)
    ensures n >= Nodes(v)
    decreases v, 1
  {
    match v
    case Nil => 1
    case Simple(text) => |text| + 3
    case Error(what) => |what| + 3
    case Integer(_) => 3
    case Bulk(bytes) => |bytes| + 5
    case Array(items) => 3 + FootprintIn(items)
  }

  function FootprintIn(items: seq<Value>): (n: nat)
    ensures n >= NodesIn(items)
    decreases items, 0
  {
    if items == [] then 0 else Footprint(items[0]) + FootprintIn(items[1..])
  }

  lemma {:induction false} FootprintInConcat(a: seq<Value>, b: seq<Value>)
    ensures FootprintIn(a + b) == FootprintIn(a) + FootprintIn(b)
  {
    if a == [] {
      assert a + b == b;
    } else {
      assert (a + b)[1..] == a[1..] + b;
      FootprintInConcat(a[1..], b);
    }
  }

  lemma FootprintAppend(items: seq<Value>, v: Value)
    ensures FootprintIn(items + [v]) == FootprintIn(items) + Footprint(v)
  {
    FootprintInConcat(items, [v]);
    assert FootprintIn([v]) == Footprint(v);
  }

  predicate IsSuffix(r: seq<byte>, s: seq<byte>) {
    |r| <= |s| && r == s[|s| - |r|..]
  }

  lemma SuffixTransitive(a: seq<byte>, b: seq<byte>, c: seq<byte>)
    requires IsSuffix(a, b) && IsSuffix(b, c)
    ensures IsSuffix(a, c)
  {
    assert a == c[|c| - |b|..][|b| - |a|..];
  }

  lemma AfterLineIsSuffix(s: seq<byte>)
    requires HasLine(s)
    ensures IsSuffix(AfterLine(s), s)
    ensures |AfterLine(s)| == |s| - |Line(s)| - 2
  {
  }

  lemma BulkProgress(s: seq<byte>)
    requires ParseBulkString(s).Parsed?
    ensures IsSuffix(ParseBulkString(s).rest, s)
    ensures Footprint(ParseBulkString(s).value) <= 1 + |s| - |ParseBulkString(s).rest|
  {
    if LineEnd(s) < |s| {
      var body := AfterLine(s);
      AfterLineIsSuffix(s);
      if Stol(Line(s)).Number? && Stol(Line(s)).n >= 0 {
        var n := Stol(Line(s)).n;
        assert Line(s) != [];
        assert IsSuffix(body[n + 2..], body);
        SuffixTransitive(body[n + 2..], body, s);
      }
    }
  }

  lemma LineProgress(s: seq<byte>)
    requires s != [] && (s[0] == PLUS || s[0] == MINUS || s[0] == COLON)
    requires Parse(s).Parsed?
    ensures IsSuffix(Parse(s).rest, s[1..])
    ensures Footprint(Parse(s).value) <= |s| - |Parse(s).rest|
  {
    if HasLine(s[1..]) {
      AfterLineIsSuffix(s[1..]);
    }
  }

  /**
   Every call that returns has consumed a prefix of what it was given, at least one byte unless
   nothing was left, and at least as many bytes as the tree it built has nodes and payload.
   */
  lemma {:induction false} ParseProgress(s: seq<byte>)
    requires Parse(s).Parsed? && s != []
    ensures |Parse(s).rest| < |s| && IsSuffix(Parse(s).rest, s)
    ensures Nodes(Parse(s).value) <= Footprint(Parse(s).value) <= |s| - |Parse(s).rest|
    decreases |s|, 0
  {
    var r := s[1..];
    assert IsSuffix(r, s);
    if s[0] == DOLLAR {
      BulkProgress(r);
    } else if s[0] == PLUS || s[0] == MINUS || s[0] == COLON {
      LineProgress(s);
    } else if s[0] == STAR {
      ArrayProgress(r);
    }
    SuffixTransitive(Parse(s).rest, r, s);
  }

  lemma {:induction false} ArrayProgress(s: seq<byte>)
    requires ParseArray(s).Parsed?
    ensures IsSuffix(ParseArray(s).rest, s)
    ensures Footprint(ParseArray(s).value) <= 1 + |s| - |ParseArray(s).rest|
    decreases |s|, 0
  {
    if LineEnd(s) < |s| {
      AfterLineIsSuffix(s);
      ItemsProgress(Stol(Line(s)).n, AfterLine(s), []);
      SuffixTransitive(ParseArray(s).rest, AfterLine(s), s);
    }
  }

  lemma {:induction false} ItemsProgress(n: int, s: seq<byte>, items: seq<Value>)
    requires ParseItems(n, s, items).Parsed?
    ensures var o := ParseItems(n, s, items);
            IsSuffix(o.rest, s) &&
            (o.value == Nil || (o.value.Array? && FootprintIn(o.value.items) <= FootprintIn(items) + |s| - |o.rest|))
    decreases |s|, 1
  {
    if n > 0 && s != [] {
      var o := Parse(s);
      ParseProgress(s);
      ParseItemsStep(n, s, items, o);
      if o.error == NoError {
        FootprintAppend(items, o.value);
        LaterItemsProgress(n - 1, s, o.rest, items + [o.value]);
      }
    }
  }

  lemma {:induction false} LaterItemsProgress(n: int, s: seq<byte>, rest: seq<byte>, items: seq<Value>)
    requires |rest| < |s| && IsSuffix(rest, s) && ParseItems(n, rest, items).Parsed?
    ensures var o := ParseItems(n, rest, items);
            IsSuffix(o.rest, s) && |o.rest| <= |rest| &&
            (o.value == Nil || (o.value.Array? && FootprintIn(o.value.items) <= FootprintIn(items) + |rest| - |o.rest|))
    decreases |s|, 0
  {
    ItemsProgress(n, rest, items);
    SuffixTransitive(ParseItems(n, rest, items).rest, rest, s);
  }

  // ---- Locality ----

  /** `s` begins with a whole message: the decoder finds its end without meeting the end of `s`. */
  predicate Complete(s: seq<byte>)
    decreases |s|, 0
  {
    s != [] &&
    var r := s[1..];
    if s[0] == PLUS || s[0] == MINUS || s[0] == COLON then r != [] && HasLine(r)
    else if s[0] == DOLLAR then
      LineEnd(r) < |r| && HasLine(r) &&
      (Stol(Line(r)).Number? ==> Stol(Line(r)).n + 2 <= |AfterLine(r)| || Stol(Line(r)).n < 0)
    else if s[0] == STAR then
      LineEnd(r) < |r| && HasLine(r) &&
      (Stol(Line(r)).Number? ==> CompleteItems(Stol(Line(r)).n, AfterLine(r)))
    else false
  }

  predicate CompleteItems(n: int, s: seq<byte>)
    decreases |s|, 1
  {
    n <= 0 ||
    (s != [] && Complete(s) &&
     (Parse(s).Parsed? && Parse(s).error == NoError ==> CompleteItems(n - 1, Parse(s).rest)))
  }

  /** The same outcome with `t` behind the unread bytes. */
  function Extended(o: Outcome, t: seq<byte>): Outcome {
    if o.Parsed? then o.(rest := o.rest + t) else o
  }

  lemma LineExtended(s: seq<byte>, t: seq<byte>)
    requires LineEnd(s) < |s|
    ensures LineEnd(s + t) == LineEnd(s) && Line(s + t) == Line(s)
    ensures HasLine(s) ==> HasLine(s + t) && AfterLine(s + t) == AfterLine(s) + t
  {
    var k := LineEnd(s);
    assert s == s[..k] + s[k..];
    assert CR !in s[..k];
    assert s + t == s[..k] + (s[k..] + t);
    LineEndAfter(s[..k], s[k..] + t);
    if HasLine(s) {
      DropConcat(s, t, k + 2);
    }
  }

  lemma BulkIsLocal(s: seq<byte>, t: seq<byte>)
    requires LineEnd(s) < |s| && HasLine(s)
    requires Stol(Line(s)).Number? ==> Stol(Line(s)).n + 2 <= |AfterLine(s)| || Stol(Line(s)).n < 0
    ensures ParseBulkString(s) != Overran && ParseBulkString(s + t) == Extended(ParseBulkString(s), t)
  {
    LineExtended(s, t);
    if Stol(Line(s)).Number? && Stol(Line(s)).n >= 0 {
      var n, body := Stol(Line(s)).n, AfterLine(s);
      assert (body + t)[..n] == body[..n];
      DropConcat(body, t, n + 2);
    }
  }

  lemma {:induction false} CompleteIsLocal(s: seq<byte>, t: seq<byte>)
    requires Complete(s)
    ensures Complete(s + t)
    ensures Parse(s) != Overran && Parse(s + t) == Extended(Parse(s), t)
    decreases |s|, 0
  {
    var r := s[1..];
    assert (s + t)[1..] == r + t;
    LineExtended(r, t);
    if s[0] == DOLLAR {
      BulkIsLocal(r, t);
    } else if s[0] == STAR {
      ArrayIsLocal(r, t);
    }
  }

  lemma {:induction false} ArrayIsLocal(s: seq<byte>, t: seq<byte>)
    requires LineEnd(s) < |s| && HasLine(s)
    requires Stol(Line(s)).Number? ==> CompleteItems(Stol(Line(s)).n, AfterLine(s))
    ensures HasLine(s + t) && Line(s + t) == Line(s)
    ensures Stol(Line(s)).Number? ==> CompleteItems(Stol(Line(s)).n, AfterLine(s + t))
    ensures ParseArray(s) != Overran && ParseArray(s + t) == Extended(ParseArray(s), t)
    decreases |s|, 0
  {
    LineExtended(s, t);
    if Stol(Line(s)).Number? {
      CompleteItemsAreLocal(Stol(Line(s)).n, AfterLine(s), [], t);
    }
  }

  lemma {:induction false} CompleteItemsAreLocal(n: int, s: seq<byte>, items: seq<Value>, t: seq<byte>)
    requires CompleteItems(n, s)
    ensures CompleteItems(n, s + t)
    ensures ParseItems(n, s, items) != Overran
    ensures ParseItems(n, s + t, items) == Extended(ParseItems(n, s, items), t)
    decreases |s|, 1
  {
    if n > 0 {
      CompleteIsLocal(s, t);
      var o := Parse(s);
      if o.Parsed? && o.error == NoError {
        CompleteItemsAreLocal(n - 1, o.rest, items + [o.value], t);
      }
    }
  }

  /** An end-of-buffer error always leaves the iterator at the end. */
  lemma {:induction false} EofIsAtEnd(s: seq<byte>)
    requires Parse(s).Parsed? && Parse(s).error == Eof
    ensures Parse(s).rest == []
    decreases |s|, 0
  {
    if s != [] && s[0] == STAR {
      var r := s[1..];
      if LineEnd(r) < |r| && Stol(Line(r)).Number? {
        EofInItemsIsAtEnd(Stol(Line(r)).n, AfterLine(r), []);
      }
    }
  }

  lemma {:induction false} EofInItemsIsAtEnd(n: int, s: seq<byte>, items: seq<Value>)
    requires ParseItems(n, s, items).Parsed? && ParseItems(n, s, items).error == Eof
    ensures ParseItems(n, s, items).rest == []
    decreases |s|, 1
  {
    if s != [] {
      if Parse(s).error == NoError {
        EofInItemsIsAtEnd(n - 1, Parse(s).rest, items + [Parse(s).value]);
      } else {
        EofIsAtEnd(s);
      }
    }
  }

  /**
   A call that returns without having seen a whole message has gone to the end of the buffer,
   and unless it says so by an error it would swallow any further bytes too.
   */
  lemma {:induction false} IncompleteTakesAll(s: seq<byte>, t: seq<byte>)
    requires !Complete(s) && Parse(s).Parsed?
    ensures Parse(s).rest == []
    ensures Parse(s).error != Eof && Parse(s + t).Parsed? ==> Parse(s + t).rest == []
    decreases |s|, 0
  {
    if s != [] {
      var r := s[1..];
      assert (s + t)[1..] == r + t;
      if s[0] == STAR && LineEnd(r) < |r| {
        LineExtended(r, t);
        IncompleteItemsTakeAll(Stol(Line(r)).n, AfterLine(r), [], t);
      }
    }
  }

  lemma {:induction false} IncompleteItemsTakeAll(n: int, s: seq<byte>, items: seq<Value>, t: seq<byte>)
    requires !CompleteItems(n, s) && ParseItems(n, s, items).Parsed?
    ensures ParseItems(n, s, items).rest == []
    ensures ParseItems(n, s, items).error != Eof && ParseItems(n, s + t, items).Parsed? ==>
            ParseItems(n, s + t, items).rest == []
    decreases |s|, 1
  {
    if s != [] {
      var o := Parse(s);
      if Complete(s) {
        CompleteIsLocal(s, t);
        IncompleteItemsTakeAll(n - 1, o.rest, items + [o.value], t);
      } else {
        IncompleteTakesAll(s, t);
        if o.error == NoError {
          assert n == 1 || ParseItems(n, s, items).error == Eof;
        }
      }
    }
  }

  /** A line and the two bytes behind it are found in whatever part of the bytes holds them. */
  lemma LineShortened(c: seq<byte>, r: seq<byte>)
    requires LineEnd(c + r) + 2 <= |c|
    ensures LineEnd(c) == LineEnd(c + r) && Line(c) == Line(c + r)
    ensures HasLine(c) && HasLine(c + r) && AfterLine(c + r) == AfterLine(c) + r
  {
    var k := LineEnd(c + r);
    assert forall i :: 0 <= i <= k ==> (c + r)[i] == c[i];
    LineEndIs(c, k);
    DropConcat(c, r, k + 2);
  }

  lemma LineConsumed(s: seq<byte>, c: seq<byte>, r: seq<byte>)
    requires s == c + r && c != [] && (s[0] == PLUS || s[0] == MINUS || s[0] == COLON) && Complete(s)
    requires Parse(s).Parsed? && Parse(s).rest == r
    ensures Complete(c) && Parse(c) == Parse(s).(rest := [])
  {
    var c1 := c[1..];
    assert s[1..] == c1 + r;
    LineShortened(c1, r);
    assert |AfterLine(c1)| == 0;
  }

  lemma BulkConsumed(c: seq<byte>, r: seq<byte>)
    requires ParseBulkString(c + r).Parsed? && ParseBulkString(c + r).rest == r && LineEnd(c + r) < |c + r|
    ensures HasLine(c) && LineEnd(c) < |c| && Line(c) == Line(c + r)
    ensures Stol(Line(c)).Number? ==> Stol(Line(c)).n + 2 <= |AfterLine(c)| || Stol(Line(c)).n < 0
    ensures ParseBulkString(c) == ParseBulkString(c + r).(rest := [])
  {
    LineShortened(c, r);
    if Stol(Line(c)).Number? && Stol(Line(c)).n >= 0 {
      var n, body := Stol(Line(c)).n, AfterLine(c);
      assert |body| == n + 2 && (body + r)[..n] == body[..n];
    } else {
      assert |AfterLine(c)| == 0;
    }
  }

  /** The consumed part of a whole message, taken by itself, is a whole message with that result. */
  lemma {:induction false} ConsumedIsComplete(s: seq<byte>, c: seq<byte>, r: seq<byte>)
    requires s == c + r && Complete(s)
    requires Parse(s).Parsed? && Parse(s).rest == r
    ensures Complete(c) && Parse(c) == Parse(s).(rest := [])
    decreases |c|, 0
  {
    ParseProgress(s);
    if s[0] == STAR {
      ArrayConsumed(s, c, r);
    } else if s[0] == DOLLAR {
      assert s[1..] == c[1..] + r;
      BulkConsumed(c[1..], r);
    } else {
      LineConsumed(s, c, r);
    }
  }

  lemma {:induction false} ArrayConsumed(s: seq<byte>, c: seq<byte>, r: seq<byte>)
    requires s == c + r && c != [] && s[0] == STAR && Complete(s)
    requires Parse(s).Parsed? && Parse(s).rest == r
    ensures Complete(c) && Parse(c) == Parse(s).(rest := [])
    decreases |c| - 1, 4
  {
    var c1 := c[1..];
    assert s[1..] == c1 + r;
    var n, body := Stol(Line(s[1..])).n, AfterLine(s[1..]);
    ItemsProgress(n, body, []);
    LineShortened(c1, r);
    ItemsConsumed(n, body, AfterLine(c1), r, []);
  }

  lemma CutBefore(c: seq<byte>, r: seq<byte>, r0: seq<byte>)
    requires IsSuffix(r0, c + r) && IsSuffix(r, r0)
    ensures var k := |c + r| - |r0|;
            k <= |c| && c == c[..k] + c[k..] && r0 == c[k..] + r && c + r == c[..k] + r0
  {
    DropConcat(c, r, |c + r| - |r0|);
  }

  /** The first element lies in a front part of `c`; the others begin with the rest `c1` of it. */
  lemma {:induction false} ElementConsumed(n: int, s: seq<byte>, c: seq<byte>, r: seq<byte>, items: seq<Value>)
    returns (c1: seq<byte>)
    requires n > 0 && s == c + r && s != [] && Complete(s) && Parse(s).Parsed? && Parse(s).error == NoError
    requires var o := ParseItems(n - 1, Parse(s).rest, items); o.Parsed? && o.rest == r
    ensures |c1| < |c| && Parse(s).rest == c1 + r
    ensures Complete(c) && Parse(c) == Parse(s).(rest := c1)
    decreases |c|, 1
  {
    var o := Parse(s);
    ParseProgress(s);
    ItemsProgress(n - 1, o.rest, items);
    CutBefore(c, r, o.rest);
    var c0 := c[..|s| - |o.rest|];
    c1 := c[|s| - |o.rest|..];
    ConsumedIsComplete(s, c0, o.rest);
    CompleteIsLocal(c0, c1);
    assert [] + c1 == c1;
  }

  lemma {:induction false} ItemsConsumed(n: int, s: seq<byte>, c: seq<byte>, r: seq<byte>, items: seq<Value>)
    requires s == c + r && CompleteItems(n, s)
    requires ParseItems(n, s, items).Parsed? && ParseItems(n, s, items).rest == r
    ensures CompleteItems(n, c) && ParseItems(n, c, items) == ParseItems(n, s, items).(rest := [])
    decreases |c|, 3
  {
    if n <= 0 {
      assert |s| == |r|;
      assert c == [];
    } else {
      var o := Parse(s);
      ParseProgress(s);
      ParseItemsStep(n, s, items, o);
      if o.error != NoError {
        ConsumedIsComplete(s, c, r);
        ParseItemsStep(n, c, items, Parse(c));
      } else {
        LaterItemsConsumed(n, s, c, r, items, o, items + [o.value]);
      }
    }
  }

  lemma {:induction false} LaterItemsConsumed(
      n: int, s: seq<byte>, c: seq<byte>, r: seq<byte>, items: seq<Value>, o: Outcome, next: seq<Value>)
    requires n > 0 && s == c + r && s != [] && Complete(s)
    requires o == Parse(s) && o.Parsed? && o.error == NoError && next == items + [o.value]
    requires CompleteItems(n - 1, o.rest)
    requires ParseItems(n - 1, o.rest, next).Parsed? && ParseItems(n - 1, o.rest, next).rest == r
    ensures CompleteItems(n, c) && ParseItems(n, c, items) == ParseItems(n - 1, o.rest, next).(rest := [])
    decreases |c|, 2
  {
    var c1 := ElementConsumed(n, s, c, r, next);
    ItemsConsumed(n - 1, o.rest, c1, r, next);
    ItemsJoin(n, c, items, o.(rest := c1), next);
  }

  lemma ItemsJoin(n: int, c: seq<byte>, items: seq<Value>, first: Outcome, next: seq<Value>)
    requires n > 0 && c != [] && Complete(c)
    requires first == Parse(c) && first.Parsed? && first.error == NoError && next == items + [first.value]
    requires CompleteItems(n - 1, first.rest)
    ensures CompleteItems(n, c) && ParseItems(n, c, items) == ParseItems(n - 1, first.rest, next)
  {
    ParseItemsStep(n, c, items, first);
  }

  /** The bytes in front of those a call left unread. */
  function Consumed(s: seq<byte>): seq<byte>
    requires Parse(s).Parsed?
  {
    s[..|s| - |Parse(s).rest|]
  }

  lemma ConsumedAndRest(s: seq<byte>)
    requires Parse(s).Parsed?
    ensures s == Consumed(s) + Parse(s).rest
  {
    if s != [] {
      ParseProgress(s);
    }
  }

  /**
   Locality, exactly: what a call returned depends only on the bytes it consumed if and only if
   they are a whole message. Then any bytes may take the place of the unread ones, or none, at
   any nesting depth.
   */
  lemma {:induction false} Locality(s: seq<byte>)
    requires Parse(s).Parsed?
    ensures Complete(s) <==> forall t :: Parse(Consumed(s) + t) == Parse(s).(rest := t)
    ensures Complete(s) <==> Complete(Consumed(s))
  {
    var c, r := Consumed(s), Parse(s).rest;
    ConsumedAndRest(s);
    if Complete(s) {
      ConsumedIsComplete(s, c, r);
      forall t ensures Parse(c + t) == Parse(s).(rest := t) {
        CompleteIsLocal(c, t);
        assert [] + t == t;
      }
    } else {
      var t := [LF];
      IncompleteTakesAll(s, t);
      assert c == s;
      if Parse(s + t) == Parse(s).(rest := t) && Parse(s).error == Eof {
        EofIsAtEnd(s + t);
      }
      assert Parse(c + t) != Parse(s).(rest := t);
    }
  }

  lemma EncodedIsLocal(v: Value, t: seq<byte>)
    requires Encodable(v)
    ensures Parse(Encode(v)).Parsed? && Parse(Encode(v) + t) == Extended(Parse(Encode(v)), t)
  {
    var left := EncodeAll(Remaining(v));
    assert Encode(v) + [] == Encode(v) && left + [] == left;
    ParseEncoded(v, []);
    ParseEncoded(v, t);
  }

  /** Complete encodings are well framed: decoding one never leaves the buffer, whatever follows. */
  lemma {:induction false} EncodedIsComplete(v: Value)
    requires Encodable(v)
    ensures Complete(Encode(v))
  {
    var s := Encode(v);
    var o := Parse(s);
    EncodedIsLocal(v, []);
    if !Complete(s) {
      IncompleteTakesAll(s, [LF]);
      EncodedIsLocal(v, [LF]);
      if o.error == Eof {
        EofIsAtEnd(s + [LF]);
      }
    }
  }

  lemma CompleteLacksUnread(p: seq<byte>, q: seq<byte>)
    requires Complete(p) && Parse(p + q).Parsed?
    ensures |q| <= |Parse(p + q).rest|
  {
    CompleteIsLocal(p, q);
  }

  lemma UnreadMayLack(c: seq<byte>, r: seq<byte>, p: seq<byte>, q: seq<byte>)
    requires Complete(c) && c + r == p + q && |q| <= |r|
    ensures Complete(p)
  {
    assert (c + r)[..|p|] == p && (c + r)[..|c|] == c;
    assert p == c + p[|c|..];
    CompleteIsLocal(c, p[|c|..]);
  }

  /**
   Truncation, exactly: a first part of an encoding is a whole message if and only if it lacks no
   more than the siblings the decoder leaves unread. So of an error-free tree only the full
   encoding is one, and a reply cut short is never taken for a whole one.
   */
  lemma {:induction false} CompletePrefixes(v: Value, p: seq<byte>, q: seq<byte>)
    requires Encodable(v) && Encode(v) == p + q
    ensures Complete(p) <==> |q| <= |EncodeAll(Remaining(v))|
    ensures ErrorFree(v) ==> (Complete(p) <==> q == [])
  {
    var s := Encode(v);
    EncodedIsRead(v);
    if Complete(p) {
      CompleteLacksUnread(p, q);
    }
    if |q| <= |Parse(s).rest| {
      EncodedIsComplete(v);
      Locality(s);
      ConsumedAndRest(s);
      UnreadMayLack(Consumed(s), Parse(s).rest, p, q);
    }
  }

  lemma EncodedIsRead(v: Value)
    requires Encodable(v)
    ensures Parse(Encode(v)).Parsed? && Parse(Encode(v)).rest == EncodeAll(Remaining(v))
    ensures ErrorFree(v) ==> EncodeAll(Remaining(v)) == []
  {
    ParseEncoded(v, []);
    assert Encode(v) + [] == Encode(v) && EncodeAll(Remaining(v)) + [] == EncodeAll(Remaining(v));
  }
}
