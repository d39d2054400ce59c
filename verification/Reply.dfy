/** redis/reply.cpp: the recursive decoder of server replies. */
module Reply {
  import opened Sequences
  import opened Bytes
  import opened Decimal
  import opened Values

  /** What leaves the decoder other than by returning. */
  datatype Exception = HeaderInvalid | HeaderOutOfRange | LengthError

  /**
   The result of one decoding call on the bytes up to the end of the buffer: a value, an error
   code and the bytes not consumed; an exception; or an iterator moved past the end, for which
   the language gives no meaning.
   */
  datatype Outcome =
    | Parsed(value: Value, error: ErrorCode, rest: seq<byte>)
    | Threw(what: Exception)
    | Overran

  /** The line a parser reads ends in a CR and leaves room for the two bytes it skips. */
  predicate HasLine(s: seq<byte>) { LineEnd(s) + 2 <= |s| }

  function Line(s: seq<byte>): seq<byte> { s[..LineEnd(s)] }

  function AfterLine(s: seq<byte>): seq<byte>
    requires HasLine(s)
  {
    s[LineEnd(s) + 2..]
  }

  // ---- The decoder as a function; the methods below compute it. ----

  function Parse(s: seq<byte>): (o: Outcome)
    ensures o.Parsed? ==> |o.rest| <= |s| && (s != [] ==> |o.rest| < |s|)
    decreases |s|, 0
  {
    if s == [] then Parsed(Nil, Eof, [])
    else if s[0] == PLUS then ParseSimpleString(s[1..])
    else if s[0] == MINUS then ParseError(s[1..])
    else if s[0] == DOLLAR then ParseBulkString(s[1..])
    else if s[0] == STAR then ParseArray(s[1..])
    else if s[0] == COLON then ParseInteger(s[1..])
    else Parsed(Nil, NoError, [])
  }

  function ParseSimpleString(s: seq<byte>): (o: Outcome)
    ensures o.Parsed? ==> |o.rest| <= |s|
  {
    if s == [] then Parsed(Nil, Eof, [])
    else if !HasLine(s) then Overran
    else Parsed(Simple(Line(s)), NoError, AfterLine(s))
  }

  function ParseError(s: seq<byte>): (o: Outcome)
    ensures o.Parsed? ==> |o.rest| <= |s|
  {
    if LineEnd(s) == |s| then Parsed(Nil, Eof, [])
    else if !HasLine(s) then Overran
    else Parsed(Error(Line(s)), ServerError, AfterLine(s))
  }

  function ParseBulkString(s: seq<byte>): (o: Outcome)
    ensures o.Parsed? ==> |o.rest| <= |s|
  {
    if LineEnd(s) == |s| then Parsed(Nil, Eof, [])
    else if !HasLine(s) then Overran
    else
      var body := AfterLine(s);
      match Stol(Line(s))
      case Number(n) =>
        if n == -1 then Parsed(Nil, NoError, body)
        else if n < 0 then Threw(LengthError)
        else if n + 2 > |body| then Overran
        else Parsed(Bulk(body[..n]), NoError, body[n + 2..])
      case _ => Parsed(Nil, MalformedMessage, body)
  }

  function ParseInteger(s: seq<byte>): (o: Outcome)
    ensures o.Parsed? ==> |o.rest| <= |s|
  {
    if LineEnd(s) == |s| then Parsed(Nil, Eof, [])
    else if !HasLine(s) then Overran
    else
      match Stol(Line(s))
      case Number(n) => Parsed(Integer(n), NoError, AfterLine(s))
      case _ => Parsed(Nil, OutOfRange, AfterLine(s))
  }

  function ParseArray(s: seq<byte>): (o: Outcome)
    ensures o.Parsed? ==> |o.rest| <= |s|
    decreases |s|, 0
  {
    if LineEnd(s) == |s| then Parsed(Nil, Eof, [])
    else if !HasLine(s) then Overran
    else
      match Stol(Line(s))
      case Number(n) => ParseItems(n, AfterLine(s), [])
      case InvalidArgument => Threw(HeaderInvalid)
      case RangeError => Threw(HeaderOutOfRange)
  }

  /** The element loop of an array: `n` elements still to read, `items` already read. */
  function ParseItems(n: int, s: seq<byte>, items: seq<Value>): (o: Outcome)
    ensures o.Parsed? ==> |o.rest| <= |s|
    decreases |s|, 1
  {
    if n <= 0 then Parsed(Array(items), NoError, s)
    else if s == [] then Parsed(Nil, Eof, [])
    else
      var o := Parse(s);
      if !o.Parsed? then o
      else if o.error != NoError then Parsed(Nil, o.error, o.rest)
      else ParseItems(n - 1, o.rest, items + [o.value])
  }

  /** One turn of the element loop. */
  lemma ParseItemsStep(n: int, s: seq<byte>, items: seq<Value>, o: Outcome)
    requires n > 0 && s != [] && o == Parse(s)
    ensures ParseItems(n, s, items) ==
            if !o.Parsed? then o
            else if o.error != NoError then Parsed(Nil, o.error, o.rest)
            else ParseItems(n - 1, o.rest, items + [o.value])
  {
  }

  // ---- The decoder as the source runs it: an iterator into the buffer. ----

  /** What one parser returns: a response and an iterator, or an exception that passes through. */
  datatype Response = Response(value: Value, error: ErrorCode, it: nat) | Raised(what: Exception)

  /** The outcome `o` with its unread bytes given as a position in `buf`. */
  ghost predicate Matches(buf: seq<byte>, r: Response, o: Outcome) {
    match r
    case Response(value, error, it) =>
      it <= |buf| && o == Parsed(value, error, buf[it..])
    case Raised(what) => o == Threw(what)
  }

  /** The scanning loop every parser starts with. */
  method ReadLine(buf: seq<byte>, start: nat) returns (line: seq<byte>, it: nat)
    requires start <= |buf|
    ensures it == start + LineEnd(buf[start..])
    ensures line == Line(buf[start..])
  {
    it, line := start, [];
    while it != |buf| && buf[it] != CR
      invariant start <= it <= |buf|
      invariant line == buf[start..it]
      invariant forall k :: start <= k < it ==> buf[k] != CR
    {
      line := line + [buf[it]];
      it := it + 1;
    }
    LineEndIs(buf[start..], it - start);
    TakeOfDrop(buf, start, it);
  }

  method ParseReplyAt(buf: seq<byte>, start: nat) returns (r: Response)
    requires start <= |buf|
    requires Parse(buf[start..]) != Overran
    ensures Matches(buf, r, Parse(buf[start..]))
    decreases |buf| - start, 0
  {
    if start == |buf| {
      return Response(Nil, Eof, |buf|);
    }
    var kind := buf[start];
    var it := start + 1;
    DropOfDrop(buf, start, 1);
    if kind == PLUS {
      r := ParseSimpleStringAt(buf, it);
    } else if kind == MINUS {
      r := ParseErrorAt(buf, it);
    } else if kind == DOLLAR {
      r := ParseBulkStringAt(buf, it);
    } else if kind == STAR {
      r := ParseArrayAt(buf, it);
    } else if kind == COLON {
      r := ParseIntegerAt(buf, it);
    } else {
      r := Response(Nil, NoError, |buf|);
    }
  }

  method ParseSimpleStringAt(buf: seq<byte>, start: nat) returns (r: Response)
    requires start <= |buf|
    requires ParseSimpleString(buf[start..]) != Overran
    ensures Matches(buf, r, ParseSimpleString(buf[start..]))
  {
    if start == |buf| {
      return Response(Nil, Eof, start);
    }
    var text, it := ReadLine(buf, start);
    it := it + 2;
    r := Response(Simple(text), NoError, it);
  }

  method ParseErrorAt(buf: seq<byte>, start: nat) returns (r: Response)
    requires start <= |buf|
    requires ParseError(buf[start..]) != Overran
    ensures Matches(buf, r, ParseError(buf[start..]))
  {
    if start == |buf| {
      return Response(Nil, Eof, start);
    }
    var text, it := ReadLine(buf, start);
    if it == |buf| {
      return Response(Nil, Eof, it);
    }
    it := it + 2;
    r := Response(Error(text), ServerError, it);
  }

  method ParseBulkStringAt(buf: seq<byte>, start: nat) returns (r: Response)
    requires start <= |buf|
    requires ParseBulkString(buf[start..]) != Overran
    ensures Matches(buf, r, ParseBulkString(buf[start..]))
  {
    if start == |buf| {
      return Response(Nil, Eof, start);
    }
    var header, it := ReadLine(buf, start);
    if it == |buf| {
      return Response(Nil, Eof, it);
    }
    it := it + 2;
    DropOfDrop(buf, start, it - start);
    match Stol(header)
    case Number(size) =>
      if size == -1 {
        return Response(Nil, NoError, it);
      }
      if size < 0 {
        return Raised(LengthError);
      }
      var bytes := buf[it..it + size];
      TakeOfDrop(buf, it, it + size);
      DropOfDrop(buf, it, size + 2);
      it := it + size + 2;
      r := Response(Bulk(bytes), NoError, it);
    case _ =>
      r := Response(Nil, MalformedMessage, it);
  }

  method ParseIntegerAt(buf: seq<byte>, start: nat) returns (r: Response)
    requires start <= |buf|
    requires ParseInteger(buf[start..]) != Overran
    ensures Matches(buf, r, ParseInteger(buf[start..]))
  {
    if start == |buf| {
      return Response(Nil, Eof, start);
    }
    var message, it := ReadLine(buf, start);
    if it == |buf| {
      return Response(Nil, Eof, it);
    }
    it := it + 2;
    DropOfDrop(buf, start, it - start);
    match Stol(message)
    case Number(n) => r := Response(Integer(n), NoError, it);
    case _ => r := Response(Nil, OutOfRange, it);
  }

  method ParseArrayAt(buf: seq<byte>, start: nat) returns (r: Response)
    requires start <= |buf|
    requires ParseArray(buf[start..]) != Overran
    ensures Matches(buf, r, ParseArray(buf[start..]))
    decreases |buf| - start, 0
  {
    if start == |buf| {
      return Response(Nil, Eof, start);
    }
    var header, it := ReadLine(buf, start);
    if it == |buf| {
      return Response(Nil, Eof, it);
    }
    it := it + 2;
    DropOfDrop(buf, start, it - start);
    match Stol(header)
    case Number(size) => r := ParseItemsAt(buf, it, size);
    case InvalidArgument => r := Raised(HeaderInvalid);
    case RangeError => r := Raised(HeaderOutOfRange);
  }

  lemma ElementInside(n: int, s: seq<byte>, items: seq<Value>)
    requires n > 0 && s != [] && ParseItems(n, s, items) != Overran
    ensures Parse(s) != Overran
  {
    ParseItemsStep(n, s, items, Parse(s));
  }

  /** One turn of the element loop, with positions instead of unread bytes. */
  lemma ElementStep(buf: seq<byte>, it: nat, n: int, items: seq<Value>, element: Response)
    requires n > 0 && it < |buf| && Matches(buf, element, Parse(buf[it..]))
    ensures element.Raised? ==> ParseItems(n, buf[it..], items) == Threw(element.what)
    ensures element.Response? ==>
              it < element.it <= |buf| &&
              ParseItems(n, buf[it..], items) ==
              if element.error != NoError then Parsed(Nil, element.error, buf[element.it..])
              else ParseItems(n - 1, buf[element.it..], items + [element.value])
  {
    ParseItemsStep(n, buf[it..], items, Parse(buf[it..]));
  }

  /** The element loop of `parse_array`. */
  method ParseItemsAt(buf: seq<byte>, start: nat, size: int) returns (r: Response)
    requires start <= |buf|
    requires ParseItems(size, buf[start..], []) != Overran
    ensures Matches(buf, r, ParseItems(size, buf[start..], []))
    decreases |buf| - start, 1
  {
    ghost var expected := ParseItems(size, buf[start..], []);
    var it := start;
    var items: seq<Value> := [];
    var error := NoError;
    var i := 0;
    while i < size
      invariant i <= size || i == 0
      invariant start <= it <= |buf|
      invariant error == NoError
      invariant expected == ParseItems(size - i, buf[it..], items)
    {
      if it == |buf| {
        return Response(Nil, Eof, it);
      }
      ElementInside(size - i, buf[it..], items);
      var element := ParseReplyAt(buf, it);
      ElementStep(buf, it, size - i, items, element);
      if element.Raised? {
        return element;
      }
      error, it := element.error, element.it;
      if error != NoError {
        return Response(Nil, error, it);
      }
      items := items + [element.value];
      i := i + 1;
    }
    r := Response(Array(items), error, it);
  }

  /** The class `reply`: the value and error of the last decoding. */
  class ReplyObject {
    var value: Value
    var error: ErrorCode

    constructor ()
      ensures value == Nil && error == NoError
    {
      value, error := Nil, NoError;
    }

    constructor FromError(code: ErrorCode)
      ensures value == Nil && error == code
    {
      value, error := Nil, code;
    }

    function Data(): ReplyData
      reads this
    {
      ReplyData(value, error)
    }

    /**
     `load_data`: both fields are overwritten by what the decoder returns; an exception leaves
     the object as it was.
     */
    method LoadData(buf: seq<byte>, start: nat) returns (r: Response)
      requires start <= |buf|
      requires Parse(buf[start..]) != Overran
      modifies this
      ensures Matches(buf, r, Parse(buf[start..]))
      ensures r.Response? ==> value == r.value && error == r.error
      ensures r.Raised? ==> value == old(value) && error == old(error)
    {
      r := ParseReplyAt(buf, start);
      if r.Response? {
        value, error := r.value, r.error;
      }
    }
  }
}
