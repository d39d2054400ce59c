/**
 redis/reply.cpp: what the decoder answers to every layout of bytes, written out apart from its
 code, and what it answers when a message does not end inside the buffer.
 */
module Layouts {
  import opened Sequences
  import opened Bytes
  import opened Decimal
  import opened Values
  import opened Resp
  import opened Reply
  import opened ReplyLaws
  import opened Client

  // ---- A header line ----

  /** A line, a CR and one more byte, whatever it is, in front of `rest`. */
  function Headed(kind: char, line: seq<byte>, skipped: byte, rest: seq<byte>): seq<byte>
    requires kind < 128 as char
  {
    [kind as int] + line + [13, skipped] + rest
  }

  lemma HeaderFound(kind: char, line: seq<byte>, skipped: byte, rest: seq<byte>)
    requires kind < 128 as char && 13 !in line
    ensures var s := Headed(kind, line, skipped, rest);
            s != [] && s[0] == kind as int && s[1..] != [] && HasLine(s[1..]) && LineEnd(s[1..]) < |s[1..]| &&
            Line(s[1..]) == line && AfterLine(s[1..]) == rest
  {
    var s := Headed(kind, line, skipped, rest);
    assert s[1..] == line + ([13, skipped] + rest);
    LineEndAfter(line, [13, skipped] + rest);
    assert s[1..][|line| + 2..] == rest;
  }

  /** Simple strings, errors and integers: one line, and the byte behind its CR is skipped unread. */
  lemma LinesAnswered(line: seq<byte>, skipped: byte, rest: seq<byte>)
    requires 13 !in line
    ensures Parse(Headed('+', line, skipped, rest)) == Parsed(Simple(line), NoError, rest)
    ensures Parse(Headed('-', line, skipped, rest)) == Parsed(Error(line), ServerError, rest)
    ensures Parse(Headed(':', line, skipped, rest)) ==
            if Stol(line).Number? then Parsed(Integer(Stol(line).n), NoError, rest) else Parsed(Nil, OutOfRange, rest)
  {
    HeaderFound('+', line, skipped, rest);
    HeaderFound('-', line, skipped, rest);
    HeaderFound(':', line, skipped, rest);
  }

  /** Bulk strings: `n` bytes of any kind and two more, which are skipped unread. */
  lemma BulksAnswered(line: seq<byte>, skipped: byte, rest: seq<byte>)
    requires 13 !in line
    ensures !Stol(line).Number? ==> Parse(Headed('$', line, skipped, rest)) == Parsed(Nil, MalformedMessage, rest)
    ensures Stol(line) == Number(-1) ==> Parse(Headed('$', line, skipped, rest)) == Parsed(Nil, NoError, rest)
    ensures Stol(line).Number? && Stol(line).n < -1 ==>
              Parse(Headed('$', line, skipped, rest)) == Threw(LengthError)
    ensures Stol(line).Number? && Stol(line).n >= 0 && Stol(line).n + 2 > |rest| ==>
              Parse(Headed('$', line, skipped, rest)) == Overran
  {
    HeaderFound('$', line, skipped, rest);
  }

  lemma BulkBodyAnswered(line: seq<byte>, skipped: byte, body: seq<byte>, x: byte, y: byte, rest: seq<byte>)
    requires 13 !in line && Stol(line) == Number(|body|)
    ensures Parse(Headed('$', line, skipped, body + [x, y] + rest)) == Parsed(Bulk(body), NoError, rest)
  {
    var s := body + [x, y] + rest;
    HeaderFound('$', line, skipped, s);
    assert s[..|body|] == body && s[|body| + 2..] == rest;
  }

  // ---- Arrays ----

  lemma ArraysAnswered(line: seq<byte>, skipped: byte, rest: seq<byte>)
    requires 13 !in line
    ensures Stol(line).Number? ==>
              Parse(Headed('*', line, skipped, rest)) == ParseItems(Stol(line).n, rest, [])
    ensures Stol(line).Number? && Stol(line).n <= 0 ==>
              Parse(Headed('*', line, skipped, rest)) == Parsed(Array([]), NoError, rest)
    ensures Stol(line) == InvalidArgument ==> Parse(Headed('*', line, skipped, rest)) == Threw(HeaderInvalid)
    ensures Stol(line) == RangeError ==> Parse(Headed('*', line, skipped, rest)) == Threw(HeaderOutOfRange)
  {
    HeaderFound('*', line, skipped, rest);
    assert Parse(Headed('*', line, skipped, rest)) == ParseArray(Headed('*', line, skipped, rest)[1..]);
  }

  lemma ErrorFreeItemRead(n: nat, v: Value, rest: seq<byte>, before: seq<Value>)
    requires n > 0 && Encodable(v) && ErrorFree(v)
    ensures ParseItems(n, Encode(v) + rest, before) == ParseItems(n - 1, rest, before + [v])
  {
    ParseEncoded(v, rest);
    ParseItemEncoded(n, v, rest, before);
  }

  /** Any number of error-free elements at the front of the element loop. */
  lemma {:induction false} ItemsRead(n: nat, items: seq<Value>, t: seq<byte>, before: seq<Value>)
    requires |items| <= n && AllEncodable(items) && AllErrorFree(items)
    ensures ParseItems(n, EncodeAll(items) + t, before) == ParseItems(n - |items|, t, before + items)
    decreases items
  {
    if items == [] {
      assert EncodeAll(items) + t == t && before + items == before;
    } else {
      var v, others := items[0], items[1..];
      var rest := EncodeAll(others) + t;
      Associate(Encode(v), EncodeAll(others), t);
      assert EncodeAll(items) + t == Encode(v) + rest;
      ErrorFreeItemRead(n, v, rest, before);
      ItemsRead(n - 1, others, t, before + [v]);
      TakeOne(before, items);
    }
  }

  lemma LastItem(t: seq<byte>, before: seq<Value>)
    requires t != [] && Parse(t).Parsed? && Parse(t).error == NoError
    ensures ParseItems(1, t, before) == Parsed(Array(before + [Parse(t).value]), NoError, Parse(t).rest)
  {
    ParseItemsStep(1, t, before, Parse(t));
  }

  lemma ItemThenEnd(n: nat, t: seq<byte>, before: seq<Value>)
    requires n > 1 && t != [] && Parse(t).Parsed? && Parse(t).error == NoError && Parse(t).rest == []
    ensures ParseItems(n, t, before) == Parsed(Nil, Eof, [])
  {
    ParseItemsStep(n, t, before, Parse(t));
  }

  /**
   An array of `n` announced elements, of which some are error-free and in front of any bytes `t`:
   the end of the buffer, an exception and an error of any code at `t` end the array with it, and
   the last element completes it.
   */
  lemma {:induction false} ElementsAnswered(
    line: seq<byte>, skipped: byte, n: nat, items: seq<Value>, t: seq<byte>)
    requires 13 !in line && Stol(line) == Number(n)
    requires |items| < n && AllEncodable(items) && AllErrorFree(items)
    ensures var o, whole := Parse(t), Parse(Headed('*', line, skipped, EncodeAll(items) + t));
            && (t == [] ==> whole == Parsed(Nil, Eof, []))
            && (!o.Parsed? ==> whole == o)
            && (t != [] && o.Parsed? && o.error != NoError ==> whole == Parsed(Nil, o.error, o.rest))
            && (t != [] && o.Parsed? && o.error == NoError && n == |items| + 1 ==>
                  whole == Parsed(Array(items + [o.value]), NoError, o.rest))
            && (t != [] && o.Parsed? && o.error == NoError && n > |items| + 1 && o.rest == [] ==>
                  whole == Parsed(Nil, Eof, []))
  {
    ArraysAnswered(line, skipped, EncodeAll(items) + t);
    ItemsRead(n, items, t, []);
    assert [] + items == items;
    var left := n - |items|;
    if t != [] {
      ParseItemsStep(left, t, items, Parse(t));
      if Parse(t).Parsed? && Parse(t).error == NoError {
        if left == 1 {
          LastItem(t, items);
        } else if Parse(t).rest == [] {
          ItemThenEnd(left, t, items);
        }
      }
    }
  }

  // ---- Cut lines and unknown type bytes ----

  /** A line without a CR, or with a CR that is the last byte. */
  lemma CutLinesAnswered(line: seq<byte>)
    requires 13 !in line
    ensures Parse(['+' as int] + line) == if line == [] then Parsed(Nil, Eof, []) else Overran
    ensures Parse(['-' as int] + line) == Parsed(Nil, Eof, [])
    ensures Parse([':' as int] + line) == Parsed(Nil, Eof, [])
    ensures Parse(['$' as int] + line) == Parsed(Nil, Eof, [])
    ensures Parse(['*' as int] + line) == Parsed(Nil, Eof, [])
  {
    forall kind: byte ensures ([kind] + line)[1..] == line {
    }
    LineEndIs(line, |line|);
  }

  lemma CutBehindCr(kind: char, line: seq<byte>)
    requires kind in "+-:$*" && 13 !in line
    ensures Parse([kind as int] + line + [13]) == Overran
  {
    var s := [kind as int] + line + [13];
    assert s[1..] == line + [13];
    LineEndAfter(line, [13]);
  }

  /** A first byte that announces none of the five types of reply. */
  predicate UnknownType(s: seq<byte>) {
    s != [] && forall c :: c in "+-:$*" ==> s[0] != c as int
  }

  lemma UnknownTypeByte(s: seq<byte>)
    requires UnknownType(s)
    ensures s[0] != PLUS && s[0] != MINUS && s[0] != COLON && s[0] != DOLLAR && s[0] != STAR
  {
    assert '+' in "+-:$*" && '-' in "+-:$*" && ':' in "+-:$*" && '$' in "+-:$*" && '*' in "+-:$*";
  }

  /** Bytes behind an unknown type byte are all taken, and answered with nil and no error. */
  lemma UnknownAnswered(s: seq<byte>)
    requires UnknownType(s)
    ensures Parse(s) == Parsed(Nil, NoError, [])
    ensures DecodeAll(s) == Replies([ReplyData(Nil, NoError)])
  {
    UnknownTypeByte(s);
    OneReply(s, ReplyData(Nil, NoError));
  }

  lemma OneReply(s: seq<byte>, reply: ReplyData)
    requires s != [] && Parse(s) == Parsed(reply.value, reply.error, [])
    ensures DecodeAll(s) == Replies([reply])
  {
    var none: seq<byte> := [];
    assert DecodeAll(none) == Replies([]) && [reply] + [] == [reply];
  }

  /** In an array it counts as a nil element when it is the last one, and else the array ends there. */
  lemma UnknownInArray(line: seq<byte>, skipped: byte, n: nat, items: seq<Value>, t: seq<byte>)
    requires 13 !in line && Stol(line) == Number(n)
    requires |items| < n && AllEncodable(items) && AllErrorFree(items) && UnknownType(t)
    ensures DecodeAll(Headed('*', line, skipped, EncodeAll(items) + t)) ==
            Replies([if n == |items| + 1 then ReplyData(Array(items + [Nil]), NoError) else ReplyData(Nil, Eof)])
  {
    UnknownAnswered(t);
    ElementsAnswered(line, skipped, n, items, t);
    OneReply(Headed('*', line, skipped, EncodeAll(items) + t),
             if n == |items| + 1 then ReplyData(Array(items + [Nil]), NoError) else ReplyData(Nil, Eof));
  }

  // ---- The layouts are all there are ----

  /** `s` is a type byte and a line, cut or whole. */
  ghost predicate HasLayout(s: seq<byte>, kind: char) {
    kind < 128 as char &&
    exists line: seq<byte> :: 13 !in line && LaidOut(s, kind, line)
  }

  ghost predicate LaidOut(s: seq<byte>, kind: char, line: seq<byte>)
    requires kind < 128 as char
  {
    s == [kind as int] + line || s == [kind as int] + line + [13] ||
    exists skipped: byte, rest: seq<byte> :: s == Headed(kind, line, skipped, rest)
  }

  lemma LayoutOf(kind: char, r: seq<byte>)
    requires kind < 128 as char
    ensures HasLayout([kind as int] + r, kind)
  {
    var s, k := [kind as int] + r, LineEnd(r);
    var line := r[..k];
    if k < |r| {
      assert r == line + [13] + r[k + 1..];
      Associate([kind as int], line, [13]);
      if k + 1 < |r| {
        WholeLine(kind, line, r, k);
      }
    }
    assert LaidOut(s, kind, line);
  }

  lemma WholeLine(kind: char, line: seq<byte>, r: seq<byte>, k: nat)
    requires kind < 128 as char && k + 1 < |r| && line == r[..k] && r[k] == 13
    ensures [kind as int] + r == Headed(kind, line, r[k + 1], r[k + 2..])
  {
    assert r == line + ([13, r[k + 1]] + r[k + 2..]);
  }

  lemma {:induction false} EveryBufferHasLayout(s: seq<byte>)
    ensures s == [] || UnknownType(s) || exists kind :: kind in "+-:$*" && HasLayout(s, kind)
  {
    if s != [] && !UnknownType(s) {
      var kind :| kind in "+-:$*" && s[0] == kind as int;
      LayoutOf(kind, s[1..]);
      assert s == [kind as int] + s[1..];
    }
  }

  // ---- The codes ----

  /** The codes the decoder gives, and what value comes with each error. */
  predicate PlainAnswer(value: Value, error: ErrorCode) {
    match error
    case NoError => !value.Error?
    case ServerError => value.Error? || value == Nil
    case Eof => value == Nil
    case OutOfRange => value == Nil
    case MalformedMessage => value == Nil
    case WriteError => false
    case ReadError => false
  }

  lemma {:induction false} ParseAnswersPlainly(s: seq<byte>)
    requires Parse(s).Parsed?
    ensures PlainAnswer(Parse(s).value, Parse(s).error)
    decreases |s|, 0
  {
    if s != [] && s[0] == STAR {
      var r := s[1..];
      if LineEnd(r) < |r| {
        ItemsAnswerPlainly(Stol(Line(r)).n, AfterLine(r), []);
      }
    }
  }

  lemma {:induction false} ItemsAnswerPlainly(n: int, s: seq<byte>, items: seq<Value>)
    requires ParseItems(n, s, items).Parsed?
    ensures PlainAnswer(ParseItems(n, s, items).value, ParseItems(n, s, items).error)
    decreases |s|, 1
  {
    if n > 0 && s != [] {
      ParseItemsStep(n, s, items, Parse(s));
      ParseAnswersPlainly(s);
      if Parse(s).error == NoError {
        ItemsAnswerPlainly(n - 1, Parse(s).rest, items + [Parse(s).value]);
      }
    }
  }

  /** Every reply of a decoded buffer. */
  lemma {:induction false} RepliesAnswerPlainly(s: seq<byte>)
    requires DecodeAll(s).Replies?
    ensures forall r :: r in DecodeAll(s).list ==> PlainAnswer(r.value, r.error)
    decreases |s|
  {
    if s != [] {
      ParseAnswersPlainly(s);
      RepliesAnswerPlainly(Parse(s).rest);
    }
  }

  // ---- Messages that do not end inside the buffer ----

  /** The last thing the buffer holds is an unknown type byte in the place of a last element. */
  predicate EndsUnknown(s: seq<byte>)
    decreases |s|, 0
  {
    UnknownType(s) ||
    (s != [] && s[0] == STAR &&
     var r := s[1..];
     LineEnd(r) < |r| && HasLine(r) && Stol(Line(r)).Number? && EndsUnknownIn(Stol(Line(r)).n, AfterLine(r)))
  }

  predicate EndsUnknownIn(n: int, s: seq<byte>)
    decreases |s|, 1
  {
    n > 0 && s != [] &&
    if Complete(s) then
      Parse(s).Parsed? && Parse(s).error == NoError && EndsUnknownIn(n - 1, Parse(s).rest)
    else n == 1 && EndsUnknown(s)
  }

  /**
   A call that returns without a whole message carries the end-of-buffer error, or no error at
   all, and it carries none if and only if it took an unknown type byte for the last element.
   */
  lemma {:induction false} IncompleteAnswers(s: seq<byte>)
    requires !Complete(s) && Parse(s).Parsed?
    ensures Parse(s).error == if EndsUnknown(s) then NoError else Eof
    decreases |s|, 0
  {
    if UnknownType(s) {
      UnknownAnswered(s);
    } else if s != [] {
      KnownType(s);
      var r := s[1..];
      if s[0] == STAR && LineEnd(r) < |r| {
        IncompleteItemsAnswer(Stol(Line(r)).n, AfterLine(r), []);
      }
    }
  }

  lemma KnownType(s: seq<byte>)
    requires s != [] && !UnknownType(s)
    ensures s[0] == PLUS || s[0] == MINUS || s[0] == COLON || s[0] == DOLLAR || s[0] == STAR
  {
    var c :| c in "+-:$*" && s[0] == c as int;
  }

  lemma {:induction false} IncompleteItemsAnswer(n: int, s: seq<byte>, items: seq<Value>)
    requires !CompleteItems(n, s) && ParseItems(n, s, items).Parsed?
    ensures ParseItems(n, s, items).error == if EndsUnknownIn(n, s) then NoError else Eof
    decreases |s|, 1
  {
    if s != [] {
      var o := Parse(s);
      ParseItemsStep(n, s, items, o);
      if Complete(s) {
        IncompleteItemsAnswer(n - 1, o.rest, items + [o.value]);
      } else {
        IncompleteAnswers(s);
        IncompleteTakesAll(s, []);
        if o.error == NoError && n > 1 {
          ItemThenEnd(n, s, items);
        }
      }
    }
  }
}
