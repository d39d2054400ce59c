/**
 redis/client.cpp and redis/subscriber.cpp decode what one read brings by itself: what a cut
 between two reads does to the replies, and what that means for a subscriber's consumer.
 */
module Chunking {
  import opened Sequences
  import opened Bytes
  import opened Decimal
  import opened Values
  import opened Resp
  import opened Reply
  import opened ReplyLaws
  import opened Client
  import opened Layouts
  import opened Runs
  import opened Subscriber
  import opened SubscriberLaws
  import opened Throwing

  // ---- One cut ----

  /** `s` is nothing but whole messages, one behind the other. */
  predicate WholeMessages(s: seq<byte>)
    decreases |s|
  {
    s == [] || (Complete(s) && Parse(s).Parsed? && WholeMessages(Parse(s).rest))
  }

  /** The replies a buffer yields to the end, or none when the loop over it fails. */
  function RepliesIn(s: seq<byte>): seq<ReplyData> {
    if DecodeAll(s).Replies? then DecodeAll(s).list else []
  }

  lemma RepliesInStep(s: seq<byte>)
    requires s != [] && DecodeAll(s).Replies?
    ensures Parse(s).Parsed? && DecodeAll(Parse(s).rest).Replies?
    ensures RepliesIn(s) == [ReplyData(Parse(s).value, Parse(s).error)] + RepliesIn(Parse(s).rest)
  {
  }

  lemma PrependIsInjective(reply: ReplyData, others: Stream, list: seq<ReplyData>)
    ensures Prepend(reply, others) == Replies([reply] + list) <==> others == Replies(list)
  {
    if others.Replies? {
      assert ([reply] + others.list)[1..] == others.list && ([reply] + list)[1..] == list;
    }
  }

  /** A piece that ends inside a message never yields the replies of the uncut bytes. */
  lemma CutInside(a: seq<byte>, b: seq<byte>, later: seq<ReplyData>)
    requires DecodeAll(a).Replies? && a != [] && !Complete(a) && later != []
    ensures DecodeAll(a + b) != Replies(RepliesIn(a) + later)
  {
    RepliesInStep(a);
    IncompleteTakesAll(a, b);
    var first := ReplyData(Parse(a).value, Parse(a).error);
    assert RepliesIn(a) == [first];
    if DecodeAll(a + b).Replies? {
      RepliesInStep(a + b);
      if Parse(a + b).error == Eof {
        EofIsAtEnd(a + b);
      }
      assert RepliesIn(a + b)[0] != first || |RepliesIn(a + b)| == 1;
      assert ([first] + later)[0] == first && |[first] + later| >= 2;
    }
  }

  /** A whole message in front of the cut comes out of the uncut bytes too. */
  lemma CutBehindMessage(a: seq<byte>, b: seq<byte>, later: seq<ReplyData>)
    requires DecodeAll(a).Replies? && Complete(a)
    ensures Parse(a).Parsed? && DecodeAll(Parse(a).rest).Replies?
    ensures DecodeAll(a + b) == Replies(RepliesIn(a) + later) <==>
            DecodeAll(Parse(a).rest + b) == Replies(RepliesIn(Parse(a).rest) + later)
  {
    RepliesInStep(a);
    CompleteIsLocal(a, b);
    var first, rest := ReplyData(Parse(a).value, Parse(a).error), Parse(a).rest;
    assert DecodeAll(a + b) == Prepend(first, DecodeAll(rest + b));
    Associate([first], RepliesIn(rest), later);
    PrependIsInjective(first, DecodeAll(rest + b), RepliesIn(rest) + later);
  }

  /**
   One cut, exactly: the replies of `a` and some replies `later` are the replies of `a + b` if and
   only if `a` is a number of whole messages and `later` are the replies of `b`.
   */
  lemma {:induction false} CutDecodes(a: seq<byte>, b: seq<byte>, later: seq<ReplyData>)
    requires DecodeAll(a).Replies? && later != []
    ensures DecodeAll(a + b) == Replies(RepliesIn(a) + later) <==>
            WholeMessages(a) && DecodeAll(b) == Replies(later)
    decreases |a|
  {
    if a == [] {
      assert a + b == b && RepliesIn(a) + later == later;
    } else if Complete(a) {
      CutBehindMessage(a, b, later);
      CutDecodes(Parse(a).rest, b, later);
    } else {
      CutInside(a, b, later);
    }
  }

  // ---- Any number of cuts ----

  function Joined(pieces: seq<seq<byte>>): seq<byte> {
    if pieces == [] then [] else pieces[0] + Joined(pieces[1..])
  }

  function RepliesOfEach(pieces: seq<seq<byte>>): seq<ReplyData> {
    if pieces == [] then [] else RepliesIn(pieces[0]) + RepliesOfEach(pieces[1..])
  }

  /** Every piece but the last consists of whole messages. */
  predicate CutBetweenMessages(pieces: seq<seq<byte>>) {
    |pieces| <= 1 || (WholeMessages(pieces[0]) && CutBetweenMessages(pieces[1..]))
  }

  lemma SomeReply(s: seq<byte>)
    requires s != [] && DecodeAll(s).Replies?
    ensures RepliesIn(s) != []
  {
    RepliesInStep(s);
  }

  /**
   Any number of cuts, exactly: decoding the pieces of a stream one by one gives the replies of
   the whole stream if and only if every cut is between two messages.
   */
  lemma {:induction false} PiecesDecode(pieces: seq<seq<byte>>)
    requires forall k :: 0 <= k < |pieces| ==> pieces[k] != [] && DecodeAll(pieces[k]).Replies?
    ensures DecodeAll(Joined(pieces)) == Replies(RepliesOfEach(pieces)) <==> CutBetweenMessages(pieces)
  {
    if |pieces| == 1 {
      assert Joined(pieces[1..]) == [] && RepliesOfEach(pieces[1..]) == [];
      assert pieces[0] + [] == pieces[0] && RepliesIn(pieces[0]) + [] == RepliesIn(pieces[0]);
    } else if |pieces| > 1 {
      var others := pieces[1..];
      PiecesDecode(others);
      SomeReply(others[0]);
      CutDecodes(pieces[0], Joined(others), RepliesOfEach(others));
    }
  }

  // ---- A throwing message behind whole ones ----

  lemma BehindMessage(a: seq<byte>, c: seq<byte>)
    requires DecodeAll(a).Replies? && Complete(a)
    ensures Parse(a).Parsed? && DecodeAll(Parse(a).rest).Replies?
    ensures DecodeAll(a + c) == Prepend(ReplyData(Parse(a).value, Parse(a).error), DecodeAll(Parse(a).rest + c))
    ensures DecodedPart(a + c) == [ReplyData(Parse(a).value, Parse(a).error)] + DecodedPart(Parse(a).rest + c)
  {
    RepliesInStep(a);
    CompleteIsLocal(a, c);
  }

  /**
   Whole messages in front of a bad header: the client's loop loses all their replies to the
   exception, and the subscriber's loop has handed on every one of them before it.
   */
  lemma {:induction false} ThrowBehindMessages(a: seq<byte>, c: seq<byte>)
    requires WholeMessages(a) && DecodeAll(a).Replies? && BadHeader(c)
    ensures Parse(c).Threw? && DecodeAll(a + c) == Broken(Parse(c).what)
    ensures DecodedPart(a + c) == RepliesIn(a)
    decreases |a|
  {
    BadHeaderThrows(c);
    if a == [] {
      assert a + c == c;
    } else {
      BehindMessage(a, c);
      RepliesInStep(a);
      ThrowBehindMessages(Parse(a).rest, c);
    }
  }

  // ---- A cut between the elements of an array ----

  lemma {:induction false} ErrorFreeParts(a: seq<Value>, b: seq<Value>)
    ensures AllErrorFree(a + b) <==> AllErrorFree(a) && AllErrorFree(b)
  {
    if a == [] {
      assert a + b == b;
    } else {
      assert (a + b)[1..] == a[1..] + b;
      ErrorFreeParts(a[1..], b);
    }
  }

  lemma {:induction false} NoNestedErrors(items: seq<Value>)
    requires AllErrorFree(items)
    ensures forall v :: v in items ==> !HasNestedError(v)
  {
    if items != [] {
      NoNestedErrors(items[1..]);
      assert items == [items[0]] + items[1..];
    }
  }

  lemma ArrayCutShort(n: nat, items: seq<Value>)
    requires |items| < n && FitsInt64(n) && AllEncodable(items) && AllErrorFree(items)
    ensures DecodeAll(Framed(STAR, ToString(n), EncodeAll(items))) == Replies([ReplyData(Nil, Eof)])
  {
    var line, body, none := ToString(n), EncodeAll(items), [];
    ReadPrinted(n);
    ElementsAnswered(line, LF, n, items, none);
    assert body + none == body;
    assert Headed('*', line, LF, body) == Framed(STAR, line, body);
    OneReply(Framed(STAR, line, body), ReplyData(Nil, Eof));
  }

  /**
   An array that a cut divides in front of its element `k` is lost: the first piece yields one nil
   reply with the end-of-buffer error, and the second one the elements behind the cut, as replies
   of their own.
   */
  lemma {:induction false} CutArray(items: seq<Value>, k: nat)
    requires Encodable(Array(items)) && AllErrorFree(items) && k < |items|
    ensures var a, b := Framed(STAR, ToString(|items|), EncodeAll(items[..k])), EncodeAll(items[k..]);
            && a + b == Encode(Array(items))
            && DecodeAll(a) == Replies([ReplyData(Nil, Eof)])
            && DecodeAll(b) == Replies(AllIntended(items[k..]))
  {
    var x, y := items[..k], items[k..];
    assert x + y == items;
    EncodeAllConcat(x, y);
    ErrorFreeParts(x, y);
    Associate([STAR] + ToString(|items|) + CRLF, EncodeAll(x), EncodeAll(y));
    ArrayCutShort(|items|, x);
    NoNestedErrors(y);
    PipelineFraming(y);
  }

  // ---- What the subscriber's consumer gets ----

  lemma {:induction false} RepliesOfEachAppend(pieces: seq<seq<byte>>, last: seq<byte>)
    ensures RepliesOfEach(pieces + [last]) == RepliesOfEach(pieces) + RepliesIn(last)
  {
    if pieces == [] {
      assert RepliesOfEach([last]) == RepliesIn(last) + RepliesOfEach([last][1..]) == RepliesIn(last);
    } else {
      assert (pieces + [last])[1..] == pieces[1..] + [last];
      RepliesOfEachAppend(pieces[1..], last);
      Associate(RepliesIn(pieces[0]), RepliesOfEach(pieces[1..]), RepliesIn(last));
    }
  }

  lemma OtherEventReadsNothing(events: seq<Event>)
    requires events != [] && !Latest(events).Chunk?
    ensures Chunks(events) == Chunks(Front(events)) && AllDecoded(events) == AllDecoded(Front(events))
  {
    assert Chunks(Front(events)) + [] == Chunks(Front(events));
    assert AllDecoded(Front(events)) + [] == AllDecoded(Front(events));
  }

  lemma {:induction false} ChunksOfRun(events: seq<Event>)
    requires Valid(events) && NoChunkThrows(events)
    ensures forall k :: 0 <= k < |Chunks(events)| ==>
              Chunks(events)[k] != [] && DecodeAll(Chunks(events)[k]).Replies?
    ensures AllDecoded(events) == RepliesOfEach(Chunks(events))
  {
    if events != [] {
      ChunksOfRun(Front(events));
      if Latest(events).Chunk? {
        DecodedPartIsAll(Latest(events).bytes);
        RepliesOfEachAppend(Chunks(Front(events)), Latest(events).bytes);
      } else {
        OtherEventReadsNothing(events);
      }
    }
  }

  /**
   From the stream to the consumer, exactly: in a run without a restart and without a throwing
   read, the replies decoded are those of the uncut stream if and only if every cut between two
   reads is between two messages. Then the consumer has received a prefix of those, and without a
   stop the others are queued or held by the reader.
   */
  lemma {:induction false} StreamToConsumer(events: seq<Event>)
    requires Valid(events) && !Restarted(events) && NoChunkThrows(events)
    ensures var stream, s := Joined(Chunks(events)), Reached(events);
            && (DecodeAll(stream) == Replies(AllDecoded(events)) <==> CutBetweenMessages(Chunks(events)))
            && (CutBetweenMessages(Chunks(events)) ==>
                  RepliesOf(s.received) <= RepliesIn(stream) &&
                  (StopCall !in events ==>
                     RepliesOf(s.received) + RepliesOf(s.queue) + Unsent(s) == RepliesIn(stream)))
  {
    ChunksOfRun(events);
    PiecesDecode(Chunks(events));
    Delivery(events);
  }
}
