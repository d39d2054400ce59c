/** redis/subscriber.cpp: when an exception of the decoder kills the reader coroutine, exactly. */
module ReaderDeath {
  import opened Bytes
  import opened Decimal
  import opened Values
  import opened Reply
  import opened Client
  import opened Runs
  import opened Subscriber
  import opened SubscriberLaws

  predicate AllDecode(chunks: seq<seq<byte>>) {
    forall k :: 0 <= k < |chunks| ==> DecodeAll(chunks[k]).Replies?
  }

  /** The decoder throws on the last chunk and on none before it. */
  predicate LastThrows(chunks: seq<seq<byte>>) {
    chunks != [] && AllDecode(Front(chunks)) && DecodeAll(Latest(chunks)).Broken?
  }

  // ---- What a dead reader says about the chunks ----

  /** The chunks read so far, as far as the place of their reader shows how they decoded. */
  predicate Explains(chunks: seq<seq<byte>>, at: Place) {
    match at
    case Parsing(rest) => ExplainsRest(chunks, rest)
    case Blocked(_, rest) => ExplainsRest(chunks, rest)
    case Died => LastThrows(chunks)
    case Refused => true
    case Left => true
    case _ => AllDecode(chunks)
  }

  predicate ExplainsRest(chunks: seq<seq<byte>>, rest: seq<byte>) {
    && chunks != [] && AllDecode(Front(chunks))
    && DecodeAll(rest) != StreamOverran && DecodeAll(Latest(chunks)) != StreamOverran
    && (DecodeAll(Latest(chunks)).Broken? <==> DecodeAll(rest).Broken?)
  }

  lemma AdvanceExplained(s: State, chunks: seq<seq<byte>>)
    requires |s.readers| == 1 && Enabled(s, Advance(0)) && Explains(chunks, s.readers[0].at)
    ensures Explains(chunks, Apply(s, Advance(0)).readers[0].at)
  {
    var bytes := s.readers[0].at.rest;
    if bytes == [] {
      assert chunks == Front(chunks) + [Latest(chunks)];
    } else if Parse(bytes).Parsed? {
      var reply := ReplyData(Parse(bytes).value, Parse(bytes).error);
      assert DecodeAll(bytes) == Prepend(reply, DecodeAll(Parse(bytes).rest));
    }
  }

  lemma EventExplained(s: State, e: Event, chunks: seq<seq<byte>>)
    requires |s.readers| == 1 && Enabled(s, e) && Explains(chunks, s.readers[0].at)
    ensures Explains(chunks + if e.Chunk? then [e.bytes] else [], Apply(s, e).readers[0].at)
  {
    if e.Chunk? {
      AppendedEvent(chunks, e.bytes);
    } else {
      assert chunks + [] == chunks;
      if e.Advance? {
        AdvanceExplained(s, chunks);
      }
    }
  }

  lemma {:induction false} OneReaderExplained(events: seq<Event>)
    requires Valid(events) && |Reached(events).readers| <= 1
    ensures Reached(events).readers == [] ==> Chunks(events) == []
    ensures Reached(events).readers != [] ==> Explains(Chunks(events), Reached(events).readers[0].at)
  {
    if events != [] {
      var before, e := Reached(Front(events)), Latest(events);
      ReadersOnlyGrow(before, e);
      OneReaderExplained(Front(events));
      if before.readers == [] {
        assert !e.Chunk?;
        assert Chunks(events) == [];
      } else {
        EventExplained(before, e, Chunks(Front(events)));
      }
    }
  }

  // ---- The run in which the reader dies ----

  /** Nobody has stopped the one reader, the consumer has taken everything, and the reader is at `at`. */
  predicate ReadsAlone(s: State, at: Place) {
    s.Running() && s.latch == 1 && !s.closed && s.queue == [] && |s.readers| == 1 && s.readers[0].at == at
  }

  ghost predicate Reaches(chunks: seq<seq<byte>>, at: Place) {
    exists events :: Valid(events) && Chunks(events) == chunks && ReadsAlone(Reached(events), at)
  }

  lemma ReachesNext(events: seq<Event>, e: Event, chunks: seq<seq<byte>>, at: Place)
    requires Valid(events) && Enabled(Reached(events), e)
    requires Chunks(events) + (if e.Chunk? then [e.bytes] else []) == chunks
    requires ReadsAlone(Apply(Reached(events), e), at)
    ensures Reaches(chunks, at)
  {
    RunExtends(events, e);
    assert Chunks(events + [e]) == chunks;
  }

  /** The moves of a reader by itself, apart from its reads and sends. */
  predicate Moves(from: Place, e: Event, to: Place) {
    match from
    case AtLoop => e == Test(0) && to == Connecting
    case Connecting => e == Connected(0) && to == Reading
    case Parsing(rest) => e == Advance(0) && if rest == [] then to == AtLoop else Parse(rest).Threw? && to == Died
    case _ => false
  }

  lemma MovesAlone(s: State, from: Place, e: Event, to: Place)
    requires ReadsAlone(s, from) && Moves(from, e, to)
    ensures Enabled(s, e) && ReadsAlone(Apply(s, e), to)
  {
  }

  lemma ReachesMove(chunks: seq<seq<byte>>, from: Place, e: Event, to: Place)
    requires Reaches(chunks, from) && Moves(from, e, to)
    ensures Reaches(chunks, to)
  {
    var events :| Valid(events) && Chunks(events) == chunks && ReadsAlone(Reached(events), from);
    MovesAlone(Reached(events), from, e, to);
    assert Chunks(events) + [] == chunks;
    ReachesNext(events, e, chunks, to);
  }

  lemma ReachesLoop()
    ensures Reaches([], AtLoop)
  {
    var none: seq<seq<byte>> := [];
    assert Valid([]) && Chunks([]) == none && none + [] == none;
    ReachesNext([], Start, none, AtLoop);
  }

  lemma ReachesReading(chunks: seq<seq<byte>>)
    requires Reaches(chunks, AtLoop)
    ensures Reaches(chunks, Reading)
  {
    ReachesMove(chunks, AtLoop, Test(0), Connecting);
    ReachesMove(chunks, Connecting, Connected(0), Reading);
  }

  /** A reply goes into the queue and out of it again. */
  lemma ReachesRest(chunks: seq<seq<byte>>, bytes: seq<byte>)
    requires bytes != [] && Parse(bytes).Parsed? && Reaches(chunks, Parsing(bytes))
    ensures Reaches(chunks, Parsing(Parse(bytes).rest))
  {
    var events :| Valid(events) && Chunks(events) == chunks && ReadsAlone(Reached(events), Parsing(bytes));
    var s := Reached(events);
    RunExtends(events, Advance(0));
    assert Chunks(events + [Advance(0)]) == chunks + [] == chunks;
    var s' := Apply(s, Advance(0));
    assert |s'.queue| == 1 && s'.queue[1..] == [];
    ReachesNext(events + [Advance(0)], Receive, chunks, Parsing(Parse(bytes).rest));
  }

  lemma {:induction false} ReachesEnd(chunks: seq<seq<byte>>, bytes: seq<byte>)
    requires Reaches(chunks, Parsing(bytes)) && DecodeAll(bytes) != StreamOverran
    ensures DecodeAll(bytes).Replies? ==> Reaches(chunks, Reading)
    ensures DecodeAll(bytes).Broken? ==> Reaches(chunks, Died)
    decreases |bytes|
  {
    if bytes == [] {
      ReachesMove(chunks, Parsing([]), Advance(0), AtLoop);
      ReachesReading(chunks);
    } else if Parse(bytes).Parsed? {
      ReachesRest(chunks, bytes);
      ReachesEnd(chunks, Parse(bytes).rest);
    } else {
      ReachesMove(chunks, Parsing(bytes), Advance(0), Died);
    }
  }

  /** One more read, and the loop over it. */
  lemma ReachesThrough(chunks: seq<seq<byte>>, bytes: seq<byte>)
    requires Reaches(chunks, Reading) && Readable(bytes)
    ensures DecodeAll(bytes).Replies? ==> Reaches(chunks + [bytes], Reading)
    ensures DecodeAll(bytes).Broken? ==> Reaches(chunks + [bytes], Died)
  {
    var events :| Valid(events) && Chunks(events) == chunks && ReadsAlone(Reached(events), Reading);
    ReachesNext(events, Chunk(0, bytes), chunks + [bytes], Parsing(bytes));
    ReachesEnd(chunks + [bytes], bytes);
  }

  lemma {:induction false} ReachesAfter(chunks: seq<seq<byte>>)
    requires forall k :: 0 <= k < |chunks| ==> Readable(chunks[k])
    requires AllDecode(chunks)
    ensures Reaches(chunks, Reading)
  {
    if chunks == [] {
      ReachesLoop();
      ReachesReading([]);
    } else {
      var front, last := Front(chunks), Latest(chunks);
      ReachesAfter(front);
      ReachesThrough(front, last);
      assert front + [last] == chunks;
    }
  }

  lemma ReachesDeath(chunks: seq<seq<byte>>)
    requires forall k :: 0 <= k < |chunks| ==> Readable(chunks[k])
    requires LastThrows(chunks)
    ensures Reaches(chunks, Died)
  {
    var front, last := Front(chunks), Latest(chunks);
    ReachesAfter(front);
    ReachesThrough(front, last);
    assert front + [last] == chunks;
  }

  // ---- Exactly ----

  /** `running()` holds, but the only reader there is has died. */
  predicate RunningDead(s: State) { s.Running() && |s.readers| == 1 && s.readers[0].at.Died? }

  /**
   `running()` without a living reader, exactly: for any reads that can happen, some run without
   a restart that reads just these ends with `running()` and its reader dead, if and only if the
   decoder throws on the last of them and on none before it.
   */
  lemma {:induction false} ReaderDiesExactly(chunks: seq<seq<byte>>)
    requires forall k :: 0 <= k < |chunks| ==> Readable(chunks[k])
    ensures (exists events :: Valid(events) && !Restarted(events) && Chunks(events) == chunks &&
                              RunningDead(Reached(events)))
            <==> LastThrows(chunks)
  {
    if events :| Valid(events) && !Restarted(events) && Chunks(events) == chunks && RunningDead(Reached(events)) {
      OneReaderExplained(events);
    }
    if LastThrows(chunks) {
      ReachesDeath(chunks);
      var events :| Valid(events) && Chunks(events) == chunks && ReadsAlone(Reached(events), Died);
      AtMostOneReader(events);
    }
  }

  /** An array header that is not a number. */
  const BAD_HEADER: seq<byte> := [STAR, 120, CR, LF]

  /** The shortest such run: one read, and one turn of the loop over it. */
  lemma BadHeaderKillsReader()
    ensures var run := [Start, Test(0), Connected(0), Chunk(0, BAD_HEADER), Advance(0)];
            Valid(run) && !Restarted(run) && RunningDead(Reached(run))
  {
    var e1, e2, e3 := [Start], [Start, Test(0)], [Start, Test(0), Connected(0)];
    var e4 := e3 + [Chunk(0, BAD_HEADER)];
    BadHeaderThrows();
    RunExtends([], Start);
    assert [] + [Start] == e1;
    RunExtends(e1, Test(0));
    assert e1 + [Test(0)] == e2;
    RunExtends(e2, Connected(0));
    assert e2 + [Connected(0)] == e3;
    RunExtends(e3, Chunk(0, BAD_HEADER));
    RunExtends(e4, Advance(0));
    var run := [Start, Test(0), Connected(0), Chunk(0, BAD_HEADER), Advance(0)];
    assert e4 + [Advance(0)] == run;
    AtMostOneReader(run);
  }

  lemma BadHeaderThrows()
    ensures Parse(BAD_HEADER) == Threw(HeaderInvalid) && Readable(BAD_HEADER)
  {
    var line := BAD_HEADER[1..];
    LineEndIs(line, 1);
    assert Line(line) == [120] && Stol([120]) == InvalidArgument;
    assert Parse(BAD_HEADER) == ParseArray(line);
  }
}
