/** Whole runs of the subscriber: its life cycle and the delivery of replies. */
module SubscriberLaws {
  import opened Bytes
  import opened Values
  import opened Resp
  import opened Reply
  import opened Client
  import opened Runs
  import opened Subscriber

  // ---- Life cycle ----

  predicate HasLeft(s: State) { exists i :: 0 <= i < |s.readers| && s.readers[i].at.Left? }

  ghost predicate LifeCycle(s: State) {
    && s.latch <= 1
    && (s.latch == 0 <==> HasLeft(s))
    && (s.readMessages ==> s.readers != [])
    && (s.readers != [] && !s.readMessages ==> s.closed)
    && (s.closed <==> s.stops != [])
    && forall k :: 0 <= k < |s.stops| ==> s.stops[k] == Disconnected ==> s.latch == 0
  }

  lemma LeaveKeepsLifeCycle(s: State, i: nat)
    requires LifeCycle(s) && i < |s.readers|
    ensures LifeCycle(LeaveLoop(s, i))
  {
    assert LeaveLoop(s, i).readers[i].at.Left?;
  }

  /** A change of one reader that does not enter or leave the place behind the loop. */
  lemma MoveKeepsLeft(s: State, i: nat, r: Reader)
    requires i < |s.readers| && !s.readers[i].at.Left? && !r.at.Left?
    ensures HasLeft(s.(readers := s.readers[i := r])) <==> HasLeft(s)
  {
    var after := s.readers[i := r];
    if HasLeft(s) {
      var j :| 0 <= j < |s.readers| && s.readers[j].at.Left?;
      assert after[j].at.Left?;
    }
  }

  /** Events at which a reader moves on inside its loop, or dies. */
  lemma StepKeepsLifeCycle(s: State, e: Event, i: nat)
    requires LifeCycle(s) && Enabled(s, e)
    requires e == Connected(i) || e == ReadFailed(i) || e == Advance(i) || e == Unblock(i) || e == Refuse(i) ||
             (e.Chunk? && e.i == i) || (e == Test(i) && s.readMessages)
    ensures LifeCycle(Apply(s, e))
  {
    var s' := Apply(s, e);
    assert s'.readers == s.readers[i := s'.readers[i]];
    MoveKeepsLeft(s, i, s'.readers[i]);
  }

  lemma CallKeepsLifeCycle(s: State, e: Event)
    requires LifeCycle(s) && Enabled(s, e)
    requires e == Start || e == StopCall || e.StopResume? || e == Receive || e == ReceiveFailed
    ensures LifeCycle(Apply(s, e))
  {
    if e == Start && HasLeft(s) && !s.Running() {
      var j :| 0 <= j < |s.readers| && s.readers[j].at.Left?;
      assert Apply(s, e).readers[j].at.Left?;
    }
  }

  lemma EventKeepsLifeCycle(s: State, e: Event)
    requires LifeCycle(s) && Enabled(s, e)
    ensures LifeCycle(Apply(s, e))
  {
    match e
    case Test(i) =>
      if s.readMessages {
        StepKeepsLifeCycle(s, e, i);
      } else {
        LeaveKeepsLifeCycle(s, i);
      }
    case ReadAborted(i) => LeaveKeepsLifeCycle(s, i);
    case Leave(i) => LeaveKeepsLifeCycle(s, i);
    case Connected(i) => StepKeepsLifeCycle(s, e, i);
    case ReadFailed(i) => StepKeepsLifeCycle(s, e, i);
    case Chunk(i, bytes) => StepKeepsLifeCycle(s, e, i);
    case Advance(i) => StepKeepsLifeCycle(s, e, i);
    case Unblock(i) => StepKeepsLifeCycle(s, e, i);
    case Refuse(i) => StepKeepsLifeCycle(s, e, i);
    case _ => CallKeepsLifeCycle(s, e);
  }

  /**
   In every run: the latch is down exactly when some reader has left its loop, and no stop has
   disconnected before.
   */
  lemma {:induction false} RunsKeepLifeCycle(events: seq<Event>)
    requires Valid(events)
    ensures LifeCycle(Reached(events))
  {
    if events != [] {
      RunsKeepLifeCycle(Front(events));
      EventKeepsLifeCycle(Reached(Front(events)), Latest(events));
    }
  }

  predicate Started(events: seq<Event>) {
    events != [] && (Started(Front(events)) || Latest(events) == Start)
  }

  /** After a start, stop was called or a reader left its loop. */
  predicate Ended(events: seq<Event>)
    requires Valid(events)
  {
    events != [] &&
    (Ended(Front(events)) ||
     (Started(Front(events)) && (Latest(events) == StopCall || Reached(events).latch == 0)))
  }

  /** And after that, start was called again. */
  predicate Restarted(events: seq<Event>)
    requires Valid(events)
  {
    events != [] && (Restarted(Front(events)) || (Ended(Front(events)) && Latest(events) == Start))
  }

  /** What each event does to the parts of the state that the calls control. */
  lemma ControlStep(s: State, e: Event)
    requires Enabled(s, e)
    ensures |Apply(s, e).readers| == |s.readers| + if e == Start && !s.Running() then 1 else 0
    ensures Apply(s, e).readMessages <==> e == Start || (s.readMessages && e != StopCall)
    ensures Apply(s, e).closed <==> s.closed || e == StopCall
  {
  }

  /** What the life of the object looks like from the calls made on it. */
  lemma {:induction false} CallsDecideReaders(events: seq<Event>)
    requires Valid(events)
    ensures var s := Reached(events);
            && (s.readers != [] <==> Started(events))
            && (Started(events) && !s.Running() ==> Ended(events))
            && (Ended(events) && s.Running() ==> |s.readers| >= 2)
            && (Restarted(events) <==> |s.readers| >= 2)
            && (Restarted(events) ==> Ended(events))
            && (Ended(events) ==> Started(events))
  {
    RunsKeepLifeCycle(events);
    if events != [] {
      var before, e := Reached(Front(events)), Latest(events);
      CallsDecideReaders(Front(events));
      RunsKeepLifeCycle(Front(events));
      ControlStep(before, e);
    }
  }

  /**
   One reader, exactly: a run has at most one reader if and only if start was never called again
   after a stop, or after the reader left its loop.
   */
  lemma {:induction false} AtMostOneReader(events: seq<Event>)
    requires Valid(events)
    ensures |Reached(events).readers| <= 1 <==> !Restarted(events)
  {
    CallsDecideReaders(events);
  }

  /** The shortest run with two readers: start, stop, and start before the first one has noticed. */
  lemma RestartMakesTwoReaders()
    ensures Valid([Start, StopCall, Start]) && |Reached([Start, StopCall, Start]).readers| == 2
  {
    var e1, e2, e3 := [Start], [Start, StopCall], [Start, StopCall, Start];
    assert Front(e1) == [] && Front(e2) == e1 && Front(e3) == e2;
    assert Reached(e1) == Initial.(readMessages := true, readers := [Reader(AtLoop, [], [])]);
    assert !Reached(e2).Running();
  }

  /** What was read in a run, read by read. */
  function Chunks(events: seq<Event>): seq<seq<byte>> {
    if events == [] then []
    else Chunks(Front(events)) + if Latest(events).Chunk? then [Latest(events).bytes] else []
  }

  /** Every chunk of the run decodes to its end: no array header makes the decoder throw. */
  predicate NoChunkThrows(events: seq<Event>) {
    events == [] ||
    (NoChunkThrows(Front(events)) &&
     (Latest(events).Chunk? ==> DecodeAll(Latest(events).bytes).Replies?))
  }

  predicate Decodable(at: Place) {
    match at
    case Parsing(rest) => DecodeAll(rest).Replies?
    case Blocked(_, rest) => DecodeAll(rest).Replies?
    case Died => false
    case _ => true
  }

  lemma EventKeepsDecodable(s: State, e: Event, i: nat)
    requires Enabled(s, e) && i < |s.readers| && Decodable(s.readers[i].at)
    requires e.Chunk? ==> DecodeAll(e.bytes).Replies?
    ensures Decodable(Apply(s, e).readers[i].at)
  {
    if e == Advance(i) && s.readers[i].at.rest != [] {
      var bytes := s.readers[i].at.rest;
      var reply := ReplyData(Parse(bytes).value, Parse(bytes).error);
      assert DecodeAll(bytes) == Prepend(reply, DecodeAll(Parse(bytes).rest));
    }
  }

  lemma {:induction false} NoReaderDies(events: seq<Event>)
    requires Valid(events) && NoChunkThrows(events)
    ensures forall i :: 0 <= i < |Reached(events).readers| ==> Decodable(Reached(events).readers[i].at)
  {
    if events != [] {
      var before, s := Reached(Front(events)), Reached(events);
      NoReaderDies(Front(events));
      forall i | 0 <= i < |s.readers| ensures Decodable(s.readers[i].at) {
        if i < |before.readers| {
          EventKeepsDecodable(before, Latest(events), i);
        }
      }
    }
  }

  /** What a reader has left to parse never leads the decoder out of the buffer. */
  predicate FramedAt(at: Place) {
    match at
    case Parsing(rest) => DecodeAll(rest) != StreamOverran
    case Blocked(_, rest) => DecodeAll(rest) != StreamOverran
    case _ => true
  }

  lemma EventKeepsFramed(s: State, e: Event, i: nat)
    requires Enabled(s, e) && i < |s.readers| && FramedAt(s.readers[i].at)
    ensures FramedAt(Apply(s, e).readers[i].at)
  {
    if e == Advance(i) && s.readers[i].at.rest != [] && Parse(s.readers[i].at.rest).Parsed? {
      var bytes := s.readers[i].at.rest;
      var reply := ReplyData(Parse(bytes).value, Parse(bytes).error);
      assert DecodeAll(bytes) == Prepend(reply, DecodeAll(Parse(bytes).rest));
    }
  }

  /** In every run, the precondition of the parsing step holds whenever its turn comes. */
  lemma {:induction false} ReadersStayFramed(events: seq<Event>)
    requires Valid(events)
    ensures forall i :: 0 <= i < |Reached(events).readers| ==> FramedAt(Reached(events).readers[i].at)
    ensures forall i :: 0 <= i < |Reached(events).readers| && Reached(events).readers[i].at.Parsing? ==>
              Parse(Reached(events).readers[i].at.rest) != Overran
  {
    if events != [] {
      var before, s := Reached(Front(events)), Reached(events);
      ReadersStayFramed(Front(events));
      forall i | 0 <= i < |s.readers| ensures FramedAt(s.readers[i].at) {
        if i < |before.readers| {
          EventKeepsFramed(before, Latest(events), i);
        }
      }
    }
  }

  lemma OneReaderLeft(s: State)
    requires LifeCycle(s) && |s.readers| <= 1
    ensures s.latch == 0 <==> |s.readers| == 1 && s.readers[0].at.Left?
  {
    if |s.readers| == 1 && s.readers[0].at.Left? {
      assert HasLeft(s);
    }
  }

  /**
   The life of the one reader, in every run without a restart: the latch is down exactly when it
   has left its loop; a stop that disconnects does so after that; while `running()` holds the
   reader exists and has not left, and it is alive unless some chunk makes the decoder throw.
   */
  lemma {:induction false} OneReaderLifeCycle(events: seq<Event>)
    requires Valid(events) && !Restarted(events)
    ensures var s := Reached(events);
            && |s.readers| <= 1
            && (s.latch == 0 <==> |s.readers| == 1 && s.readers[0].at.Left?)
            && (Disconnected in s.stops ==> |s.readers| == 1 && s.readers[0].at.Left?)
            && (s.Running() ==> |s.readers| == 1 && !s.readers[0].at.Left?)
            && (s.Running() && NoChunkThrows(events) ==> !s.readers[0].at.Died?)
  {
    AtMostOneReader(events);
    RunsKeepLifeCycle(events);
    OneReaderLeft(Reached(events));
    if NoChunkThrows(events) {
      NoReaderDies(events);
    }
  }

  lemma ReadersOnlyGrow(s: State, e: Event)
    requires Enabled(s, e)
    ensures |Apply(s, e).readers| >= |s.readers|
  {
    ControlStep(s, e);
  }

  lemma {:induction false} ContinuedRun(events: seq<Event>, more: seq<Event>)
    requires Valid(events + more)
    ensures Valid(events) && |Reached(events).readers| <= |Reached(events + more).readers|
  {
    if more == [] {
      assert events + more == events;
    } else {
      assert Front(events + more) == events + Front(more);
      ContinuedRun(events, Front(more));
      ReadersOnlyGrow(Reached(events + Front(more)), Latest(events + more));
    }
  }

  // ---- Delivery ----

  /** The replies of all bytes read in a run, in the order they were read. */
  function AllDecoded(events: seq<Event>): seq<ReplyData> {
    if events == [] then []
    else AllDecoded(Front(events)) + if Latest(events).Chunk? then DecodedPart(Latest(events).bytes) else []
  }

  function RepliesOf(messages: seq<Message>): seq<ReplyData> {
    if messages == [] then [] else [messages[0].reply] + RepliesOf(messages[1..])
  }

  lemma {:induction false} RepliesOfConcat(a: seq<Message>, b: seq<Message>)
    ensures RepliesOf(a + b) == RepliesOf(a) + RepliesOf(b)
  {
    if a == [] {
      assert a + b == b;
    } else {
      assert (a + b)[1..] == a[1..] + b;
      RepliesOfConcat(a[1..], b);
    }
  }

  lemma {:induction false} RepliesOfAt(messages: seq<Message>, k: nat)
    requires k < |messages|
    ensures |RepliesOf(messages)| == |messages| && RepliesOf(messages)[k] == messages[k].reply
  {
    if |messages| > 1 {
      RepliesOfAt(messages[1..], if k > 0 then k - 1 else 0);
    }
  }

  lemma {:induction false} OnlySender(messages: seq<Message>)
    requires forall k :: 0 <= k < |messages| ==> messages[k].sender == 0
    ensures SentBy(messages, 0) == RepliesOf(messages)
  {
    if messages != [] {
      var front, last := messages[..|messages| - 1], messages[|messages| - 1];
      OnlySender(front);
      RepliesOfConcat(front, [last]);
      assert messages == front + [last];
    }
  }

  function FirstDecoded(s: State): seq<ReplyData> { if s.readers == [] then [] else s.readers[0].decoded }

  lemma OneReaderStep(s: State, e: Event)
    requires Enabled(s, e) && |Apply(s, e).readers| <= 1
    ensures |s.readers| <= 1
    ensures FirstDecoded(Apply(s, e)) == FirstDecoded(s) + if e.Chunk? then DecodedPart(e.bytes) else []
  {
    ControlStep(s, e);
    if s.readers != [] && !e.Chunk? {
      OnlyChunksDecode(s, e, 0);
      assert FirstDecoded(s) + [] == FirstDecoded(s);
    }
  }

  lemma OnlyChunksDecode(s: State, e: Event, i: nat)
    requires Enabled(s, e) && i < |s.readers| && !e.Chunk?
    ensures Apply(s, e).readers[i].decoded == s.readers[i].decoded
  {
  }

  lemma {:induction false} OneReaderReadsAll(events: seq<Event>)
    requires Valid(events) && |Reached(events).readers| <= 1
    ensures AllDecoded(events) == FirstDecoded(Reached(events))
  {
    if events != [] {
      OneReaderStep(Reached(Front(events)), Latest(events));
      OneReaderReadsAll(Front(events));
    }
  }

  function Unsent(s: State): seq<ReplyData> { if s.readers == [] then [] else Pending(s.readers[0].at) }

  function Lost(s: State): seq<ReplyData> { if s.readers == [] then [] else s.readers[0].lost }

  /**
   Delivery, in every run without a restart: received, queued, not yet sent and given up make up,
   in order, all replies decoded, and replies are given up only after the queue was closed by a
   stop. So what was received is always a prefix of the decoded stream.
   */
  lemma {:induction false} Delivery(events: seq<Event>)
    requires Valid(events) && !Restarted(events)
    ensures var s := Reached(events);
            && RepliesOf(s.received) + RepliesOf(s.queue) + Unsent(s) + Lost(s) == AllDecoded(events)
            && |s.queue| <= QUEUE_CAPACITY
            && (Lost(s) != [] ==> StopCall in events)
            && RepliesOf(s.received) <= AllDecoded(events)
  {
    AtMostOneReader(events);
    RunsConserve(events);
    OneReaderReadsAll(events);
    ClosedByStop(events);
    OneReaderDelivers(Reached(events));
  }

  lemma OneReaderDelivers(s: State)
    requires Conserving(s) && |s.readers| <= 1
    ensures RepliesOf(s.received) + RepliesOf(s.queue) + Unsent(s) + Lost(s) == FirstDecoded(s)
    ensures Lost(s) != [] ==> s.closed
  {
    RepliesOfConcat(s.received, s.queue);
    assert s.sent != [] ==> s.sent[0].sender < |s.readers|;
    if s.readers != [] {
      assert ReaderInvariant(s, 0);
      OnlySender(s.sent);
    }
  }

  lemma {:induction false} ClosedByStop(events: seq<Event>)
    requires Valid(events)
    ensures Reached(events).closed <==> StopCall in events
  {
    if events != [] {
      ClosedByStop(Front(events));
      ControlStep(Reached(Front(events)), Latest(events));
      assert events == Front(events) + [Latest(events)];
    }
  }

  /** A read fails only after a stop, and only when everything that was sent has been received. */
  lemma {:induction false} FailedReadIsDrained(events: seq<Event>)
    requires Valid(events) && Enabled(Reached(events), ReceiveFailed)
    ensures StopCall in events && Reached(events).received == Reached(events).sent
  {
    RunsConserve(events);
    ClosedByStop(events);
  }

  // ---- From the server's replies to the consumer ----

  /** The chunks of the run are, in order, the encodings of `pieces`. */
  predicate Carries(events: seq<Event>, pieces: seq<seq<Value>>) {
    if events == [] then pieces == []
    else if Latest(events).Chunk? then
      pieces != [] &&
      Latest(events).bytes == EncodeAll(pieces[|pieces| - 1]) &&
      Carries(Front(events), pieces[..|pieces| - 1])
    else Carries(Front(events), pieces)
  }

  predicate Plain(vs: seq<Value>) { AllEncodable(vs) && forall v :: v in vs ==> !HasNestedError(v) }

  function AllPieces(pieces: seq<seq<Value>>): seq<ReplyData> {
    if pieces == [] then []
    else AllPieces(pieces[..|pieces| - 1]) + AllIntended(pieces[|pieces| - 1])
  }

  lemma {:induction false} DecodedPartIsAll(s: seq<byte>)
    requires DecodeAll(s).Replies?
    ensures DecodedPart(s) == DecodeAll(s).list
    decreases |s|
  {
    if s != [] {
      DecodedPartIsAll(Parse(s).rest);
    }
  }

  lemma {:induction false} CarriedReplies(events: seq<Event>, pieces: seq<seq<Value>>)
    requires Carries(events, pieces)
    requires forall k :: 0 <= k < |pieces| ==> Plain(pieces[k])
    ensures AllDecoded(events) == AllPieces(pieces) && NoChunkThrows(events)
  {
    if events != [] {
      if Latest(events).Chunk? {
        var last := pieces[|pieces| - 1];
        CarriedReplies(Front(events), pieces[..|pieces| - 1]);
        assert Plain(last);
        PipelineFraming(last);
        DecodedPartIsAll(EncodeAll(last));
      } else {
        CarriedReplies(Front(events), pieces);
      }
    }
  }

  /**
   End to end: when the server's replies arrive in chunks of whole messages, without errors nested
   in arrays, then in every run without a restart the consumer has received the first replies the
   server sent, in order, the reader has not died, and without a stop every other reply is still
   queued or held by the reader.
   */
  lemma {:induction false} ServerToConsumer(events: seq<Event>, pieces: seq<seq<Value>>)
    requires Valid(events) && !Restarted(events) && Carries(events, pieces)
    requires forall k :: 0 <= k < |pieces| ==> Plain(pieces[k])
    ensures var s := Reached(events);
            && RepliesOf(s.received) <= AllPieces(pieces)
            && (StopCall !in events ==>
                  RepliesOf(s.received) + RepliesOf(s.queue) + Unsent(s) == AllPieces(pieces))
            && (s.Running() ==> |s.readers| == 1 && !s.readers[0].at.Died? && !s.readers[0].at.Left?)
  {
    Delivery(events);
    CarriedReplies(events, pieces);
    OneReaderLifeCycle(events);
  }
}
