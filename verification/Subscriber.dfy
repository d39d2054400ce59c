/**
 redis/subscriber.cpp: the reader coroutine, the bounded queue, the consumer, and start and stop.
 The coroutines interleave where they await; what runs between two awaits is one event.
 */
module Subscriber {
  import opened Sequences
  import opened Bytes
  import opened Values
  import opened Reply
  import opened Client
  import opened Runs

  const QUEUE_CAPACITY: nat := 8

  /** Where a reader coroutine is. */
  datatype Place =
    | AtLoop                                       // about to test `read_messages_`
    | Connecting                                   // awaiting `connection_.get()`
    | Reading                                      // awaiting `async_read_some`
    | Parsing(rest: seq<byte>)                     // at the head of the loop of `parse_buffer`
    | Blocked(reply: ReplyData, rest: seq<byte>)   // its send is suspended on a full queue
    | Refused                                      // its send completed with an error
    | Left                                         // past the loop, the latch counted down
    | Died                                         // an exception left the coroutine

  /** A reader, with the replies of all the bytes it read and those it gave up when refused. */
  datatype Reader = Reader(at: Place, decoded: seq<ReplyData>, lost: seq<ReplyData>)

  /** A queued reply and the reader that sent it. */
  datatype Message = Message(sender: nat, reply: ReplyData)

  datatype StopCaller = Waiting | Disconnected

  /** `sent` and `received` record what went into the queue and what came out of it. */
  datatype State = State(
    readMessages: bool,
    latch: nat,
    closed: bool,
    queue: seq<Message>,
    readers: seq<Reader>,
    stops: seq<StopCaller>,
    sent: seq<Message>,
    received: seq<Message>)
  {
    predicate Running() { latch != 0 && readMessages }
  }

  const Initial := State(false, 1, false, [], [], [], [], [])

  datatype Event =
    | Start
    | StopCall
    | StopResume(k: nat)
    | Test(i: nat)
    | Connected(i: nat)
    | ReadAborted(i: nat)
    | ReadFailed(i: nat)
    | Chunk(i: nat, bytes: seq<byte>)
    | Advance(i: nat)
    | Unblock(i: nat)
    | Refuse(i: nat)
    | Leave(i: nat)
    | Receive
    | ReceiveFailed

  /** What one read can bring: some bytes, no more than the buffer holds, that the decoder cannot overrun. */
  predicate Readable(bytes: seq<byte>) {
    0 < |bytes| <= READ_BUFFER_SIZE && DecodeAll(bytes) != StreamOverran
  }

  /**
   The queue is specified by when a send may complete: at once or after waiting for room, and with
   an error only when the queue is closed. A send that was waiting when the queue closed may go
   either way. A receive takes the oldest reply, and fails when the queue is empty and closed.
   */
  predicate Enabled(s: State, e: Event) {
    match e
    case Start => true
    case StopCall => true
    case StopResume(k) => k < |s.stops| && s.stops[k] == Waiting && s.latch == 0
    case Test(i) => i < |s.readers| && s.readers[i].at.AtLoop?
    case Connected(i) => i < |s.readers| && s.readers[i].at.Connecting?
    case ReadAborted(i) => i < |s.readers| && s.readers[i].at.Reading?
    case ReadFailed(i) => i < |s.readers| && s.readers[i].at.Reading?
    case Chunk(i, bytes) => i < |s.readers| && s.readers[i].at.Reading? && Readable(bytes)
    case Advance(i) => i < |s.readers| && s.readers[i].at.Parsing?
    case Unblock(i) => i < |s.readers| && s.readers[i].at.Blocked? && |s.queue| < QUEUE_CAPACITY
    case Refuse(i) => i < |s.readers| && s.readers[i].at.Blocked? && s.closed
    case Leave(i) => i < |s.readers| && s.readers[i].at.Refused?
    case Receive => s.queue != []
    case ReceiveFailed => s.queue == [] && s.closed
  }

  function Moved(s: State, i: nat, at: Place): State
    requires i < |s.readers|
  {
    s.(readers := s.readers[i := s.readers[i].(at := at)])
  }

  /** Reader `i` breaks out of its loop and counts the latch down. */
  function LeaveLoop(s: State, i: nat): State
    requires i < |s.readers|
  {
    Moved(s, i, Left).(latch := if s.latch > 0 then s.latch - 1 else 0)
  }

  function Pushed(s: State, i: nat, reply: ReplyData, rest: seq<byte>): State
    requires i < |s.readers|
  {
    Moved(s, i, Parsing(rest)).(queue := s.queue + [Message(i, reply)], sent := s.sent + [Message(i, reply)])
  }

  /** The replies the loop of `parse_buffer` gets out of some bytes, up to an exception. */
  function DecodedPart(s: seq<byte>): seq<ReplyData>
    decreases |s|
  {
    if s == [] then []
    else
      match Parse(s)
      case Parsed(value, error, rest) => [ReplyData(value, error)] + DecodedPart(rest)
      case _ => []
  }

  function GivenUp(s: State, i: nat, reply: ReplyData, rest: seq<byte>): State
    requires i < |s.readers|
  {
    s.(readers := s.readers[i := s.readers[i].(at := Refused, lost := [reply] + DecodedPart(rest))])
  }

  /** One turn of the loop of `parse_buffer`: decode a reply and offer it to the queue. */
  function Advanced(s: State, i: nat, bytes: seq<byte>): State
    requires i < |s.readers|
  {
    if bytes == [] then Moved(s, i, AtLoop)
    else
      match Parse(bytes)
      case Parsed(value, error, rest) =>
        var reply := ReplyData(value, error);
        if s.closed then GivenUp(s, i, reply, rest)
        else if |s.queue| < QUEUE_CAPACITY then Pushed(s, i, reply, rest)
        else Moved(s, i, Blocked(reply, rest))
      case _ => Moved(s, i, Died)
  }

  function Apply(s: State, e: Event): State
    requires Enabled(s, e)
  {
    match e
    case Start =>
      if s.Running() then s
      else s.(readMessages := true, readers := s.readers + [Reader(AtLoop, [], [])])
    case StopCall => s.(readMessages := false, closed := true, stops := s.stops + [Waiting])
    case StopResume(k) => s.(stops := s.stops[k := Disconnected])
    case Test(i) => if s.readMessages then Moved(s, i, Connecting) else LeaveLoop(s, i)
    case Connected(i) => Moved(s, i, Reading)
    case ReadAborted(i) => LeaveLoop(s, i)
    case ReadFailed(i) => Moved(s, i, AtLoop)
    case Chunk(i, bytes) =>
      var r := s.readers[i];
      s.(readers := s.readers[i := r.(at := Parsing(bytes), decoded := r.decoded + DecodedPart(bytes))])
    case Advance(i) => Advanced(s, i, s.readers[i].at.rest)
    case Unblock(i) => Pushed(s, i, s.readers[i].at.reply, s.readers[i].at.rest)
    case Refuse(i) => GivenUp(s, i, s.readers[i].at.reply, s.readers[i].at.rest)
    case Leave(i) => LeaveLoop(s, i)
    case Receive => s.(queue := s.queue[1..], received := s.received + [s.queue[0]])
    case ReceiveFailed => s
  }

  // ---- Runs ----

  predicate Valid(events: seq<Event>)
    decreases |events|, 0
  {
    events == [] || (Valid(Front(events)) && Enabled(Reached(Front(events)), Latest(events)))
  }

  /** The state after a run from the initial state. */
  function Reached(events: seq<Event>): State
    requires Valid(events)
    decreases |events|, 1
  {
    if events == [] then Initial else Apply(Reached(Front(events)), Latest(events))
  }

  lemma RunExtends(events: seq<Event>, e: Event)
    requires Valid(events) && Enabled(Reached(events), e)
    ensures Front(events + [e]) == events && Latest(events + [e]) == e
    ensures Valid(events + [e]) && Reached(events + [e]) == Apply(Reached(events), e)
  {
    AppendedEvent(events, e);
  }

  // ---- The queue, in every run and with any number of readers ----

  function SentBy(messages: seq<Message>, i: nat): seq<ReplyData> {
    if messages == [] then []
    else
      var m := messages[|messages| - 1];
      SentBy(messages[..|messages| - 1], i) + if m.sender == i then [m.reply] else []
  }

  /** What a reader still has to send of the bytes it read. */
  function Pending(at: Place): seq<ReplyData> {
    match at
    case Parsing(rest) => DecodedPart(rest)
    case Blocked(reply, rest) => [reply] + DecodedPart(rest)
    case _ => []
  }

  ghost predicate QueueInvariant(s: State) {
    && s.received + s.queue == s.sent
    && |s.queue| <= QUEUE_CAPACITY
    && forall k :: 0 <= k < |s.sent| ==> s.sent[k].sender < |s.readers|
  }

  ghost predicate ReaderInvariant(s: State, i: nat)
    requires i < |s.readers|
  {
    var r := s.readers[i];
    && SentBy(s.sent, i) + Pending(r.at) + r.lost == r.decoded
    && (r.lost != [] ==> s.closed && (r.at.Refused? || r.at.Left?))
  }

  ghost predicate Conserving(s: State) {
    QueueInvariant(s) && forall i :: 0 <= i < |s.readers| ==> ReaderInvariant(s, i)
  }

  lemma ByStep(messages: seq<Message>, m: Message, i: nat)
    ensures SentBy(messages + [m], i) == SentBy(messages, i) + if m.sender == i then [m.reply] else []
  {
    assert (messages + [m])[..|messages|] == messages;
  }

  lemma {:induction false} ByNone(messages: seq<Message>, i: nat)
    requires forall k :: 0 <= k < |messages| ==> messages[k].sender < i
    ensures SentBy(messages, i) == []
  {
    if messages != [] {
      ByNone(messages[..|messages| - 1], i);
    }
  }

  lemma PushKeepsSender(s: State, i: nat, reply: ReplyData, rest: seq<byte>)
    requires i < |s.readers| && ReaderInvariant(s, i)
    requires Pending(s.readers[i].at) == [reply] + DecodedPart(rest) && s.readers[i].lost == []
    ensures ReaderInvariant(Pushed(s, i, reply, rest), i)
  {
    ByStep(s.sent, Message(i, reply), i);
    Associate(SentBy(s.sent, i), [reply], DecodedPart(rest));
  }

  lemma PushKeepsOther(s: State, i: nat, reply: ReplyData, rest: seq<byte>, j: nat)
    requires i < |s.readers| && j < |s.readers| && j != i && ReaderInvariant(s, j)
    ensures ReaderInvariant(Pushed(s, i, reply, rest), j)
  {
    ByStep(s.sent, Message(i, reply), j);
    assert SentBy(s.sent, j) + [] == SentBy(s.sent, j);
  }

  lemma PushConserves(s: State, i: nat, reply: ReplyData, rest: seq<byte>)
    requires Conserving(s) && i < |s.readers| && |s.queue| < QUEUE_CAPACITY
    requires Pending(s.readers[i].at) == [reply] + DecodedPart(rest) && s.readers[i].lost == []
    ensures Conserving(Pushed(s, i, reply, rest))
  {
    var s' := Pushed(s, i, reply, rest);
    forall j: nat | j < |s'.readers| ensures ReaderInvariant(s', j) {
      if j == i {
        PushKeepsSender(s, i, reply, rest);
      } else {
        PushKeepsOther(s, i, reply, rest, j);
      }
    }
  }

  lemma GiveUpKeepsReader(s: State, i: nat, reply: ReplyData, rest: seq<byte>, j: nat)
    requires i < |s.readers| && j < |s.readers| && ReaderInvariant(s, j) && s.closed
    requires Pending(s.readers[i].at) == [reply] + DecodedPart(rest) && s.readers[i].lost == []
    ensures ReaderInvariant(GivenUp(s, i, reply, rest), j)
  {
    if j == i {
      var given := [reply] + DecodedPart(rest);
      assert SentBy(s.sent, i) + given + [] == SentBy(s.sent, i) + [] + given;
    }
  }

  lemma GiveUpConserves(s: State, i: nat, reply: ReplyData, rest: seq<byte>)
    requires Conserving(s) && i < |s.readers| && s.closed
    requires Pending(s.readers[i].at) == [reply] + DecodedPart(rest) && s.readers[i].lost == []
    ensures Conserving(GivenUp(s, i, reply, rest))
  {
    var s' := GivenUp(s, i, reply, rest);
    forall j: nat | j < |s'.readers| ensures ReaderInvariant(s', j) {
      GiveUpKeepsReader(s, i, reply, rest, j);
    }
  }

  lemma MoveConserves(s: State, i: nat, at: Place)
    requires Conserving(s) && i < |s.readers|
    requires Pending(s.readers[i].at) == Pending(at)
    requires s.readers[i].lost == []
    ensures Conserving(Moved(s, i, at))
  {
    var s' := Moved(s, i, at);
    forall j | 0 <= j < |s'.readers| ensures ReaderInvariant(s', j) {
      assert ReaderInvariant(s, j);
    }
  }

  lemma LeaveConserves(s: State, i: nat)
    requires Conserving(s) && i < |s.readers|
    requires Pending(s.readers[i].at) == []
    ensures Conserving(LeaveLoop(s, i))
  {
    var s' := LeaveLoop(s, i);
    forall j | 0 <= j < |s'.readers| ensures ReaderInvariant(s', j) {
      assert ReaderInvariant(s, j);
    }
  }

  lemma AdvanceConserves(s: State, i: nat)
    requires Conserving(s) && Enabled(s, Advance(i))
    ensures Conserving(Apply(s, Advance(i)))
  {
    var bytes := s.readers[i].at.rest;
    assert ReaderInvariant(s, i);
    if bytes == [] {
      MoveConserves(s, i, AtLoop);
    } else if !Parse(bytes).Parsed? {
      MoveConserves(s, i, Died);
    } else {
      var reply, rest := ReplyData(Parse(bytes).value, Parse(bytes).error), Parse(bytes).rest;
      if s.closed {
        GiveUpConserves(s, i, reply, rest);
      } else if |s.queue| < QUEUE_CAPACITY {
        PushConserves(s, i, reply, rest);
      } else {
        MoveConserves(s, i, Blocked(reply, rest));
      }
    }
  }

  lemma ChunkKeepsReader(s: State, i: nat, bytes: seq<byte>, j: nat)
    requires Enabled(s, Chunk(i, bytes)) && j < |s.readers| && ReaderInvariant(s, j)
    ensures ReaderInvariant(Apply(s, Chunk(i, bytes)), j)
  {
    if j == i {
      assert SentBy(s.sent, i) + [] + [] == s.readers[i].decoded;
      assert SentBy(s.sent, i) + DecodedPart(bytes) + [] == s.readers[i].decoded + DecodedPart(bytes);
    }
  }

  lemma ChunkConserves(s: State, i: nat, bytes: seq<byte>)
    requires Conserving(s) && Enabled(s, Chunk(i, bytes))
    ensures Conserving(Apply(s, Chunk(i, bytes)))
  {
    var s' := Apply(s, Chunk(i, bytes));
    forall j: nat | j < |s'.readers| ensures ReaderInvariant(s', j) {
      ChunkKeepsReader(s, i, bytes, j);
    }
  }

  lemma OtherEventsConserve(s: State, e: Event)
    requires Conserving(s) && Enabled(s, e)
    requires e.Start? || e.StopCall? || e.StopResume? || e.Receive? || e.ReceiveFailed?
    ensures Conserving(Apply(s, e))
  {
    var s' := Apply(s, e);
    if e == Receive {
      assert s.received + [s.queue[0]] + s.queue[1..] == s.received + s.queue;
    }
    forall j | 0 <= j < |s'.readers| ensures ReaderInvariant(s', j) {
      if j < |s.readers| {
        assert ReaderInvariant(s, j);
      } else {
        ByNone(s.sent, j);
      }
    }
  }

  lemma EventConserves(s: State, e: Event)
    requires Conserving(s) && Enabled(s, e)
    ensures Conserving(Apply(s, e))
  {
    match e
    case Test(i) =>
      assert ReaderInvariant(s, i);
      if s.readMessages {
        MoveConserves(s, i, Connecting);
      } else {
        LeaveConserves(s, i);
      }
    case Connected(i) =>
      assert ReaderInvariant(s, i);
      MoveConserves(s, i, Reading);
    case ReadAborted(i) => LeaveConserves(s, i);
    case ReadFailed(i) =>
      assert ReaderInvariant(s, i);
      MoveConserves(s, i, AtLoop);
    case Leave(i) => LeaveConserves(s, i);
    case Chunk(i, bytes) => ChunkConserves(s, i, bytes);
    case Advance(i) => AdvanceConserves(s, i);
    case Unblock(i) =>
      assert ReaderInvariant(s, i);
      PushConserves(s, i, s.readers[i].at.reply, s.readers[i].at.rest);
    case Refuse(i) =>
      assert ReaderInvariant(s, i);
      GiveUpConserves(s, i, s.readers[i].at.reply, s.readers[i].at.rest);
    case _ => OtherEventsConserve(s, e);
  }

  /**
   In every run, with any number of readers: what was received and what is queued is what was
   sent, in order; the queue never holds more than its capacity; and what a reader sent, has
   still to send and gave up is, in order, what it decoded. Nothing is given up unless the queue
   was closed.
   */
  lemma {:induction false} RunsConserve(events: seq<Event>)
    requires Valid(events)
    ensures Conserving(Reached(events))
  {
    if events != [] {
      RunsConserve(Front(events));
      EventConserves(Reached(Front(events)), Latest(events));
    }
  }
}
