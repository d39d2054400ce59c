/** The class `redis_subscriber`: its calls and its reader's code between awaits, on its own fields. */
module SubscriberClass {
  import opened Bytes
  import opened Values
  import opened Reply
  import opened Runs
  import opened Subscriber
  import opened SubscriberLaws

  /** How `async_read_some` completes. */
  datatype ReadResult = Aborted | NoData | Data(bytes: seq<byte>)

  function ReadEvent(i: nat, result: ReadResult): Event {
    match result
    case Aborted => ReadAborted(i)
    case NoData => ReadFailed(i)
    case Data(bytes) => Chunk(i, bytes)
  }

  class RedisSubscriber {
    var readMessages: bool
    var latch: nat
    var closed: bool
    var queue: seq<Message>
    var readers: seq<Reader>
    var stops: seq<StopCaller>
    ghost var sent: seq<Message>
    ghost var received: seq<Message>
    /** What has happened so far. */
    ghost var events: seq<Event>

    ghost function Contents(): State
      reads this
    {
      State(readMessages, latch, closed, queue, readers, stops, sent, received)
    }

    /** The object is in the state its run leads to, so that every law of runs holds of it. */
    ghost predicate Valid()
      reads this
    {
      Subscriber.Valid(events) && Reached(events) == Contents()
    }

    /** `start` was never called again after a stop or after the reader left. */
    ghost predicate StartedOnce()
      requires Valid()
      reads this
    {
      !Restarted(events)
    }

    /** The other readers stay where they are, and nobody has started or stopped anything. */
    twostate predicate OnlyMoves(i: nat)
      reads this
    {
      && |readers| == |old(readers)| && (forall j :: 0 <= j < |readers| && j != i ==> readers[j] == old(readers)[j])
      && readMessages == old(readMessages) && closed == old(closed) && stops == old(stops)
    }

    twostate predicate QueueKept()
      reads this
    {
      queue == old(queue) && sent == old(sent) && received == old(received)
    }

    constructor ()
      ensures Valid() && events == [] && Contents() == Initial
    {
      readMessages, latch, closed, queue, readers, stops := false, 1, false, [], [], [];
      sent, received, events := [], [], [];
    }

    ghost method Record(e: Event)
      requires Subscriber.Valid(events) && Enabled(Reached(events), e) && Apply(Reached(events), e) == Contents()
      modifies `events
      ensures Valid() && events == old(events) + [e]
      ensures Front(events) == old(events) && Latest(events) == e
    {
      RunExtends(events, e);
      events := events + [e];
    }

    predicate Running()
      reads this
    {
      latch != 0 && readMessages
    }

    /**
     While running, nothing happens; otherwise there is one reader more, and it is the only one
     unless `start` came again. `running()` holds afterwards, if the latch was still up.
     */
    method Start()
      requires Valid()
      modifies this
      ensures Valid() && events == old(events) + [Event.Start] && Contents() == Apply(old(Contents()), Event.Start)
      ensures StartedOnce() <==> |readers| == 1
      ensures Running() <==> latch != 0
      ensures old(Running()) ==> Contents() == old(Contents())
      ensures !old(Running()) ==> readMessages && readers == old(readers) + [Reader(AtLoop, [], [])]
      ensures latch == old(latch) && closed == old(closed) && stops == old(stops) && QueueKept()
    {
      if !Running() {
        readMessages := true;
        readers := readers + [Reader(AtLoop, [], [])];
      }
      Record(Event.Start);
      CallsDecideReaders(events);
    }

    /** `stop` up to its wait for the latch: it never disconnects here, and leaves the queue readable. */
    method Stop()
      requires Valid()
      modifies this
      ensures Valid() && events == old(events) + [StopCall] && Contents() == Apply(old(Contents()), StopCall)
      ensures !readMessages && !Running() && closed && QueueKept() && readers == old(readers) && latch == old(latch)
      ensures stops == old(stops) + [Waiting] && (Disconnected in stops ==> HasLeft(Contents()))
    {
      readMessages := false;
      closed := true;
      stops := stops + [Waiting];
      Record(StopCall);
      RunsKeepLifeCycle(events);
    }

    /** The rest of `stop`, once the latch lets it pass: a reader has left, and without a restart there is no other. */
    method ResumeStop(k: nat)
      requires Valid() && Enabled(Contents(), StopResume(k))
      modifies this
      ensures Valid() && events == old(events) + [StopResume(k)]
      ensures Contents() == Apply(old(Contents()), StopResume(k))
      ensures stops == old(stops)[k := Disconnected] && closed && HasLeft(Contents())
      ensures readers == old(readers) && readMessages == old(readMessages) && latch == 0 && QueueKept()
      ensures StartedOnce() ==> |readers| == 1 && readers[0].at.Left?
    {
      stops := stops[k := Disconnected];
      Record(StopResume(k));
      RunsKeepLifeCycle(events);
      if StartedOnce() {
        OneReaderLifeCycle(events);
      }
    }

    method Move(i: nat, at: Place)
      requires i < |readers|
      modifies `readers
      ensures readers == old(readers)[i := old(readers)[i].(at := at)]
    {
      readers := readers[i := readers[i].(at := at)];
    }

    method CountDown(i: nat)
      requires i < |readers|
      modifies `readers, `latch
      ensures Contents() == LeaveLoop(old(Contents()), i)
    {
      if latch > 0 {
        latch := latch - 1;
      }
      Move(i, Left);
    }

    /** The head of the loop of `read_messages`: the reader leaves if and only if the flag is down. */
    method TestFlag(i: nat)
      requires Valid() && Enabled(Contents(), Test(i))
      modifies this
      ensures Valid() && events == old(events) + [Test(i)] && Contents() == Apply(old(Contents()), Test(i))
      ensures OnlyMoves(i) && QueueKept()
      ensures readers[i].at == if readMessages then Connecting else Left
      ensures if readMessages then latch == old(latch) else latch == 0 && closed
    {
      RunsKeepLifeCycle(events);
      CallsDecideReaders(events);
      if readMessages {
        Move(i, Connecting);
      } else {
        CountDown(i);
      }
      Record(Test(i));
      RunsKeepLifeCycle(events);
    }

    method ConnectionReady(i: nat)
      requires Valid() && Enabled(Contents(), Connected(i))
      modifies this
      ensures Valid() && events == old(events) + [Connected(i)]
      ensures Contents() == Apply(old(Contents()), Connected(i))
      ensures OnlyMoves(i) && QueueKept() && latch == old(latch) && readers[i].at == Reading
    {
      Move(i, Reading);
      Record(Connected(i));
    }

    /** The loop of `read_messages` behind the read, on the fields alone. */
    method ReadStep(i: nat, result: ReadResult)
      requires i < |readers| && readers[i].at.Reading?
      requires result.Data? ==> Readable(result.bytes)
      modifies `readers, `latch
      ensures Contents() == Apply(old(Contents()), ReadEvent(i, result))
    {
      match result
      case Aborted => CountDown(i);
      case NoData => Move(i, AtLoop);
      case Data(bytes) =>
        var r := readers[i];
        readers := readers[i := Reader(Parsing(bytes), r.decoded + DecodedPart(bytes), r.lost)];
    }

    /**
     The loop of `read_messages` behind the read. With bytes, all the replies in them are the ones
     the reader has to send; a cancelled read lets every stop pass; a failed one changes nothing.
     */
    method ReadDone(i: nat, result: ReadResult)
      requires Valid() && i < |readers| && readers[i].at.Reading?
      requires result.Data? ==> Readable(result.bytes)
      modifies this
      ensures Valid() && events == old(events) + [ReadEvent(i, result)]
      ensures Contents() == Apply(old(Contents()), ReadEvent(i, result))
      ensures OnlyMoves(i) && QueueKept()
      ensures result.Data? ==> readers[i].at == Parsing(result.bytes) && latch == old(latch)
      ensures result.Data? ==> SentBy(sent, i) + Pending(readers[i].at) == readers[i].decoded
      ensures AllDecoded(events) == AllDecoded(old(events)) + Pending(readers[i].at)
      ensures result.Aborted? ==> readers[i].at.Left? && latch == 0
      ensures result.NoData? ==> readers == old(readers)[i := old(readers)[i].(at := AtLoop)] && latch == old(latch)
    {
      ReadStep(i, result);
      Record(ReadEvent(i, result));
      RunsConserve(events);
      RunsKeepLifeCycle(events);
      assert ReaderInvariant(Contents(), i);
    }

    method Push(i: nat, reply: ReplyData, rest: seq<byte>)
      requires i < |readers|
      modifies `queue, `sent, `readers
      ensures Contents() == Pushed(old(Contents()), i, reply, rest)
    {
      queue := queue + [Message(i, reply)];
      sent := sent + [Message(i, reply)];
      Move(i, Parsing(rest));
    }

    /** A send that completes with an error: `parse_buffer` returns it, and the reader breaks. */
    method GiveUp(i: nat, reply: ReplyData, rest: seq<byte>)
      requires i < |readers|
      modifies `readers
      ensures Contents() == GivenUp(old(Contents()), i, reply, rest)
    {
      var r := readers[i];
      readers := readers[i := Reader(Refused, r.decoded, [reply] + DecodedPart(rest))];
    }

    /** One turn of the loop of `parse_buffer`, on the fields alone. */
    method ParseStep(i: nat)
      requires Enabled(Contents(), Advance(i))
      requires Parse(readers[i].at.rest) != Overran
      modifies `queue, `sent, `readers
      ensures Contents() == Apply(old(Contents()), Advance(i))
    {
      var bytes := readers[i].at.rest;
      if bytes == [] {
        Move(i, AtLoop);
        return;
      }
      var reply := new ReplyObject();
      assert bytes[0..] == bytes;
      var r := reply.LoadData(bytes, 0);
      if r.Raised? {
        Move(i, Died);
        return;
      }
      var rest := bytes[r.it..];
      if closed {
        GiveUp(i, reply.Data(), rest);
      } else if |queue| < QUEUE_CAPACITY {
        Push(i, reply.Data(), rest);
      } else {
        Move(i, Blocked(reply.Data(), rest));
      }
    }

    /**
     One turn of the loop of `parse_buffer`, up to the completion of its send or its wait. The
     decoder never leaves the buffer; an open queue with room takes the reply, a full one makes the
     reader wait, and a closed one refuses it, and with it all the replies behind it.
     */
    method ParseNext(i: nat)
      requires Valid() && Enabled(Contents(), Advance(i))
      modifies this
      ensures Valid() && events == old(events) + [Advance(i)] && Contents() == Apply(old(Contents()), Advance(i))
      ensures OnlyMoves(i) && latch == old(latch) && received == old(received) && |queue| <= 8
      ensures var bytes := old(readers)[i].at.rest;
              var o, at := Parse(bytes), readers[i].at;
              && (bytes == [] ==> at == AtLoop && QueueKept())
              && (bytes != [] && !o.Parsed? ==> o.Threw? && at == Died && QueueKept())
              && (bytes != [] && o.Parsed? ==>
                    var reply := ReplyData(o.value, o.error);
                    if closed then at == Refused && readers[i].lost == Pending(old(readers)[i].at) && QueueKept()
                    else if |old(queue)| < 8 then at == Parsing(o.rest) && queue == old(queue) + [Message(i, reply)]
                    else at == Blocked(reply, o.rest) && QueueKept())
      ensures SentBy(sent, i) + Pending(readers[i].at) + readers[i].lost == old(readers)[i].decoded
      ensures readers[i].lost != [] ==> closed
    {
      ReadersStayFramed(events);
      RunsConserve(events);
      ParseStep(i);
      Record(Advance(i));
      RunsConserve(events);
      assert ReaderInvariant(Contents(), i);
    }

    /**
     The suspended send completes. With room, its reply is now the last of the queue, which is
     still within its capacity; refused, that reply and all behind it are given up.
     */
    method SendDone(i: nat, refused: bool)
      requires Valid() && Enabled(Contents(), if refused then Refuse(i) else Unblock(i))
      modifies this
      ensures var e := if refused then Refuse(i) else Unblock(i);
              Valid() && events == old(events) + [e] && Contents() == Apply(old(Contents()), e)
      ensures OnlyMoves(i) && latch == old(latch) && received == old(received) && |queue| <= 8
      ensures readers[i].at == if refused then Refused else Parsing(old(readers)[i].at.rest)
      ensures SentBy(sent, i) + Pending(readers[i].at) + readers[i].lost == old(readers)[i].decoded
      ensures !refused ==> queue != [] && Front(queue) == old(queue) && readers[i].lost == []
      ensures !refused ==> [Latest(queue).reply] + Pending(readers[i].at) == Pending(old(readers)[i].at)
      ensures refused ==> closed && queue == old(queue) && readers[i].lost == Pending(old(readers)[i].at)
    {
      RunsConserve(events);
      assert ReaderInvariant(Contents(), i);
      var at := readers[i].at;
      if refused {
        GiveUp(i, at.reply, at.rest);
      } else {
        Push(i, at.reply, at.rest);
        AppendedEvent(old(queue), Message(i, at.reply));
      }
      Record(if refused then Refuse(i) else Unblock(i));
      RunsConserve(events);
      assert ReaderInvariant(Contents(), i);
    }

    method BreakOut(i: nat)
      requires Valid() && Enabled(Contents(), Leave(i))
      modifies this
      ensures Valid() && events == old(events) + [Leave(i)] && Contents() == Apply(old(Contents()), Leave(i))
      ensures OnlyMoves(i) && QueueKept() && readers[i].at == Left && latch == 0
    {
      CountDown(i);
      assert readers[i].at.Left?;
      Record(Leave(i));
      RunsKeepLifeCycle(events);
    }

    /**
     `read`, once its receive completes. The n-th reply it hands out is the n-th of all replies
     decoded, if start was not called again; it fails only when a stop has closed the queue and
     all that was sent has been received.
     */
    method Read() returns (reply: Option<ReplyData>)
      requires Valid() && (Enabled(Contents(), Receive) || Enabled(Contents(), ReceiveFailed))
      modifies this
      ensures var e := if reply.Some? then Receive else ReceiveFailed;
              Valid() && events == old(events) + [e] && Enabled(old(Contents()), e) &&
              Contents() == Apply(old(Contents()), e)
      ensures readers == old(readers) && readMessages == old(readMessages) && latch == old(latch)
      ensures closed == old(closed) && stops == old(stops)
      ensures reply.Some? ==> reply.value == old(queue)[0].reply && queue == old(queue)[1..]
      ensures reply.Some? && StartedOnce() ==>
                |old(received)| < |AllDecoded(events)| && reply.value == AllDecoded(events)[|old(received)|]
      ensures reply.None? ==> StopCall in events && received == sent && Contents() == old(Contents())
    {
      if queue == [] {
        FailedReadIsDrained(events);
        Record(ReceiveFailed);
        return None;
      }
      reply := Some(queue[0].reply);
      received := received + [queue[0]];
      queue := queue[1..];
      Record(Receive);
      if StartedOnce() {
        Delivery(events);
        RepliesOfAt(received, |received| - 1);
      }
    }
  }
}
