/** redis/subscriber.cpp: whether a waiting `stop` can still return, exactly. */
module Stopping {
  import opened Reply
  import opened Runs
  import opened Subscriber
  import opened SubscriberLaws

  /** A reader that can never leave its loop: dead, or about to decode a message that throws. */
  predicate Doomed(at: Place) {
    match at
    case Died => true
    case Parsing(rest) => rest != [] && !Parse(rest).Parsed?
    case _ => false
  }

  predicate AllDoomed(s: State) { forall i :: 0 <= i < |s.readers| ==> Doomed(s.readers[i].at) }

  predicate AllDead(s: State) { forall i :: 0 <= i < |s.readers| ==> s.readers[i].at.Died? }

  // ---- Doomed readers block every stop ----

  lemma DoomedReadersStay(s: State, e: Event)
    requires Enabled(s, e) && |Apply(s, e).readers| == |s.readers|
    ensures AllDoomed(s) ==> AllDoomed(Apply(s, e))
    ensures AllDead(s) ==> AllDead(Apply(s, e))
  {
  }

  /**
   When no reader is left that could leave its loop, or none was ever started, then however the
   run goes on, and until a new reader is started, the latch stays up and no stop ever
   disconnects; and readers that have died stay dead.
   */
  lemma {:induction false} DoomedReadersBlockStop(events: seq<Event>, more: seq<Event>)
    requires Valid(events) && Valid(events + more) && AllDoomed(Reached(events))
    requires |Reached(events + more).readers| == |Reached(events).readers|
    ensures AllDoomed(Reached(events + more))
    ensures AllDead(Reached(events)) ==> AllDead(Reached(events + more))
    ensures Reached(events + more).latch == 1 && Disconnected !in Reached(events + more).stops
  {
    RunsKeepLifeCycle(events + more);
    if more == [] {
      assert events + more == events;
    } else {
      var before := events + Front(more);
      assert Front(events + more) == before;
      ContinuedRun(events, Front(more));
      ReadersOnlyGrow(Reached(before), Latest(events + more));
      DoomedReadersBlockStop(events, Front(more));
      DoomedReadersStay(Reached(before), Latest(events + more));
    }
  }

  // ---- Any other reader can let it pass ----

  /** How many moves a reader of a closed queue is away from the place behind its loop. */
  function Distance(at: Place): nat {
    match at
    case AtLoop => 3
    case Connecting => 2
    case Reading => 1
    case Parsing(rest) => 4
    case Blocked(_, _) => 2
    case Refused => 1
    case Left => 0
    case Died => 0
  }

  /** A move of reader `i` towards that place: in a read, the one that is cancelled. */
  function WayOut(i: nat, at: Place): Event
    requires !Doomed(at) && !at.Left?
  {
    match at
    case AtLoop => Test(i)
    case Connecting => Connected(i)
    case Reading => ReadAborted(i)
    case Parsing(_) => Advance(i)
    case Blocked(_, _) => Refuse(i)
    case Refused => Leave(i)
  }

  lemma WayOutLeadsOut(s: State, i: nat)
    requires i < |s.readers| && s.closed && !Doomed(s.readers[i].at) && !s.readers[i].at.Left?
    ensures var e := WayOut(i, s.readers[i].at);
            && Enabled(s, e) && Apply(s, e).closed && |Apply(s, e).readers| == |s.readers|
            && Apply(s, e).stops == s.stops
            && !Doomed(Apply(s, e).readers[i].at)
            && Distance(Apply(s, e).readers[i].at) < Distance(s.readers[i].at)
  {
  }

  lemma {:induction false} ReaderCanLeave(events: seq<Event>, i: nat) returns (more: seq<Event>)
    requires Valid(events) && Reached(events).closed
    requires i < |Reached(events).readers| && !Doomed(Reached(events).readers[i].at)
    ensures Valid(events + more)
    ensures |Reached(events + more).readers| == |Reached(events).readers|
    ensures Reached(events + more).readers[i].at.Left? && Reached(events + more).stops == Reached(events).stops
    decreases Distance(Reached(events).readers[i].at)
  {
    var s := Reached(events);
    if s.readers[i].at.Left? {
      more := [];
      assert events + more == events;
    } else {
      var e := WayOut(i, s.readers[i].at);
      WayOutLeadsOut(s, i);
      RunExtends(events, e);
      var others := ReaderCanLeave(events + [e], i);
      more := [e] + others;
      assert events + more == events + [e] + others;
    }
  }

  // ---- Exactly ----

  /** Some continuation without a new reader in which stop `k` disconnects. */
  ghost predicate CanReturn(events: seq<Event>, k: nat)
    requires Valid(events)
  {
    exists more :: Returns(events, more, k)
  }

  predicate Returns(events: seq<Event>, more: seq<Event>, k: nat)
    requires Valid(events)
  {
    && Valid(events + more) && |Reached(events + more).readers| == |Reached(events).readers|
    && k < |Reached(events + more).stops| && Reached(events + more).stops[k] == Disconnected
  }

  lemma LeftLetsStopPass(events: seq<Event>, more: seq<Event>, i: nat, k: nat)
    requires Valid(events) && Valid(events + more)
    requires |Reached(events + more).readers| == |Reached(events).readers|
    requires i < |Reached(events).readers| && Reached(events + more).readers[i].at.Left?
    requires k < |Reached(events + more).stops|
    ensures CanReturn(events, k)
  {
    RunsKeepLifeCycle(events + more);
    var s := Reached(events + more);
    assert HasLeft(s);
    if s.stops[k] == Disconnected {
      assert Returns(events, more, k);
    } else {
      RunExtends(events + more, StopResume(k));
      assert events + (more + [StopResume(k)]) == events + more + [StopResume(k)];
      assert Returns(events, more + [StopResume(k)], k);
    }
  }

  /**
   Whether a stop returns, exactly: at any point of any run, a stop that was called can still come
   to its disconnect without a new reader if and only if some reader is neither dead nor about to
   decode a message that throws. Without any reader it never can.
   */
  lemma {:induction false} StopReturnsExactly(events: seq<Event>, k: nat)
    requires Valid(events) && k < |Reached(events).stops|
    ensures CanReturn(events, k) <==> !AllDoomed(Reached(events))
  {
    if CanReturn(events, k) && AllDoomed(Reached(events)) {
      var more :| Returns(events, more, k);
      DoomedReadersBlockStop(events, more);
    }
    if !AllDoomed(Reached(events)) {
      var i: nat :| i < |Reached(events).readers| && !Doomed(Reached(events).readers[i].at);
      RunsKeepLifeCycle(events);
      var more := ReaderCanLeave(events, i);
      LeftLetsStopPass(events, more, i, k);
    }
  }

  lemma StoppedRun(events: seq<Event>)
    requires Valid(events) && Reached(events) == Initial
    ensures Valid(events + [StopCall]) && Reached(events + [StopCall]) == Apply(Initial, StopCall)
    ensures AllDoomed(Reached(events + [StopCall])) && |Reached(events + [StopCall]).stops| == 1
  {
    RunExtends(events, StopCall);
  }

  /** A stop before any start: it waits for a latch that nobody will count down. */
  lemma StopBeforeStartWaits()
    ensures Valid([StopCall]) && |Reached([StopCall]).stops| == 1 && !CanReturn([StopCall], 0)
  {
    var none: seq<Event> := [];
    StoppedRun(none);
    var run := none + [StopCall];
    StopReturnsExactly(run, 0);
    assert run == [StopCall];
  }
}
