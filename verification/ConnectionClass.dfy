/** The class `redis_subscriber_connection`: the code of `get` and `async_connect` on its own fields. */
module ConnectionClass {
  import opened Runs
  import opened Connection

  class SubscriberConnection {
    var connected: bool
    var connecting: bool
    /** The coroutines inside `get`, each with its own place and attempt count. */
    var callers: seq<Caller>
    /** What has happened so far. */
    ghost var events: seq<Event>

    function Contents(): State
      reads this
    {
      State(connected, connecting, callers)
    }

    /** The object is in the state its run leads to, so that every law of runs holds of it. */
    ghost predicate Valid()
      reads this
    {
      Connection.Valid(events) && Reached(events) == Contents()
    }

    /** Caller `i` owns the flag, and nobody else does. */
    ghost predicate OwnedBy(i: nat)
      reads this
    {
      i < |callers| && Owns(callers[i].at) &&
      forall j :: 0 <= j < |callers| && Owns(callers[j].at) ==> j == i
    }

    /** The other callers stay where they are, and nobody comes or goes. */
    twostate predicate OnlyMoves(i: nat)
      reads this
    {
      |callers| == |old(callers)| && forall j :: 0 <= j < |callers| && j != i ==> callers[j] == old(callers)[j]
    }

    constructor ()
      ensures Valid() && events == [] && Contents() == Initial
    {
      connected, connecting, callers := false, false, [];
      events := [];
    }

    ghost method Record(e: Event)
      requires Connection.Valid(events) && Enabled(Reached(events), e) && Apply(Reached(events), e) == Contents()
      modifies `events
      ensures Valid() && events == old(events) + [e]
      ensures Front(events) == old(events) && Latest(events) == e
    {
      RunExtends(events, e);
      events := events + [e];
    }

    method Move(i: nat, at: Place)
      requires i < |callers|
      modifies `callers
      ensures Contents() == Moved(old(Contents()), i, at)
    {
      callers := callers[i := callers[i].(at := at)];
    }

    /** `compare_exchange_strong(false, true)` on the flag. */
    method CompareExchange() returns (won: bool)
      modifies `connecting
      ensures won == !old(connecting) && connecting
    {
      won := !connecting;
      if won {
        connecting := true;
      }
    }

    method Get() returns (i: nat)
      requires Valid()
      modifies this
      ensures Valid() && events == old(events) + [Call] && Contents() == Apply(old(Contents()), Call)
      ensures i == |old(callers)| && callers == old(callers) + [Caller(Entering, [])]
      ensures connected == old(connected) && connecting == old(connecting)
    {
      i := |callers|;
      callers := callers + [Caller(Entering, [])];
      Record(Call);
    }

    /** `get` returns at once exactly when it sees the connection up. */
    method LookAtConnection(i: nat)
      requires Valid() && Enabled(Contents(), Look(i))
      modifies this
      ensures Valid() && events == old(events) + [Look(i)] && Contents() == Apply(old(Contents()), Look(i))
      ensures OnlyMoves(i) && connected == old(connected) && connecting == old(connecting)
      ensures callers[i].at == if connected then Returned(WasConnected) else Claiming
      ensures callers[i].at.Returned? ==> SawConnected(events, Look(i))
    {
      if connected {
        Move(i, Returned(WasConnected));
      } else {
        Move(i, Claiming);
      }
      Record(Look(i));
    }

    /** One owner: the caller itself if and only if the flag was down, and somebody in any case. */
    method ClaimFlag(i: nat)
      requires Valid() && Enabled(Contents(), Claim(i))
      modifies this
      ensures Valid() && events == old(events) + [Claim(i)] && Contents() == Apply(old(Contents()), Claim(i))
      ensures OnlyMoves(i) && connecting && connected == old(connected)
      ensures callers[i].at == if old(connecting) then Waiting else FirstConnecting
      ensures OwnedBy(i) <==> !old(connecting)
      ensures exists j :: OwnedBy(j)
      ensures !OwnedBy(i) ==> forall j :: OwnedBy(j) ==> old(OwnedBy(j))
    {
      var won := CompareExchange();
      if won {
        Move(i, FirstConnecting);
      } else {
        Move(i, Waiting);
      }
      Record(Claim(i));
      RunsKeepExclusive(old(events));
      RunsKeepExclusive(events);
      var owner: nat :| owner < |callers| && Owns(callers[owner].at);
      assert OwnedBy(owner);
    }

    /**
     A socket connect completes, and with it the only one there was; the owner keeps the flag. The
     first one goes on to the loop whatever its result.
     */
    method ConnectDone(i: nat, result: Result)
      requires Valid() && i < |callers| && (callers[i].at.FirstConnecting? || callers[i].at.Retrying?)
      modifies this
      ensures var e := if old(callers)[i].at.FirstConnecting? then First(i, result) else Retry(i, result);
              Valid() && events == old(events) + [e] && Contents() == Apply(old(Contents()), e)
      ensures OwnedBy(i) && forall j :: 0 <= j < |callers| ==> !InSocketConnect(callers[j].at)
      ensures OnlyMoves(i) && callers[i].delays == old(callers)[i].delays
      ensures connected <==> old(connected) || result == Succeeded
      ensures connected <==> exists k :: UpSince(events, k)
      ensures callers[i].at ==
              if old(callers)[i].at.Retrying? && result == Aborted then Releasing(OwnerAborted)
              else Looping(|callers[i].delays| + 1)
    {
      ghost var e := if callers[i].at.FirstConnecting? then First(i, result) else Retry(i, result);
      var at := callers[i].at;
      if at.Retrying? && result == Aborted {
        Move(i, Releasing(OwnerAborted));
      } else {
        connected := connected || result == Succeeded;
        Move(i, Looping(if at.Retrying? then at.attempts else 1));
      }
      Record(e);
      RunsKeepExclusive(events);
      ConnectedExactly(events);
      BackOffCounts(events);
      assert Counting(callers[i]);
    }

    /** The owner either has seen the connection up, or backs off by the next attempt number. */
    method LoopHead(i: nat)
      requires Valid() && Enabled(Contents(), Loop(i))
      modifies this
      ensures Valid() && events == old(events) + [Loop(i)] && Contents() == Apply(old(Contents()), Loop(i))
      ensures OnlyMoves(i) && OwnedBy(i) && connected == old(connected)
      ensures connected ==> callers[i].at == Releasing(OwnerConnected) && SawConnected(events, Loop(i))
      ensures !connected ==>
                var n := |old(callers)[i].delays|;
                callers[i] == Caller(BackingOff(n + 2), old(callers)[i].delays + [n + 2])
    {
      BackOffCounts(events);
      assert Counting(callers[i]);
      if connected {
        Move(i, Releasing(OwnerConnected));
      } else {
        var attempts := callers[i].at.attempts;
        attempts := attempts + 1;
        callers := callers[i := Caller(BackingOff(attempts), callers[i].delays + [attempts])];
      }
      Record(Loop(i));
      RunsKeepExclusive(events);
    }

    /** After its back-off the owner connects again, and nobody else does. */
    method TimerDone(i: nat)
      requires Valid() && Enabled(Contents(), Timer(i))
      modifies this
      ensures Valid() && events == old(events) + [Timer(i)] && Contents() == Apply(old(Contents()), Timer(i))
      ensures OnlyMoves(i) && connected == old(connected) && connecting == old(connecting)
      ensures callers[i] == Caller(Retrying(|old(callers)[i].delays| + 1), old(callers)[i].delays)
      ensures forall j :: 0 <= j < |callers| && InSocketConnect(callers[j].at) ==> j == i
    {
      BackOffCounts(events);
      assert Counting(callers[i]);
      Move(i, Retrying(callers[i].at.attempts));
      Record(Timer(i));
      SingleFlight(events);
      assert InSocketConnect(callers[i].at);
    }

    /**
     Nobody owns the flag any more. A caller that returns without an abort has seen the connection
     up, and a waiter is left behind only when the connection is down.
     */
    method ReleaseFlag(i: nat)
      requires Valid() && Enabled(Contents(), Release(i))
      modifies this
      ensures Valid() && events == old(events) + [Release(i)] && Contents() == Apply(old(Contents()), Release(i))
      ensures OnlyMoves(i) && connected == old(connected)
      ensures !connecting && forall j :: 0 <= j < |callers| ==> !Owns(callers[j].at)
      ensures callers[i].at == Returned(OwnerAborted) ||
              (callers[i].at == Returned(OwnerConnected) && SawConnected(events, Loop(i)))
      ensures Orphaned(Contents()) <==> SomeoneWaits(old(Contents())) && !connected
      ensures Undisturbed(events) ==> connected || !SomeoneWaits(Contents())
    {
      SuccessSawConnected(events);
      assert Justified(events, i, callers[i].at);
      WaitersStay(Contents(), Release(i));
      connecting := false;
      Move(i, Returned(callers[i].at.ending));
      Record(Release(i));
      RunsKeepExclusive(events);
      if Undisturbed(events) {
        UndisturbedNeverOrphans(events);
      }
    }

    /** The end of a wait is a look at a connection that is up. */
    method WaitDone(i: nat)
      requires Valid() && Enabled(Contents(), WaitOver(i))
      modifies this
      ensures Valid() && events == old(events) + [WaitOver(i)] && Contents() == Apply(old(Contents()), WaitOver(i))
      ensures OnlyMoves(i) && connected && connecting == old(connecting)
      ensures callers[i].at == Returned(WaiterConnected) && SawConnected(events, WaitOver(i))
    {
      Move(i, Returned(WaiterConnected));
      Record(WaitOver(i));
    }

    /** The connection comes up by itself. */
    method ComeUp()
      requires Valid()
      modifies this
      ensures Valid() && events == old(events) + [Up] && Contents() == Apply(old(Contents()), Up)
      ensures connected && connecting == old(connecting) && callers == old(callers)
    {
      connected := true;
      Record(Up);
    }

    /** The connection is lost: waiters are orphaned unless somebody owns the flag. */
    method BeDropped()
      requires Valid()
      modifies this
      ensures Valid() && events == old(events) + [Drop] && Contents() == Apply(old(Contents()), Drop)
      ensures !connected && connecting == old(connecting) && callers == old(callers)
      ensures Orphaned(Contents()) <==> SomeoneWaits(Contents()) && !exists j :: OwnedBy(j)
    {
      connected := false;
      Record(Drop);
      RunsKeepExclusive(events);
      if connecting {
        var owner: nat :| owner < |callers| && Owns(callers[owner].at);
        assert OwnedBy(owner);
      }
    }
  }
}
