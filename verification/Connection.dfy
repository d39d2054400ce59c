/**
 redis/subscriber_connection.cpp: any number of callers of `get` share one connection, and an
 atomic flag lets one of them connect. Every read or write of shared state is an event of its own.
 */
module Connection {
  import opened Runs

  /** How a caller's `get` ended. */
  datatype Ending = WasConnected | OwnerConnected | OwnerAborted | WaiterConnected

  datatype Place =
    | Entering                        // in `get`, about to look at the connection
    | Claiming                        // about to compare and swap the flag
    | Waiting                         // the flag was taken: waits for the connection
    | FirstConnecting                 // owner, in the first socket connect
    | Looping(attempts: nat)          // owner, at the head of the retry loop
    | BackingOff(attempts: nat)       // owner, waiting for its timer
    | Retrying(attempts: nat)         // owner, in a later socket connect
    | Releasing(ending: Ending)       // owner, about to clear the flag
    | Returned(ending: Ending)

  /** A caller, with the attempt numbers of its back-offs so far. */
  datatype Caller = Caller(at: Place, delays: seq<nat>)

  datatype State = State(connected: bool, connecting: bool, callers: seq<Caller>)

  const Initial := State(false, false, [])

  datatype Result = Succeeded | Failed | Aborted

  /** `Up` and `Drop` are the connection's own doing. */
  datatype Event =
    | Call
    | Look(i: nat)
    | Claim(i: nat)
    | First(i: nat, result: Result)
    | Loop(i: nat)
    | Timer(i: nat)
    | Retry(i: nat, result: Result)
    | Release(i: nat)
    | WaitOver(i: nat)
    | Up
    | Drop

  predicate Enabled(s: State, e: Event) {
    match e
    case Call => true
    case Look(i) => i < |s.callers| && s.callers[i].at.Entering?
    case Claim(i) => i < |s.callers| && s.callers[i].at.Claiming?
    case First(i, _) => i < |s.callers| && s.callers[i].at.FirstConnecting?
    case Loop(i) => i < |s.callers| && s.callers[i].at.Looping?
    case Timer(i) => i < |s.callers| && s.callers[i].at.BackingOff?
    case Retry(i, _) => i < |s.callers| && s.callers[i].at.Retrying?
    case Release(i) => i < |s.callers| && s.callers[i].at.Releasing?
    case WaitOver(i) => i < |s.callers| && s.callers[i].at.Waiting? && s.connected
    case Up => true
    case Drop => true
  }

  function Moved(s: State, i: nat, at: Place): State
    requires i < |s.callers|
  {
    s.(callers := s.callers[i := s.callers[i].(at := at)])
  }

  function Apply(s: State, e: Event): State
    requires Enabled(s, e)
  {
    match e
    case Call => s.(callers := s.callers + [Caller(Entering, [])])
    case Look(i) => Moved(s, i, if s.connected then Returned(WasConnected) else Claiming)
    case Claim(i) =>
      if s.connecting then Moved(s, i, Waiting) else Moved(s, i, FirstConnecting).(connecting := true)
    case First(i, result) => Moved(s, i, Looping(1)).(connected := s.connected || result == Succeeded)
    case Loop(i) =>
      if s.connected then Moved(s, i, Releasing(OwnerConnected))
      else
        var attempts := s.callers[i].at.attempts + 1;
        s.(callers := s.callers[i := Caller(BackingOff(attempts), s.callers[i].delays + [attempts])])
    case Timer(i) => Moved(s, i, Retrying(s.callers[i].at.attempts))
    case Retry(i, result) =>
      if result == Aborted then Moved(s, i, Releasing(OwnerAborted))
      else Moved(s, i, Looping(s.callers[i].at.attempts)).(connected := s.connected || result == Succeeded)
    case Release(i) => Moved(s, i, Returned(s.callers[i].at.ending)).(connecting := false)
    case WaitOver(i) => Moved(s, i, Returned(WaiterConnected))
    case Up => s.(connected := true)
    case Drop => s.(connected := false)
  }

  predicate Valid(events: seq<Event>)
    decreases |events|, 0
  {
    events == [] || (Valid(Front(events)) && Enabled(Reached(Front(events)), Latest(events)))
  }

  function Reached(events: seq<Event>): State
    requires Valid(events)
    decreases |events|, 1
  {
    if events == [] then Initial else Apply(Reached(Front(events)), Latest(events))
  }

  lemma RunExtends(events: seq<Event>, e: Event)
    requires Valid(events) && Enabled(Reached(events), e)
    ensures Front(events + [e]) == events && Latest(events + [e]) == e
    ensures Valid(events + [e]) && Reached(events + [e]) == Apply(Reached(events), e)
  {
    AppendedEvent(events, e);
  }

  // ---- Single flight ----

  /** Between winning the compare-and-swap and clearing the flag. */
  predicate Owns(at: Place) {
    at.FirstConnecting? || at.Looping? || at.BackingOff? || at.Retrying? || at.Releasing?
  }

  predicate InSocketConnect(at: Place) { at.FirstConnecting? || at.Retrying? }

  ghost predicate Exclusive(s: State) {
    && (s.connecting <==> exists i :: 0 <= i < |s.callers| && Owns(s.callers[i].at))
    && forall i, j | 0 <= i < |s.callers| && 0 <= j < |s.callers| ::
         Owns(s.callers[i].at) && Owns(s.callers[j].at) ==> i == j
  }

  /** A caller's move that keeps whether it owns the flag, with the flag as it was. */
  lemma ExclusiveMove(s: State, s': State, i: nat)
    requires Exclusive(s) && i < |s.callers| && s'.connecting == s.connecting
    requires |s'.callers| == |s.callers| && s'.callers == s.callers[i := s'.callers[i]]
    requires Owns(s'.callers[i].at) <==> Owns(s.callers[i].at)
    ensures Exclusive(s')
  {
    assert forall j :: 0 <= j < |s.callers| ==> (Owns(s'.callers[j].at) <==> Owns(s.callers[j].at));
    if s.connecting {
      var j :| 0 <= j < |s.callers| && Owns(s.callers[j].at);
      assert Owns(s'.callers[j].at);
    }
  }

  lemma CallKeepsExclusive(s: State)
    requires Exclusive(s)
    ensures Exclusive(Apply(s, Call))
  {
    if s.connecting {
      var j :| 0 <= j < |s.callers| && Owns(s.callers[j].at);
      assert Owns(Apply(s, Call).callers[j].at);
    }
  }

  lemma ClaimKeepsExclusive(s: State, i: nat)
    requires Exclusive(s) && Enabled(s, Claim(i))
    ensures Exclusive(Apply(s, Claim(i)))
  {
    if s.connecting {
      ExclusiveMove(s, Apply(s, Claim(i)), i);
    } else {
      assert Owns(Apply(s, Claim(i)).callers[i].at);
    }
  }

  lemma EventKeepsExclusive(s: State, e: Event)
    requires Exclusive(s) && Enabled(s, e)
    ensures Exclusive(Apply(s, e))
  {
    var s' := Apply(s, e);
    match e
    case Call => CallKeepsExclusive(s);
    case Claim(i) => ClaimKeepsExclusive(s, i);
    case Release(i) =>
      assert Owns(s.callers[i].at);
    case Look(i) => ExclusiveMove(s, s', i);
    case First(i, _) => ExclusiveMove(s, s', i);
    case Loop(i) => ExclusiveMove(s, s', i);
    case Timer(i) => ExclusiveMove(s, s', i);
    case Retry(i, _) => ExclusiveMove(s, s', i);
    case WaitOver(i) => ExclusiveMove(s, s', i);
    case Up =>
    case Drop =>
  }

  lemma {:induction false} RunsKeepExclusive(events: seq<Event>)
    requires Valid(events)
    ensures Exclusive(Reached(events))
  {
    if events != [] {
      RunsKeepExclusive(Front(events));
      EventKeepsExclusive(Reached(Front(events)), Latest(events));
    }
  }

  /**
   In every interleaving: the flag is up exactly while one caller is between winning it and
   clearing it, that caller is the only one, and so two socket connects never overlap.
   */
  lemma {:induction false} SingleFlight(events: seq<Event>)
    requires Valid(events)
    ensures var s := Reached(events);
            && (s.connecting <==> exists i :: 0 <= i < |s.callers| && Owns(s.callers[i].at))
            && (forall i, j | 0 <= i < |s.callers| && 0 <= j < |s.callers| ::
                  Owns(s.callers[i].at) && Owns(s.callers[j].at) ==> i == j)
            && (forall i, j | 0 <= i < |s.callers| && 0 <= j < |s.callers| ::
                  InSocketConnect(s.callers[i].at) && InSocketConnect(s.callers[j].at) ==> i == j)
  {
    RunsKeepExclusive(events);
  }

  // ---- Back-off ----

  ghost predicate Counting(c: Caller) {
    && (forall k :: 0 <= k < |c.delays| ==> c.delays[k] == k + 2)
    && (c.at.Looping? || c.at.BackingOff? || c.at.Retrying? ==> c.at.attempts == |c.delays| + 1)
    && (c.at.Entering? || c.at.Claiming? || c.at.Waiting? || c.at.FirstConnecting? ==> c.delays == [])
  }

  lemma CountingStep(s: State, e: Event, i: nat)
    requires Enabled(s, e) && i < |s.callers| && Counting(s.callers[i])
    ensures Counting(Apply(s, e).callers[i])
  {
  }

  /**
   The back-offs of every caller use the attempt numbers 2, 3, 4 and so on: strictly increasing,
   with none left out or repeated, whatever the other callers do.
   */
  lemma {:induction false} BackOffCounts(events: seq<Event>)
    requires Valid(events)
    ensures forall i :: 0 <= i < |Reached(events).callers| ==> Counting(Reached(events).callers[i])
  {
    if events != [] {
      var before, s := Reached(Front(events)), Reached(events);
      BackOffCounts(Front(events));
      forall i | 0 <= i < |s.callers| ensures Counting(s.callers[i]) {
        if i < |before.callers| {
          CountingStep(before, Latest(events), i);
        }
      }
    }
  }

  // ---- What a successful return means ----

  /** At some point of the run, caller `i` did `look` while the connection was up. */
  predicate SawConnected(events: seq<Event>, look: Event)
    requires Valid(events)
  {
    events != [] &&
    (SawConnected(Front(events), look) || (Latest(events) == look && Reached(Front(events)).connected))
  }

  ghost predicate Justified(events: seq<Event>, i: nat, at: Place)
    requires Valid(events)
  {
    match at
    case Releasing(ending) => ending == OwnerAborted || (ending == OwnerConnected && SawConnected(events, Loop(i)))
    case Returned(WasConnected) => SawConnected(events, Look(i))
    case Returned(OwnerConnected) => SawConnected(events, Loop(i))
    case Returned(WaiterConnected) => SawConnected(events, WaitOver(i))
    case _ => true
  }

  /**
   Every caller that returns without an abort has itself seen the connection up: on entering, in
   the retry loop as the owner, or at the end of its wait.
   */
  lemma {:induction false} SuccessSawConnected(events: seq<Event>)
    requires Valid(events)
    ensures forall i :: 0 <= i < |Reached(events).callers| ==> Justified(events, i, Reached(events).callers[i].at)
  {
    if events != [] {
      SuccessSawConnected(Front(events));
      var before, s := Reached(Front(events)), Reached(events);
      forall i | 0 <= i < |s.callers| ensures Justified(events, i, s.callers[i].at) {
        if i < |before.callers| {
          assert Justified(Front(events), i, before.callers[i].at);
        }
      }
    }
  }

  // ---- When the connection is up ----

  /** A socket connect that succeeds, or the connection coming up by itself. */
  predicate BringsUp(e: Event) {
    match e
    case First(_, result) => result == Succeeded
    case Retry(_, result) => result == Succeeded
    case Up => true
    case _ => false
  }

  predicate UpSince(events: seq<Event>, k: nat) {
    k < |events| && BringsUp(events[k]) && Drop !in events[k + 1..]
  }

  /** One event more: it brings the connection up, or it is up since before and does not drop. */
  lemma UpSinceStep(events: seq<Event>, e: Event)
    ensures (exists k :: UpSince(events + [e], k)) <==>
            BringsUp(e) || (e != Drop && exists k :: UpSince(events, k))
  {
    var all := events + [e];
    assert all[|events|] == e && all[|events| + 1..] == [];
    assert UpSince(all, |events|) <==> BringsUp(e);
    forall k: nat | k < |events| ensures UpSince(all, k) <==> UpSince(events, k) && e != Drop {
      assert all[k + 1..] == events[k + 1..] + [e];
    }
    if k: nat :| UpSince(all, k) {
      assert k == |events| || UpSince(events, k);
    }
    if k: nat :| UpSince(events, k) {
      assert UpSince(all, k) <==> e != Drop;
    }
  }

  /**
   The connection is up, exactly: at any point of any run it is if and only if at some step a
   socket connect succeeded or it came up by itself, and it has not been lost since. A connect
   that failed or was aborted never brings it up, and nothing but a loss takes it down.
   */
  lemma {:induction false} ConnectedExactly(events: seq<Event>)
    requires Valid(events)
    ensures Reached(events).connected <==> exists k :: UpSince(events, k)
  {
    if events != [] {
      var front, e := Front(events), Latest(events);
      ConnectedExactly(front);
      UpSinceStep(front, e);
      assert events == front + [e];
      assert Reached(events).connected <==> BringsUp(e) || (e != Drop && Reached(front).connected);
    }
  }

  lemma {:induction false} SawMeansUp(events: seq<Event>, look: Event)
    requires Valid(events) && SawConnected(events, look)
    ensures exists e :: e in events && BringsUp(e)
  {
    var front := Front(events);
    assert events == front + [Latest(events)];
    if SawConnected(front, look) {
      SawMeansUp(front, look);
    } else {
      ConnectedExactly(front);
      var k: nat :| UpSince(front, k);
      assert events[k] in events;
    }
  }

  /** Nobody's `get` ends without an abort before some connect has succeeded. */
  lemma {:induction false} SuccessNeedsConnection(events: seq<Event>)
    requires Valid(events)
    ensures forall i :: 0 <= i < |Reached(events).callers| && Reached(events).callers[i].at.Returned? &&
                        Reached(events).callers[i].at.ending != OwnerAborted ==>
              exists e :: e in events && BringsUp(e)
  {
    SuccessSawConnected(events);
    var s := Reached(events);
    forall i | 0 <= i < |s.callers| && s.callers[i].at.Returned? && s.callers[i].at.ending != OwnerAborted
      ensures exists e :: e in events && BringsUp(e)
    {
      assert Justified(events, i, s.callers[i].at);
      match s.callers[i].at.ending
      case WasConnected => SawMeansUp(events, Look(i));
      case OwnerConnected => SawMeansUp(events, Loop(i));
      case WaiterConnected => SawMeansUp(events, WaitOver(i));
    }
  }

  // ---- What a waiter can rely on ----

  predicate SomeoneWaits(s: State) { exists i :: 0 <= i < |s.callers| && s.callers[i].at.Waiting? }

  /** A caller waits for a connection that is not up and that nobody is making. */
  predicate Orphaned(s: State) { !s.connected && !s.connecting && SomeoneWaits(s) }

  /** The steps that leave a waiter behind: the connection drops unowned, or its owner goes without it. */
  predicate Abandons(s: State, e: Event) {
    SomeoneWaits(s) && ((e == Drop && !s.connecting) || (e.Release? && !s.connected))
  }

  lemma WaitersStay(s: State, e: Event)
    requires Enabled(s, e) && !e.WaitOver?
    ensures SomeoneWaits(s) ==> SomeoneWaits(Apply(s, e))
    ensures SomeoneWaits(Apply(s, e)) ==> SomeoneWaits(s) || Apply(s, e).connecting
  {
    var s' := Apply(s, e);
    if SomeoneWaits(s) {
      var i :| 0 <= i < |s.callers| && s.callers[i].at.Waiting?;
      assert s'.callers[i].at.Waiting?;
    }
    if SomeoneWaits(s') && !s'.connecting {
      var i :| 0 <= i < |s'.callers| && s'.callers[i].at.Waiting?;
      assert s.callers[i].at.Waiting?;
    }
  }

  /** From a state without orphans, exactly these steps make one. */
  lemma OrphanedByStep(s: State, e: Event)
    requires Enabled(s, e) && !Orphaned(s)
    ensures Orphaned(Apply(s, e)) <==> Abandons(s, e)
  {
    if !e.WaitOver? {
      WaitersStay(s, e);
    }
  }

  predicate OnceOrphaned(events: seq<Event>)
    requires Valid(events)
  {
    Orphaned(Reached(events)) || (events != [] && OnceOrphaned(Front(events)))
  }

  predicate OnceAbandoned(events: seq<Event>)
    requires Valid(events)
  {
    events != [] && (OnceAbandoned(Front(events)) || Abandons(Reached(Front(events)), Latest(events)))
  }

  /**
   Orphans, exactly: a run has a state in which a caller waits for a connection nobody is making
   if and only if it has a step at which, with a caller waiting, the connection drops while
   nobody owns the flag, or an owner clears the flag while the connection is down.
   */
  lemma {:induction false} OrphanedExactly(events: seq<Event>)
    requires Valid(events)
    ensures OnceOrphaned(events) <==> OnceAbandoned(events)
  {
    if events != [] {
      var before, e := Reached(Front(events)), Latest(events);
      OrphanedExactly(Front(events));
      if !Orphaned(before) {
        OrphanedByStep(before, e);
      }
    }
  }

  /** The connection is never lost, and no later socket connect of an owner is aborted. */
  predicate Undisturbed(events: seq<Event>) {
    events == [] ||
    (Undisturbed(Front(events)) && Latest(events) != Drop &&
     !(Latest(events).Retry? && Latest(events).result == Aborted))
  }

  ghost predicate ReleasesConnected(s: State) {
    forall i :: 0 <= i < |s.callers| && s.callers[i].at.Releasing? ==> s.connected
  }

  /** In every undisturbed run a waiter's connection is up or being made. */
  lemma {:induction false} UndisturbedNeverOrphans(events: seq<Event>)
    requires Valid(events) && Undisturbed(events)
    ensures SomeoneWaits(Reached(events)) ==> Reached(events).connected || Reached(events).connecting
    ensures ReleasesConnected(Reached(events))
  {
    if events != [] {
      UndisturbedNeverOrphans(Front(events));
      OrphanedByStep(Reached(Front(events)), Latest(events));
    }
  }

  /** An orphaned state with nobody left to claim the flag. */
  predicate Stranded(s: State) {
    Orphaned(s) && forall i :: 0 <= i < |s.callers| ==> s.callers[i].at.Waiting? || s.callers[i].at.Returned?
  }

  lemma StrandedStep(s: State, e: Event)
    requires Stranded(s) && Enabled(s, e) && e != Call && e != Up
    ensures Apply(s, e) == s
  {
  }

  /**
   However a run goes on from a stranded state, it stays in that very state until a new caller
   arrives or the connection comes up by itself.
   */
  lemma {:induction false} StrandedStays(events: seq<Event>, more: seq<Event>)
    requires Valid(events) && Valid(events + more) && Stranded(Reached(events))
    requires Call !in more && Up !in more
    ensures Reached(events + more) == Reached(events)
  {
    if more == [] {
      assert events + more == events;
    } else {
      var before := events + Front(more);
      assert Front(events + more) == before && Latest(events + more) == Latest(more);
      assert more == Front(more) + [Latest(more)];
      StrandedStays(events, Front(more));
      StrandedStep(Reached(before), Latest(more));
    }
  }

  /** `s` is reached by some run. */
  ghost predicate Reachable(s: State) { exists events :: Valid(events) && Reached(events) == s }

  lemma Step(s: State, e: Event)
    requires Reachable(s) && Enabled(s, e)
    ensures Reachable(Apply(s, e))
  {
    var events :| Valid(events) && Reached(events) == s;
    RunExtends(events, e);
  }

  lemma StartIsReachable()
    ensures Reachable(Initial)
  {
    var events: seq<Event> := [];
    assert Valid(events) && Reached(events) == Initial;
  }

  lemma FirstCaller()
    ensures Reachable(State(false, false, [Caller(Entering, [])]))
  {
    StartIsReachable();
    Step(Initial, Call);
    assert Initial.callers + [Caller(Entering, [])] == [Caller(Entering, [])];
  }

  lemma LooksAlone(s: State, c: Caller)
    requires Reachable(s) && !s.connected && s.callers == [c] && c.at.Entering?
    ensures Reachable(s.(callers := [c.(at := Claiming)]))
  {
    Step(s, Look(0));
    assert Apply(s, Look(0)) == s.(callers := [c.(at := Claiming)]);
  }

  lemma OneCaller()
    ensures Reachable(State(false, false, [Caller(Claiming, [])]))
  {
    FirstCaller();
    LooksAlone(State(false, false, [Caller(Entering, [])]), Caller(Entering, []));
  }

  lemma OneOwner()
    ensures Reachable(State(false, true, [Caller(FirstConnecting, [])]))
  {
    OneCaller();
    var s := State(false, false, [Caller(Claiming, [])]);
    Step(s, Claim(0));
    assert Apply(s, Claim(0)) == State(false, true, [Caller(FirstConnecting, [])]);
  }

  lemma SecondCaller()
    ensures Reachable(State(false, true, [Caller(FirstConnecting, []), Caller(Entering, [])]))
  {
    OneOwner();
    var s := State(false, true, [Caller(FirstConnecting, [])]);
    Step(s, Call);
    assert Apply(s, Call) == State(false, true, [Caller(FirstConnecting, []), Caller(Entering, [])]);
  }

  /** The first caller owns the flag and the second has lost the swap to it. */
  lemma OwnerAndWaiter()
    ensures Reachable(State(false, true, [Caller(FirstConnecting, []), Caller(Waiting, [])]))
  {
    SecondCaller();
    var owner := Caller(FirstConnecting, []);
    var s0 := State(false, true, [owner, Caller(Entering, [])]);
    Step(s0, Look(1));
    var s1 := State(false, true, [owner, Caller(Claiming, [])]);
    assert Apply(s0, Look(1)) == s1;
    Step(s1, Claim(1));
    assert Apply(s1, Claim(1)) == State(false, true, [owner, Caller(Waiting, [])]);
  }

  lemma OwnerRetries()
    ensures Reachable(State(false, true, [Caller(Retrying(2), [2]), Caller(Waiting, [])]))
  {
    OwnerAndWaiter();
    var w := Caller(Waiting, []);
    var s0 := State(false, true, [Caller(FirstConnecting, []), w]);
    Step(s0, First(0, Failed));
    var s1 := State(false, true, [Caller(Looping(1), []), w]);
    assert Apply(s0, First(0, Failed)) == s1;
    Step(s1, Loop(0));
    var s2 := State(false, true, [Caller(BackingOff(2), [2]), w]);
    assert s1.callers[0].delays + [2] == [2];
    assert Apply(s1, Loop(0)) == s2;
    Step(s2, Timer(0));
    assert Apply(s2, Timer(0)) == State(false, true, [Caller(Retrying(2), [2]), w]);
  }

  /** A caller stranded behind an owner that has returned with `ending`. */
  predicate StrandedBehind(s: State, ending: Ending) {
    Stranded(s) && |s.callers| == 2 && s.callers[0].at == Returned(ending) && s.callers[1].at.Waiting?
  }

  /** An aborted owner clears the flag but does not wake those who lost the swap to it. */
  lemma AbortStrandsWaiter()
    ensures exists s :: Reachable(s) && StrandedBehind(s, OwnerAborted)
  {
    OwnerRetries();
    var w := Caller(Waiting, []);
    var s0 := State(false, true, [Caller(Retrying(2), [2]), w]);
    Step(s0, Retry(0, Aborted));
    var s1 := State(false, true, [Caller(Releasing(OwnerAborted), [2]), w]);
    assert Apply(s0, Retry(0, Aborted)) == s1;
    Step(s1, Release(0));
    var s2 := State(false, false, [Caller(Returned(OwnerAborted), [2]), w]);
    assert Apply(s1, Release(0)) == s2;
    assert StrandedBehind(s2, OwnerAborted) by {
      assert s2.callers[1].at.Waiting?;
    }
  }

  /** Nor does it help a waiter that its owner succeeded, when the connection drops before it looks. */
  lemma DropStrandsWaiter()
    ensures exists s :: Reachable(s) && StrandedBehind(s, OwnerConnected)
  {
    OwnerAndWaiter();
    var w := Caller(Waiting, []);
    var s0 := State(false, true, [Caller(FirstConnecting, []), w]);
    Step(s0, First(0, Succeeded));
    var s1 := State(true, true, [Caller(Looping(1), []), w]);
    assert Apply(s0, First(0, Succeeded)) == s1;
    Step(s1, Loop(0));
    var s2 := State(true, true, [Caller(Releasing(OwnerConnected), []), w]);
    assert Apply(s1, Loop(0)) == s2;
    Step(s2, Release(0));
    var s3 := State(true, false, [Caller(Returned(OwnerConnected), []), w]);
    assert Apply(s2, Release(0)) == s3;
    Step(s3, Drop);
    var s4 := s3.(connected := false);
    assert StrandedBehind(s4, OwnerConnected) by {
      assert s4.callers[1].at.Waiting?;
    }
  }
}
