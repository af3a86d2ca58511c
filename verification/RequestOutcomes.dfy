/** What becomes of a request: the outcome each step gives it, and how a request is served from its submission to its
    response. */
module RequestOutcomes {
  import opened Decimal
  import opened RequestActor
  import opened RequestRuns

  // ----- the outcome of one step

  /** The serial under which the next request would be sent: its own or a new one, if there is one. */
  function NextSerialFor(s: State): (k: Option<Serial>)
    requires s.queue != [] && s.queue[0].Request?
  {
    if s.queue[0].serial.Some? then s.queue[0].serial
    else if s.counter < U32_MAX then Some(s.counter + 1) else None
  }

  ghost predicate NextIs(s: State, id: RequestId) {
    s.queue != [] && s.queue[0].Request? && s.queue[0].id == id
  }

  /** The steps that end the connection. */
  ghost predicate Ends(s: State, e: Event) {
    match e
    case TakeCommand(writeOk) =>
      s.queue != [] && (s.queue[0].Shutdown? || !writeOk || NextSerialFor(s).None?)
    case ReceiveBroken => true
    case KeepAlive(writeOk) => !writeOk || s.counter == U32_MAX
    case _ => false
  }

  lemma EndsExactly(s: State, e: Event)
    requires s.counter < WRAP && s.alive
    ensures !Apply(s, e).alive <==> Ends(s, e)
  {
  }

  lemma ExitOutcome(s: State, id: RequestId)
    requires id in s.status && s.status[id].Waiting? && id in s.pending.Values + QueuedIds(s.queue)
    ensures id in Exit(s).status && Exit(s).status[id] == Failed(ActorGone)
  {
    hide QueuedIds;
  }

  lemma ExitKeeps(s: State, id: RequestId)
    requires id in s.status && !s.status[id].Waiting?
    ensures id in Exit(s).status && Exit(s).status[id] == s.status[id]
  {
    hide QueuedIds;
  }

  /** What a step makes of a waiting request. */
  ghost function Outcome(s: State, e: Event, id: RequestId): (r: Status) {
    if e == Expire(id) then TimedOut
    else if e.ReceiveResponse? && e.serial in s.pending && s.pending[e.serial] == id then Done(e.serial, e.body)
    else if e == TakeCommand(false) && NextIs(s, id) && NextSerialFor(s).Some? then Failed(Io)
    else if Ends(s, e) then Failed(ActorGone)
    else Waiting
  }

  lemma SendOutcome(s: State, id: RequestId, serial: Serial, writeOk: bool, other: RequestId)
    requires id in s.status && s.status[id].Waiting? && serial !in s.pending
    requires other in s.status && s.status[other].Waiting?
    requires other == id || other in s.pending.Values + QueuedIds(s.queue)
    ensures var s' := SendOut(s, id, serial, writeOk);
            other in s'.status && s'.status[other] ==
              if writeOk then Waiting else if other == id then Failed(Io) else Failed(ActorGone)
  {
    hide QueuedIds;
    hide Exit;
    if !writeOk {
      var u := Unregister(Register(s, id, serial), id, serial);
      assert u.pending == s.pending;
      if other == id { ExitKeeps(u, id); } else { ExitOutcome(u, other); }
    }
  }

  lemma StillHeld(s: State, id: RequestId)
    requires s.queue != [] && id in s.pending.Values + QueuedIds(s.queue)
    ensures NextIs(s, id) || id in s.pending.Values + QueuedIds(s.queue[1..])
  {
    hide QueuedIds;
    QueuedTail(s.queue);
  }

  lemma TakeOutcome(s: State, writeOk: bool, id: RequestId)
    requires Inv(s) && !s.overflowed && s.alive && s.queue != [] && id in s.status && s.status[id].Waiting?
    ensures id in Take(s, writeOk).status && Take(s, writeOk).status[id] == Outcome(s, TakeCommand(writeOk), id)
  {
    hide QueuedIds;
    hide SendOut;
    hide Exit;
    var rest := s.(queue := s.queue[1..]);
    StillHeld(s, id);
    match s.queue[0]
    case Shutdown => ExitOutcome(rest, id);
    case Request(head, given) =>
      HeadWaits(s, head);
      match NextSerialFor(s) {
        case None =>
          var out := rest.(counter := 0, overflowed := true, status := Settle(rest.status, head, Failed(ActorGone)));
          if id == head { if out.status[head].Waiting? { ExitOutcome(out, id); } else { ExitKeeps(out, id); } }
          else { ExitOutcome(out, id); }
        case Some(k) => SentOutcome(s, head, given, k, writeOk, id);
      }
  }

  lemma HeadWaits(s: State, head: RequestId)
    requires Inv(s) && NextIs(s, head)
    ensures head in s.status
  {
    assert s.queue[0].id in QueuedIds(s.queue);
  }

  /** A request may have timed out while it was queued; it is sent all the same. */
  lemma SentOutcome(s: State, head: RequestId, given: Option<Serial>, k: Serial, writeOk: bool, id: RequestId)
    requires Inv(s) && !s.overflowed && s.alive && s.queue != [] && s.queue[0] == Request(head, given)
    requires NextSerialFor(s) == Some(k) && head in s.status && id in s.status && s.status[id].Waiting?
    ensures id in Take(s, writeOk).status && Take(s, writeOk).status[id] == Outcome(s, TakeCommand(writeOk), id)
  {
    hide QueuedIds;
    hide SendOut;
    hide Exit;
    StillHeld(s, id);
    var rest := s.(queue := s.queue[1..]);
    var t := if given.Some? then rest else rest.(counter := s.counter + 1, owner := s.owner[k := head]);
    assert (s.counter + 1) % WRAP == s.counter + 1 || given.Some?;
    assert Take(s, writeOk) == SendOut(t, head, k, writeOk);
    FreeSerial(s);
    if s.status[head].Waiting? {
      SendOutcome(t, head, k, writeOk, id);
    } else {
      SendExpired(t, head, k, writeOk, id);
    }
  }

  lemma FreeSerial(s: State)
    requires Inv(s) && !s.overflowed && s.queue != [] && s.queue[0].Request?
    ensures NextSerialFor(s).Some? ==> NextSerialFor(s).value !in s.pending
  {
  }

  lemma SendExpired(s: State, id: RequestId, serial: Serial, writeOk: bool, other: RequestId)
    requires id in s.status && !s.status[id].Waiting? && serial !in s.pending
    requires other in s.status && s.status[other].Waiting? && other in s.pending.Values + QueuedIds(s.queue)
    ensures var s' := SendOut(s, id, serial, writeOk);
            other in s'.status && s'.status[other] == if writeOk then Waiting else Failed(ActorGone)
  {
    hide QueuedIds;
    hide Exit;
    if !writeOk {
      var u := Unregister(Register(s, id, serial), id, serial);
      assert u.pending == s.pending && u.status == s.status;
      ExitOutcome(u, other);
    }
  }

  /** In every run, what each step makes of a waiting request: it times out, is completed with the body of the
      response to its own serial, fails with the write that was to send it, fails with the connection, or waits on. */
  lemma OutcomeOfStep(events: seq<Event>, e: Event, id: RequestId)
    requires !Run(events).overflowed && id in Run(events).status && Run(events).status[id].Waiting?
    ensures var s := Run(events); id in Apply(s, e).status && Apply(s, e).status[id] == Outcome(s, e, id)
  {
    hide Run;
    hide Take;
    hide Exit;
    hide QueuedIds;
    RunInv(events);
    NothingLeftBehind(events, id);
    var s := Run(events);
    match e
    case TakeCommand(writeOk) => if s.queue != [] { TakeOutcome(s, writeOk, id); }
    case ReceiveBroken => ExitOutcome(s, id);
    case KeepAlive(writeOk) =>
      var counter := Allocate(s.counter).1;
      ExitOutcome(s.(counter := counter, overflowed := true), id);
      ExitOutcome(s.(counter := counter), id);
    case _ =>
  }

  /** In every run, what a response does: it completes the request its serial is pending for, takes the entry out and
      changes nothing else; without an entry it changes nothing. */
  lemma ResponseCompletes(events: seq<Event>, serial: Serial, body: Body)
    ensures var s := Run(events);
            Apply(s, ReceiveResponse(serial, body)) ==
              if serial !in s.pending then s
              else if s.pending[serial] in s.status && s.status[s.pending[serial]].Waiting?
              then s.(pending := s.pending - {serial}, status := s.status[s.pending[serial] := Done(serial, body)])
              else s.(pending := s.pending - {serial})
  {
    RunInv(events);
  }

  // ----- the command queue

  /** What an event adds to the queue of a live connection. */
  function Arrival(s: State, e: Event): (c: seq<Command>) {
    match e
    case Submit(id) =>
      if id in s.status then [] else [Request(id, if id in s.reserved then Some(s.reserved[id]) else None)]
    case SendShutdown => [Shutdown]
    case _ => []
  }

  /** Every command sent in a run, in order. */
  function Arrived(events: seq<Event>): (cs: seq<Command>) {
    if events == [] then []
    else
      var init := events[..|events| - 1];
      Arrived(init) + Arrival(Run(init), events[|events| - 1])
  }

  /** How many were taken. */
  function Taken(events: seq<Event>): (n: nat) {
    if events == [] then 0
    else
      var init := events[..|events| - 1];
      Taken(init) + if events[|events| - 1].TakeCommand? && Run(init).queue != [] then 1 else 0
  }

  lemma QueueMoves(s: State, e: Event)
    requires s.counter < WRAP && Apply(s, e).alive
    ensures Apply(s, e).queue == (if e.TakeCommand? && s.queue != [] then s.queue[1..] else s.queue) + Arrival(s, e)
    ensures s.alive
  {
  }

  /** Commands are taken in the order they were sent: the queue of a live connection is what was sent and not taken. */
  lemma {:induction false} FirstInFirstOut(events: seq<Event>)
    requires Run(events).alive
    ensures Taken(events) <= |Arrived(events)| && Run(events).queue == Arrived(events)[Taken(events)..]
  {
    hide Apply;
    hide Arrival;
    if events != [] {
      var init, e := events[..|events| - 1], events[|events| - 1];
      QueueMoves(Run(init), e);
      FirstInFirstOut(init);
      Shift(Arrived(init), Taken(init), Arrival(Run(init), e));
    }
  }

  lemma Shift(a: seq<Command>, n: nat, b: seq<Command>)
    requires n <= |a|
    ensures (a + b)[n..] == a[n..] + b
    ensures n < |a| ==> (a + b)[n + 1..] == a[n..][1..] + b
  {
  }

  /** In every run, submitting a new request to a live connection leaves it waiting at the end of the queue. */
  lemma SubmitWaits(events: seq<Event>, id: RequestId)
    requires Run(events).alive && id !in Run(events).status
    ensures var s, s' := Run(events), Run(events + [Submit(id)]);
            && s'.alive && s'.status == s.status[id := Waiting] && s'.pending == s.pending
            && |s'.queue| == |s.queue| + 1 && s'.queue[..|s.queue|] == s.queue && s'.queue[|s.queue|].Request?
            && s'.queue[|s.queue|].id == id
            && (forall k :: s'.queue[|s.queue|].serial == Some(k) <==> id in s.reserved && s.reserved[id] == k)
  {
    RunSnoc(events, Submit(id));
  }

  // ----- a request from its sending to its response

  ghost predicate PendsAs(s: State, id: RequestId, k: Serial) {
    && s.alive && k in s.pending && s.pending[k] == id && id in s.status && s.status[id].Waiting?
  }

  lemma SentPends(s: State, id: RequestId)
    requires Inv(s) && !s.overflowed && s.alive && NextIs(s, id) && id in s.status && s.status[id].Waiting?
    requires NextSerialFor(s).Some?
    ensures PendsAs(Apply(s, TakeCommand(true)), id, NextSerialFor(s).value)
  {
    FreeSerial(s);
  }

  // A request is held in one place.

  /** No request is pending under two serials, and none is pending and queued. */
  ghost predicate HeldOnce(s: State) {
    && (forall k, k' :: k in s.pending && k' in s.pending && s.pending[k] == s.pending[k'] ==> k == k')
    && (forall i, k :: 0 <= i < |s.queue| && s.queue[i].Request? && k in s.pending ==> s.pending[k] != s.queue[i].id)
  }

  lemma TakeHeldOnce(s: State, writeOk: bool)
    requires Inv(s) && !s.overflowed && HeldOnce(s) && s.alive && s.queue != []
    ensures HeldOnce(Take(s, writeOk))
  {
    if Take(s, writeOk).alive {
      FreeSerial(s);
      var k, head, rest := NextSerialFor(s).value, s.queue[0].id, s.queue[1..];
      var p := s.pending[k := head];
      assert Take(s, writeOk).pending == p && Take(s, writeOk).queue == rest;
      assert forall x :: x in p && x != k ==> x in s.pending && p[x] != head;
      forall i, x | 0 <= i < |rest| && rest[i].Request? && x in p ensures p[x] != rest[i].id {
        assert rest[i] == s.queue[i + 1];
      }
    } else {
      TakeEnds(s, writeOk);
    }
  }

  lemma TakeEnds(s: State, writeOk: bool)
    requires s.counter < WRAP && s.queue != [] && s.alive && !Take(s, writeOk).alive
    ensures Take(s, writeOk).pending == map[] && Take(s, writeOk).queue == []
  {
  }

  lemma StepHeldOnce(s: State, e: Event)
    requires Inv(s) && !s.overflowed && HeldOnce(s)
    ensures HeldOnce(Apply(s, e))
  {
    hide Take;
    match e
    case TakeCommand(writeOk) => if s.alive && s.queue != [] { TakeHeldOnce(s, writeOk); }
    case Submit(id) => if id !in s.status { NotPending(s, id); }
    case _ =>
  }

  lemma NotPending(s: State, id: RequestId)
    requires Accounted(s) && id !in s.status
    ensures forall k :: k in s.pending ==> s.pending[k] != id
  {
    hide QueuedIds;
    forall k | k in s.pending ensures s.pending[k] != id {
      assert s.pending[k] in s.pending.Values;
    }
  }

  lemma {:induction false} RunHeldOnce(events: seq<Event>)
    requires !Run(events).overflowed
    ensures HeldOnce(Run(events))
  {
    hide Apply;
    if events != [] {
      var init := events[..|events| - 1];
      RunInv(init);
      if Run(init).overflowed { OverflowStays(Run(init), events[|events| - 1]); }
      RunHeldOnce(init);
      StepHeldOnce(Run(init), events[|events| - 1]);
    }
  }

  lemma PendsOn(s: State, e: Event, id: RequestId, k: Serial)
    requires Inv(s) && !s.overflowed && HeldOnce(s) && PendsAs(s, id, k) && Apply(s, e).alive
    requires e != Expire(id) && !(e.ReceiveResponse? && e.serial == k)
    ensures PendsAs(Apply(s, e), id, k)
  {
    hide Take;
    hide QueuedIds;
    match e
    case TakeCommand(writeOk) => if s.queue != [] { TakePendsOn(s, writeOk, id, k); }
    case _ =>
  }

  lemma TakePendsOn(s: State, writeOk: bool, id: RequestId, k: Serial)
    requires Inv(s) && !s.overflowed && PendsAs(s, id, k) && s.queue != [] && Take(s, writeOk).alive
    ensures PendsAs(Take(s, writeOk), id, k)
  {
    hide QueuedIds;
    if s.queue[0].Request? { FreeSerial(s); }
  }

  /** No event of these settles the request. */
  ghost predicate Undisturbed(between: seq<Event>, id: RequestId, k: Serial) {
    forall i :: 0 <= i < |between| ==> between[i] != Expire(id) && !(between[i].ReceiveResponse? && between[i].serial == k)
  }

  lemma {:induction false} PendsOver(events: seq<Event>, between: seq<Event>, id: RequestId, k: Serial)
    requires PendsAs(Run(events), id, k) && Undisturbed(between, id, k)
    requires Run(events + between).alive && !Run(events + between).overflowed
    ensures PendsAs(Run(events + between), id, k)
    decreases |between|
  {
    hide Apply;
    hide PendsAs;
    if between == [] {
      assert events + between == events;
    } else {
      var init, e := between[..|between| - 1], between[|between| - 1];
      var all := events + init;
      assert events + between == all + [e];
      RunSnoc(all, e);
      RunAlive(all, [e]);
      PendsOver(events, init, id, k);
      RunInv(all);
      RunHeldOnce(all);
      PendsOn(Run(all), e, id, k);
    }
  }

  /** A request that is next, sent with a good write and left undisturbed on a live connection, is completed with the
      body of the response to its serial. */
  lemma Served(events: seq<Event>, between: seq<Event>, id: RequestId, body: Body)
    requires var s := Run(events);
             && s.alive && !s.overflowed && NextIs(s, id) && id in s.status && s.status[id].Waiting? && NextSerialFor(s).Some?
    requires Undisturbed(between, id, NextSerialFor(Run(events)).value)
    requires var all := events + [TakeCommand(true)] + between; Run(all).alive && !Run(all).overflowed
    ensures var k := NextSerialFor(Run(events)).value;
            var s' := Run(events + [TakeCommand(true)] + between + [ReceiveResponse(k, body)]);
            id in s'.status && s'.status[id] == Done(k, body) && k !in s'.pending
  {
    hide Run;
    hide Apply;
    hide Undisturbed;
    var k := NextSerialFor(Run(events)).value;
    var sent := events + [TakeCommand(true)];
    RunInv(events);
    SentPends(Run(events), id);
    RunSnoc(events, TakeCommand(true));
    PendsOver(sent, between, id, k);
    RunSnoc(sent + between, ReceiveResponse(k, body));
    ResponseCompletes(sent + between, k, body);
  }

  lemma RunAlive(events: seq<Event>, more: seq<Event>)
    requires Run(events + more).alive && !Run(events + more).overflowed
    ensures Run(events).alive && !Run(events).overflowed
  {
    hide Run;
    RunExtends(events, more);
    if Run(events).overflowed { OverflowLasts(events, more); }
  }

  lemma {:induction false} OverflowLasts(events: seq<Event>, more: seq<Event>)
    requires Run(events).overflowed
    ensures Run(events + more).overflowed
  {
    hide Apply;
    if more == [] {
      assert events + more == events;
    } else {
      var init := more[..|more| - 1];
      assert (events + more)[..|events + more| - 1] == events + init;
      OverflowLasts(events, init);
      OverflowStays(Run(events + init), more[|more| - 1]);
    }
  }
}
