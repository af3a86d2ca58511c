/** Safety of request correlation over whole runs of one connection. */
module RequestRuns {
  import opened Decimal
  import opened RequestActor

  lemma {:induction false} RunExtends(events: seq<Event>, more: seq<Event>)
    ensures Monotone(Run(events), Run(events + more))
    ensures !Run(events).alive ==> !Run(events + more).alive
  {
    hide Apply;
    if more == [] {
      assert events + more == events;
    } else {
      var init, e := more[..|more| - 1], more[|more| - 1];
      RunExtends(events, init);
      assert (events + more)[..|events + more| - 1] == events + init;
      RunInv(events + init);
      ApplyAccounted(Run(events + init), e);
      if !Run(events).alive { DeadStaysDead(Run(events + init), e); }
      MonotoneTransitive(Run(events), Run(events + init), Run(events + more), Run(events + more));
    }
  }

  lemma DeadStaysDead(s: State, e: Event)
    requires s.counter < WRAP && !s.alive
    ensures !Apply(s, e).alive
  {
  }

  /** A request completes at most once: its first outcome is its last, whatever happens afterwards. */
  lemma CompletesAtMostOnce(events: seq<Event>, more: seq<Event>, id: RequestId)
    requires id in Run(events).status && !Run(events).status[id].Waiting?
    ensures id in Run(events + more).status && Run(events + more).status[id] == Run(events).status[id]
  {
    hide Run;
    RunExtends(events, more);
  }

  /** The table entry a request is about to take is free: no pending request is ever displaced. */
  lemma NeverDisplaced(events: seq<Event>, writeOk: bool)
    requires Run(events).alive && Run(events).queue != [] && Run(events).queue[0].Request?
    requires !Run(events + [TakeCommand(writeOk)]).overflowed
    ensures var s := Run(events);
            (if s.queue[0].serial.Some? then s.queue[0].serial.value else s.counter + 1) !in s.pending
  {
    var s := Run(events);
    RunInv(events);
    assert (events + [TakeCommand(writeOk)])[..|events|] == events;
    assert Run(events + [TakeCommand(writeOk)]) == Apply(s, TakeCommand(writeOk));
    if s.overflowed {
      OverflowStays(s, TakeCommand(writeOk));
    }
  }

  /** No request is newly completed. */
  ghost predicate NoneCompleted(s: State, s': State) {
    forall id :: id in s'.status && s'.status[id].Done? ==> id in s.status && s.status[id] == s'.status[id]
  }

  lemma ExitCompletesNone(s: State)
    ensures NoneCompleted(s, Exit(s))
  {
    hide QueuedIds;
  }

  lemma SendOutCompletesNone(s: State, id: RequestId, serial: Serial, writeOk: bool)
    ensures NoneCompleted(s, SendOut(s, id, serial, writeOk))
  {
    hide Exit;
    ExitCompletesNone(Unregister(Register(s, id, serial), id, serial));
  }

  lemma TakeCompletesNone(s: State, writeOk: bool)
    requires s.counter < WRAP && s.queue != []
    ensures NoneCompleted(s, Take(s, writeOk))
  {
    hide Exit;
    hide SendOut;
    var rest := s.(queue := s.queue[1..]);
    match s.queue[0]
    case Shutdown => ExitCompletesNone(rest);
    case Request(id, serial) =>
      if serial.Some? {
        SendOutCompletesNone(rest, id, serial.value, writeOk);
      } else {
        var (k, counter) := Allocate(s.counter);
        if k.Some? {
          SendOutCompletesNone(rest.(counter := counter, owner := rest.owner[k.value := id]), id, k.value, writeOk);
        } else {
          ExitCompletesNone(rest.(counter := counter, overflowed := true, status := Settle(rest.status, id, Failed(ActorGone))));
        }
      }
  }

  lemma PingCompletesNone(s: State, writeOk: bool)
    requires s.counter < WRAP
    ensures NoneCompleted(s, Ping(s, writeOk))
  {
    hide Exit;
    var counter := Allocate(s.counter).1;
    ExitCompletesNone(s.(counter := counter, overflowed := true));
    ExitCompletesNone(s.(counter := counter));
  }

  /** Only a response completes anything, and it completes with what it carries. */
  lemma DoneFromResponse(s: State, e: Event, id: RequestId)
    requires s.counter < WRAP && id in Apply(s, e).status && Apply(s, e).status[id].Done?
    requires !(id in s.status && s.status[id].Done?)
    ensures e == ReceiveResponse(Apply(s, e).status[id].serial, Apply(s, e).status[id].body)
  {
    hide Take;
    hide Exit;
    hide Ping;
    match e
    case TakeCommand(writeOk) => if s.alive && s.queue != [] { TakeCompletesNone(s, writeOk); }
    case ReceiveBroken => ExitCompletesNone(s);
    case KeepAlive(writeOk) => PingCompletesNone(s, writeOk);
    case _ =>
  }

  /** A request is only ever completed by a response that carried its own serial: that response is among
      the events, and its serial was handed to this request and to no other. */
  lemma {:induction false} CompletedByOwnResponse(events: seq<Event>, id: RequestId)
    requires id in Run(events).status && Run(events).status[id].Done?
    ensures var done := Run(events).status[id];
            && ReceiveResponse(done.serial, done.body) in events
            && (!Run(events).overflowed ==> done.serial in Run(events).owner && Run(events).owner[done.serial] == id)
  {
    hide Apply;
    RunInv(events);
    if events != [] {
      var init, e := events[..|events| - 1], events[|events| - 1];
      assert events == init + [e];
      var s := Run(init);
      if id in s.status && s.status[id].Done? {
        CompletedByOwnResponse(init, id);
        RunInv(init);
        ApplyAccounted(s, e);
      } else {
        DoneFromResponse(s, e, id);
      }
    }
  }

  /** A response reaches no request but the one its serial was handed to; once that one is settled (it
      timed out, say) a late response changes no request at all. */
  lemma ResponseReachesOwner(events: seq<Event>, serial: Serial, body: Body, id: RequestId)
    requires !Run(events).overflowed && id in Run(events).status
    requires !(serial in Run(events).owner && Run(events).owner[serial] == id) || !Run(events).status[id].Waiting?
    ensures var s' := Apply(Run(events), ReceiveResponse(serial, body));
            id in s'.status && s'.status[id] == Run(events).status[id]
  {
    RunInv(events);
  }

  /** Serials are never handed out twice: a new one is larger than all before. */
  lemma SerialsAreFresh(events: seq<Event>, serial: Serial)
    requires !Run(events).overflowed && serial in Run(events).owner && Run(events).counter < U32_MAX
    ensures Allocate(Run(events).counter).0 == Some(Run(events).counter + 1)
    ensures serial < Run(events).counter + 1
  {
    hide Run;
    RunInv(events);
    AllocateBelow(Run(events).counter);
  }

  /** Nothing is left behind: once the actor has ended no request is waiting, queued or pending, and while
      it runs every waiting request is in the queue or in the table. */
  lemma NothingLeftBehind(events: seq<Event>, id: RequestId)
    requires id in Run(events).status && Run(events).status[id].Waiting?
    ensures Run(events).alive && id in Run(events).pending.Values + QueuedIds(Run(events).queue)
  {
    RunInv(events);
  }

  /** A request sent to an ended actor fails at once, and for good. */
  lemma SubmitAfterEndFails(events: seq<Event>, id: RequestId, more: seq<Event>)
    requires !Run(events).alive && id !in Run(events).status
    ensures var all := events + [Submit(id)] + more;
            id in Run(all).status && Run(all).status[id] == Failed(ActorGone)
  {
    var now := events + [Submit(id)];
    assert now[..|events|] == events;
    assert Run(now) == Apply(Run(events), Submit(id));
    CompletesAtMostOnce(now, more, id);
  }

  // ----- the counter

  /** The counter after `n` allocations on a new connection. */
  function CounterAfter(n: nat): (c: nat)
    ensures c < WRAP
  {
    if n == 0 then 1 else Allocate(CounterAfter(n - 1)).1
  }

  lemma ModNext(k: nat)
    ensures (k + 1) % WRAP == if k % WRAP == U32_MAX then 0 else k % WRAP + 1
  {
  }

  lemma {:induction false} CounterIsModular(n: nat)
    ensures CounterAfter(n) == (n + 1) % WRAP
  {
    if n > 0 {
      CounterIsModular(n - 1);
      ModNext(n);
      ModNext(n % WRAP);
    }
  }

  /** The serial the `n`-th allocation on a new connection gives. */
  function NthSerial(n: nat): (k: Option<Serial>) {
    Allocate(CounterAfter(n)).0
  }

  lemma NthSerialIs(n: nat)
    ensures NthSerial(n) == if (n + 1) % WRAP == U32_MAX then None else Some((n + 1) % WRAP + 1)
  {
    CounterIsModular(n);
  }

  /** The `m`-th and `n`-th allocation on one connection give the same serial exactly when they are a whole
      number of counter wraps apart; so none is repeated before the counter has overflowed, and from then
      on every one is. */
  lemma SerialsRepeatByWrap(m: nat, n: nat)
    ensures NthSerial(m).Some? && NthSerial(n).Some? ==> (NthSerial(m) == NthSerial(n) <==> m % WRAP == n % WRAP)
    ensures NthSerial(n).None? <==> n % WRAP == U32_MAX - 1
    ensures NthSerial(n + WRAP) == NthSerial(n)
  {
    hide NthSerial;
    NthSerialIs(m);
    NthSerialIs(n);
    NthSerialIs(n + WRAP);
    ModNext(m);
    ModNext(n);
    assert (n + WRAP + 1) % WRAP == (n + 1) % WRAP;
  }

  /** The event takes a serial from the counter. */
  predicate Allocates(s: State, e: Event) {
    match e
    case Reserve(id) => id !in s.status && id !in s.reserved
    case TakeCommand(_) => s.alive && s.queue != [] && s.queue[0].Request? && s.queue[0].serial.None?
    case KeepAlive(_) => s.alive
    case _ => false
  }

  function Allocations(events: seq<Event>): (n: nat) {
    if events == [] then 0
    else
      var init := events[..|events| - 1];
      Allocations(init) + if Allocates(Run(init), events[|events| - 1]) then 1 else 0
  }

  lemma StepAllocates(s: State, e: Event)
    requires s.counter < WRAP
    ensures Apply(s, e).counter == if Allocates(s, e) then Allocate(s.counter).1 else s.counter
    ensures Apply(s, e).overflowed <==> s.overflowed || (Allocates(s, e) && Allocate(s.counter).0.None?)
  {
  }

  lemma RunSnoc(init: seq<Event>, e: Event)
    ensures Run(init + [e]) == Apply(Run(init), e)
    ensures Allocations(init + [e]) == Allocations(init) + if Allocates(Run(init), e) then 1 else 0
  {
    assert (init + [e])[..|init|] == init;
  }

  lemma CounterNext(n: nat)
    ensures CounterAfter(n + 1) == Allocate(CounterAfter(n)).1
  {
    hide Allocate;
  }

  lemma WithinWrap(k: nat)
    requires k < WRAP
    ensures k % WRAP == k
  {
  }

  lemma RefusedOnce(n: nat)
    requires n < U32_MAX
    ensures Allocate(CounterAfter(n)).0.None? <==> n + 1 == U32_MAX
  {
    hide CounterAfter;
    CounterIsModular(n);
    WithinWrap(n + 1);
  }

  lemma {:induction false} CounterOfRun(events: seq<Event>)
    ensures Run(events).counter == CounterAfter(Allocations(events))
    ensures Run(events).overflowed <==> Allocations(events) >= U32_MAX
  {
    hide Apply;
    hide Allocates;
    hide Allocate;
    if events != [] {
      var init, e := events[..|events| - 1], events[|events| - 1];
      CounterOfRun(init);
      StepAllocates(Run(init), e);
      hide CounterAfter;
      CounterNext(Allocations(init));
      if Allocations(init) < U32_MAX { RefusedOnce(Allocations(init)); }
    }
  }

  /** Over every run the counter stands one past the allocations made, modulo the wrap, and some allocation has been
      refused exactly when at least `U32_MAX` allocations were made. */
  lemma RunCounts(events: seq<Event>)
    ensures Run(events).counter == CounterAfter(Allocations(events)) == (Allocations(events) + 1) % WRAP
    ensures Run(events).overflowed <==> Allocations(events) >= U32_MAX
  {
    hide Run;
    hide Allocations;
    hide CounterAfter;
    CounterOfRun(events);
    CounterIsModular(Allocations(events));
  }

  /** In every run, a caller's `n`-th allocation gives it the `n`-th serial, or fails its request where there is none. */
  lemma ReserveGivesNth(events: seq<Event>, id: RequestId)
    requires Allocates(Run(events), Reserve(id))
    ensures var s, k := Run(events + [Reserve(id)]), NthSerial(Allocations(events));
            if k.Some? then id in s.reserved && s.reserved[id] == k.value && k.value in s.owner && s.owner[k.value] == id
            else s.status == Run(events).status[id := Failed(SerialOverflow)]
  {
    RunSnoc(events, Reserve(id));
    RunCounts(events);
  }

  /** The run in which `n` callers take a serial each. */
  function Reserves(n: nat): (events: seq<Event>) {
    if n == 0 then [] else Reserves(n - 1) + [Reserve(n - 1)]
  }

  lemma {:induction false} ReservesAllocate(n: nat)
    ensures Allocations(Reserves(n)) == n && Run(Reserves(n)).alive
    ensures forall id :: id in Run(Reserves(n)).status || id in Run(Reserves(n)).reserved ==> id < n
  {
    hide Apply;
    hide Run;
    hide Allocations;
    if n == 0 {
      EmptyRun();
    } else {
      ReservesAllocate(n - 1);
      RunSnoc(Reserves(n - 1), Reserve(n - 1));
      ReserveStep(Run(Reserves(n - 1)), n - 1);
    }
  }

  lemma EmptyRun()
    ensures Run([]) == START && Allocations([]) == 0
  {
  }

  lemma ReserveStep(s: State, id: RequestId)
    requires s.counter < WRAP
    ensures var s' := Apply(s, Reserve(id));
            && s'.alive == s.alive
            && s'.status.Keys + s'.reserved.Keys == s.status.Keys + s.reserved.Keys + {id}
            && (forall i :: i in s.reserved ==> i in s'.reserved && s'.reserved[i] == s.reserved[i])
  {
  }

  lemma {:induction false} ReservedStays(m: nat, n: nat)
    requires m < n
    ensures var s, k := Run(Reserves(n)), NthSerial(m);
            k.Some? ==> m in s.reserved && s.reserved[m] == k.value
  {
    hide NthSerial;
    hide Apply;
    hide Run;
    hide Allocations;
    ReservesAllocate(n - 1);
    if m == n - 1 {
      ReserveGivesNth(Reserves(m), m);
    } else {
      ReservedStays(m, n - 1);
      RunSnoc(Reserves(n - 1), Reserve(n - 1));
      ReserveStep(Run(Reserves(n - 1)), n - 1);
    }
  }

  /** A run in which two requests hold the same serial at once: the first caller's, handed out again after one wrap. */
  lemma FirstSerialRepeats()
    ensures NthSerial(0) == Some(2) && NthSerial(WRAP) == Some(2)
    ensures var s := Run(Reserves(WRAP + 1));
            0 in s.reserved && WRAP in s.reserved && s.reserved[0] == s.reserved[WRAP] == 2
  {
    hide Run;
    hide Reserves;
    NthSerialIs(0);
    SerialsRepeatByWrap(0, 0);
    ReservedStays(0, WRAP + 1);
    ReservedStays(WRAP, WRAP + 1);
  }

  /** The allocation that overflows ends the connection when the actor makes it, for a request or a keepalive; made
      by the client it fails the one request and nothing else changes but the counter. */
  lemma OverflowFailsOne(s: State, id: RequestId, writeOk: bool)
    requires s.counter == U32_MAX && s.alive && id !in s.status && id !in s.reserved
    ensures Apply(s, Reserve(id)) == s.(counter := 0, overflowed := true, status := s.status[id := Failed(SerialOverflow)])
    ensures s.queue != [] && s.queue[0].Request? && s.queue[0].serial == None ==> !Apply(s, TakeCommand(writeOk)).alive
    ensures !Apply(s, KeepAlive(writeOk)).alive
  {
  }

  /** Such a state is reached: after all but two of a wrap's reservations the next allocation overflows. */
  lemma OverflowIsReached(id: RequestId)
    requires id >= U32_MAX - 1
    ensures var s := Run(Reserves(U32_MAX - 1));
            s.counter == U32_MAX && s.alive && !s.overflowed && id !in s.status && id !in s.reserved
  {
    hide Run;
    hide Reserves;
    hide Allocations;
    hide CounterAfter;
    ReservesAllocate(U32_MAX - 1);
    RunCounts(Reserves(U32_MAX - 1));
  }
}
