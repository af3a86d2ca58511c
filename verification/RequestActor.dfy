/** Request correlation of the Futu client within one connection: a shared serial counter, a command queue, a
    table of pending requests, timeouts and the actor's end (`truefix-futu-client/src/actor.rs`, `handle.rs`
    and `client.rs`). One step is one turn of the actor's loop or one action of a caller. */
module RequestActor {
  import opened Decimal

  const WRAP: nat := 0x1_0000_0000

  type RequestId = nat
  type Serial = nat
  type Body = nat

  datatype FutuError = ActorGone | Io | SerialOverflow

  /** How a request stands with its caller; only `Waiting` can still change. */
  datatype Status = Waiting | Done(serial: Serial, body: Body) | Failed(error: FutuError) | TimedOut

  datatype Command = Request(id: RequestId, serial: Option<Serial>) | Shutdown

  /** `owner` records which request each serial was handed to; `overflowed` whether a serial was ever refused. */
  datatype State = State(
    counter: nat,
    alive: bool,
    queue: seq<Command>,
    pending: map<Serial, RequestId>,
    status: map<RequestId, Status>,
    reserved: map<RequestId, Serial>,
    owner: map<Serial, RequestId>,
    overflowed: bool)

  datatype Event =
    | Reserve(id: RequestId)                  // a caller takes a serial for a request it will submit
    | Submit(id: RequestId)                   // a caller sends a request to the actor
    | SendShutdown
    | Expire(id: RequestId)                   // a caller's timeout
    | TakeCommand(writeOk: bool)              // the actor receives the next command
    | ReceiveResponse(serial: Serial, body: Body)
    | ReceiveOther                            // a keep-alive or a push the actor could decode
    | ReceiveBroken                           // a read error, or a push it could not decode
    | KeepAlive(writeOk: bool)

  /** A new connection: the counter is reset to 1. */
  const START := State(1, true, [], map[], map[], map[], map[], false)

  /** `next_serial`: an atomic fetch-and-add that wraps, and one is added to what was there. */
  function Allocate(counter: nat): (r: (Option<Serial>, nat))
    requires counter < WRAP
  {
    (if counter == U32_MAX then None else Some(counter + 1), (counter + 1) % WRAP)
  }

  function Settle(status: map<RequestId, Status>, id: RequestId, outcome: Status): (r: map<RequestId, Status>) {
    if id in status && status[id].Waiting? then status[id := outcome] else status
  }

  function SettleAll(status: map<RequestId, Status>, ids: set<RequestId>, outcome: Status): (r: map<RequestId, Status>) {
    map id | id in status :: if id in ids && status[id].Waiting? then outcome else status[id]
  }

  function QueuedIds(queue: seq<Command>): (s: set<RequestId>) {
    set i | 0 <= i < |queue| && queue[i].Request? :: queue[i].id
  }

  /** The actor ends: every pending and every queued request is failed, nothing stays. */
  function Exit(s: State): (r: State)
    ensures r.counter == s.counter && r.overflowed == s.overflowed && !r.alive
  {
    s.(alive := false, queue := [], pending := map[],
       status := SettleAll(s.status, s.pending.Values + QueuedIds(s.queue), Failed(ActorGone)))
  }

  /** The request `id` is entered under `serial`; an entry already there loses its caller. */
  function Register(s: State, id: RequestId, serial: Serial): (r: State)
    ensures r.counter == s.counter && r.overflowed == s.overflowed
  {
    s.(pending := s.pending[serial := id],
       status := if serial in s.pending then Settle(s.status, s.pending[serial], Failed(ActorGone)) else s.status)
  }

  /** The entry is taken back when the write failed. */
  function Unregister(s: State, id: RequestId, serial: Serial): (r: State) {
    s.(pending := s.pending - {serial}, status := Settle(s.status, id, Failed(Io)))
  }

  function SendOut(s: State, id: RequestId, serial: Serial, writeOk: bool): (r: State)
    ensures r.counter == s.counter && r.overflowed == s.overflowed
  {
    var s' := Register(s, id, serial);
    if writeOk then s' else Exit(Unregister(s', id, serial))
  }

  function TakeRequest(s: State, id: RequestId, given: Option<Serial>, writeOk: bool): (r: State)
    requires s.counter < WRAP
    ensures r.counter < WRAP && (s.overflowed ==> r.overflowed)
  {
    match given
    case Some(serial) => SendOut(s, id, serial, writeOk)
    case None =>
      var (serial, counter) := Allocate(s.counter);
      match serial
      case None => Exit(s.(counter := counter, overflowed := true, status := Settle(s.status, id, Failed(ActorGone))))
      case Some(k) => SendOut(s.(counter := counter, owner := s.owner[k := id]), id, k, writeOk)
  }

  function Take(s: State, writeOk: bool): (r: State)
    requires s.queue != [] && s.counter < WRAP
    ensures r.counter < WRAP && (s.overflowed ==> r.overflowed)
  {
    var rest := s.(queue := s.queue[1..]);
    match s.queue[0]
    case Shutdown => Exit(rest)
    case Request(id, serial) => TakeRequest(rest, id, serial, writeOk)
  }

  function TakeSerial(s: State, id: RequestId): (r: State)
    requires s.counter < WRAP
    ensures r.counter < WRAP
  {
    if id in s.status || id in s.reserved then s
    else
      var (serial, counter) := Allocate(s.counter);
      match serial
      case None => s.(counter := counter, overflowed := true, status := s.status[id := Failed(SerialOverflow)])
      case Some(k) => s.(counter := counter, reserved := s.reserved[id := k], owner := s.owner[k := id])
  }

  function Enqueue(s: State, id: RequestId): (r: State)
    ensures r.counter == s.counter
  {
    if id in s.status then s
    else
      var serial := if id in s.reserved then Some(s.reserved[id]) else None;
      var s' := s.(reserved := s.reserved - {id});
      if !s.alive then s'.(status := s.status[id := Failed(ActorGone)])
      else s'.(status := s.status[id := Waiting], queue := s.queue + [Request(id, serial)])
  }

  function Respond(s: State, serial: Serial, body: Body): (r: State)
    ensures r.counter == s.counter
  {
    if s.alive && serial in s.pending then
      s.(pending := s.pending - {serial}, status := Settle(s.status, s.pending[serial], Done(serial, body)))
    else s
  }

  function Ping(s: State, writeOk: bool): (r: State)
    requires s.counter < WRAP
    ensures r.counter < WRAP
  {
    if !s.alive then s
    else
      var (serial, counter) := Allocate(s.counter);
      if serial.None? then Exit(s.(counter := counter, overflowed := true))
      else if !writeOk then Exit(s.(counter := counter))
      else s.(counter := counter)
  }

  /** One step; an event that cannot happen in a state leaves it as it is. */
  function Apply(s: State, e: Event): (r: State)
    requires s.counter < WRAP
    ensures r.counter < WRAP
  {
    match e
    case Reserve(id) => TakeSerial(s, id)
    case Submit(id) => Enqueue(s, id)
    case SendShutdown => if s.alive then s.(queue := s.queue + [Shutdown]) else s
    case Expire(id) => s.(status := Settle(s.status, id, TimedOut))
    case TakeCommand(writeOk) => if s.alive && s.queue != [] then Take(s, writeOk) else s
    case ReceiveResponse(serial, body) => Respond(s, serial, body)
    case ReceiveOther => s
    case ReceiveBroken => if s.alive then Exit(s) else s
    case KeepAlive(writeOk) => Ping(s, writeOk)
  }

  /** The state after a whole run of events. */
  function Run(events: seq<Event>): (s: State)
    ensures s.counter < WRAP
  {
    if events == [] then START else Apply(Run(events[..|events| - 1]), events[|events| - 1])
  }

  // ----- what every step keeps, overflow or not

  /** Whoever waits is queued or pending; a dead actor holds nothing. */
  ghost predicate Accounted(s: State) {
    && (forall id :: id in s.pending.Values + QueuedIds(s.queue) ==> id in s.status)
    && (forall id :: id in s.status && s.status[id].Waiting? ==> id in s.pending.Values + QueuedIds(s.queue))
    && (!s.alive ==> s.queue == [] && s.pending == map[])
    && s.reserved.Keys !! s.status.Keys
  }

  /** Statuses only ever change away from `Waiting`. */
  ghost predicate Monotone(s: State, s': State) {
    forall id :: id in s.status ==> id in s'.status && (s.status[id].Waiting? || s'.status[id] == s.status[id])
  }

  lemma ExitAccounted(s: State)
    requires s.reserved.Keys !! s.status.Keys
    requires forall id :: id in s.status && s.status[id].Waiting? ==> id in s.pending.Values + QueuedIds(s.queue)
    ensures Accounted(Exit(s)) && Monotone(s, Exit(s))
  {
  }

  lemma QueuedSnoc(queue: seq<Command>, c: Command)
    ensures QueuedIds(queue + [c]) == QueuedIds(queue) + (if c.Request? then {c.id} else {})
  {
    var q := queue + [c];
    assert forall i :: 0 <= i < |queue| ==> q[i] == queue[i];
    assert q[|queue|] == c;
    forall id | id in QueuedIds(queue) ensures id in QueuedIds(q) {
      var i :| 0 <= i < |queue| && queue[i].Request? && queue[i].id == id;
      assert q[i].id == id;
    }
  }

  lemma QueuedTail(queue: seq<Command>)
    requires queue != []
    ensures QueuedIds(queue) == QueuedIds(queue[1..]) + (if queue[0].Request? then {queue[0].id} else {})
  {
    var q := queue[1..];
    forall id | id in QueuedIds(queue) ensures id in QueuedIds(q) || (queue[0].Request? && id == queue[0].id) {
      var i :| 0 <= i < |queue| && queue[i].Request? && queue[i].id == id;
      if i > 0 { assert q[i - 1].id == id; }
    }
    forall id | id in QueuedIds(q) ensures id in QueuedIds(queue) {
      var i :| 0 <= i < |q| && q[i].Request? && q[i].id == id;
      assert queue[i + 1].id == id;
    }
  }

  lemma PendingInsert(pending: map<Serial, RequestId>, k: Serial, id: RequestId)
    ensures id in pending[k := id].Values
    ensures forall x :: x in pending[k := id].Values ==> x == id || x in pending.Values
    ensures forall x :: x in pending.Values ==> x in pending[k := id].Values || (k in pending && x == pending[k])
  {
    var p := pending[k := id];
    assert p[k] == id;
    forall x | x in pending.Values ensures x in p.Values || (k in pending && x == pending[k]) {
      var j :| j in pending && pending[j] == x;
      if j != k { assert p[j] == x; }
    }
  }

  lemma PendingRemove(pending: map<Serial, RequestId>, k: Serial)
    requires k in pending
    ensures forall x :: x in (pending - {k}).Values ==> x in pending.Values
    ensures forall x :: x in pending.Values ==> x in (pending - {k}).Values || x == pending[k]
  {
    var p := pending - {k};
    forall x | x in pending.Values ensures x in p.Values || x == pending[k] {
      var j :| j in pending && pending[j] == x;
      if j != k { assert p[j] == x; }
    }
  }

  /** Whoever waits is queued or pending, or is `id`. */
  ghost predicate AccountedBut(s: State, id: RequestId) {
    && (forall x :: x in s.pending.Values + QueuedIds(s.queue) ==> x in s.status)
    && (forall x :: x in s.status && s.status[x].Waiting? ==> x == id || x in s.pending.Values + QueuedIds(s.queue))
    && s.reserved.Keys !! s.status.Keys
  }

  lemma RegisterAccounted(s: State, id: RequestId, serial: Serial)
    requires s.alive && id in s.status && AccountedBut(s, id)
    ensures Accounted(Register(s, id, serial)) && Monotone(s, Register(s, id, serial))
  {
    hide QueuedIds;
    PendingInsert(s.pending, serial, id);
  }

  lemma UnregisterMonotone(s: State, id: RequestId, serial: Serial)
    requires serial in s.pending && s.pending[serial] == id && Accounted(s)
    ensures var u := Unregister(s, id, serial);
            && Monotone(s, u) && u.reserved.Keys !! u.status.Keys
            && forall x :: x in u.status && u.status[x].Waiting? ==> x in u.pending.Values + QueuedIds(u.queue)
  {
    hide QueuedIds;
    PendingRemove(s.pending, serial);
  }

  lemma SendOutAccounted(s: State, id: RequestId, serial: Serial, writeOk: bool)
    requires s.alive && id in s.status && AccountedBut(s, id)
    ensures Accounted(SendOut(s, id, serial, writeOk)) && Monotone(s, SendOut(s, id, serial, writeOk))
  {
    RegisterAccounted(s, id, serial);
    if !writeOk {
      var r := Register(s, id, serial);
      assert serial in r.pending && r.pending[serial] == id;
      UnregisterMonotone(r, id, serial);
      ExitAccounted(Unregister(r, id, serial));
      hide *;
      MonotoneTransitive(s, r, Unregister(r, id, serial), Exit(Unregister(r, id, serial)));
      assert SendOut(s, id, serial, writeOk) == Exit(Unregister(r, id, serial)) by { SendOutFails(s, id, serial); }
    }
  }

  lemma SendOutFails(s: State, id: RequestId, serial: Serial)
    ensures SendOut(s, id, serial, false) == Exit(Unregister(Register(s, id, serial), id, serial))
  {
  }

  lemma MonotoneTransitive(a: State, b: State, c: State, d: State)
    requires Monotone(a, b) && Monotone(b, c) && Monotone(c, d)
    ensures Monotone(a, d)
  {
  }

  lemma TakeRequestAccounted(s: State, id: RequestId, given: Option<Serial>, writeOk: bool)
    requires s.counter < WRAP && s.alive && id in s.status && AccountedBut(s, id)
    ensures Accounted(TakeRequest(s, id, given, writeOk)) && Monotone(s, TakeRequest(s, id, given, writeOk))
  {
    hide SendOut;
    hide QueuedIds;
    hide Exit;
    match given
    case Some(serial) => SendOutAccounted(s, id, serial, writeOk);
    case None =>
      var (serial, counter) := Allocate(s.counter);
      match serial
      case None =>
        ExitAccounted(s.(counter := counter, overflowed := true, status := Settle(s.status, id, Failed(ActorGone))));
      case Some(k) => SendOutAccounted(s.(counter := counter, owner := s.owner[k := id]), id, k, writeOk);
  }

  lemma TakeAccounted(s: State, writeOk: bool)
    requires s.counter < WRAP && Accounted(s) && s.alive && s.queue != []
    ensures Accounted(Take(s, writeOk)) && Monotone(s, Take(s, writeOk))
  {
    QueuedTail(s.queue);
    hide TakeRequest;
    hide QueuedIds;
    hide Exit;
    var rest := s.(queue := s.queue[1..]);
    match s.queue[0]
    case Shutdown => ExitAccounted(rest);
    case Request(id, serial) => TakeRequestAccounted(rest, id, serial, writeOk);
  }

  lemma EnqueueAccounted(s: State, id: RequestId)
    requires Accounted(s)
    ensures Accounted(Enqueue(s, id)) && Monotone(s, Enqueue(s, id))
  {
    QueuedSnoc(s.queue, Request(id, if id in s.reserved then Some(s.reserved[id]) else None));
    hide QueuedIds;
  }

  lemma ShutdownAccounted(s: State)
    requires Accounted(s) && s.alive
    ensures Accounted(s.(queue := s.queue + [Shutdown]))
  {
    QueuedSnoc(s.queue, Shutdown);
    hide QueuedIds;
  }

  lemma RespondAccounted(s: State, serial: Serial, body: Body)
    requires Accounted(s)
    ensures Accounted(Respond(s, serial, body)) && Monotone(s, Respond(s, serial, body))
  {
    hide QueuedIds;
    if serial in s.pending { PendingRemove(s.pending, serial); }
  }

  lemma PingAccounted(s: State, writeOk: bool)
    requires s.counter < WRAP && Accounted(s)
    ensures Accounted(Ping(s, writeOk)) && Monotone(s, Ping(s, writeOk))
  {
    hide QueuedIds;
    hide Exit;
    if s.alive {
      var (serial, counter) := Allocate(s.counter);
      ExitAccounted(s.(counter := counter, overflowed := true));
      ExitAccounted(s.(counter := counter));
    }
  }

  /** Every step keeps the accounts, and no settled request is ever touched again. */
  lemma ApplyAccounted(s: State, e: Event)
    requires s.counter < WRAP && Accounted(s)
    ensures Accounted(Apply(s, e)) && Monotone(s, Apply(s, e))
  {
    hide Take;
    hide Enqueue;
    hide Respond;
    hide Ping;
    hide Exit;
    hide QueuedIds;
    match e
    case Submit(id) => EnqueueAccounted(s, id);
    case SendShutdown => if s.alive { ShutdownAccounted(s); }
    case TakeCommand(writeOk) => if s.alive && s.queue != [] { TakeAccounted(s, writeOk); }
    case ReceiveResponse(serial, body) => RespondAccounted(s, serial, body);
    case ReceiveBroken => ExitAccounted(s);
    case KeepAlive(writeOk) => PingAccounted(s, writeOk);
    case _ =>
  }

  // ----- what every step keeps while no serial was refused

  ghost predicate Correlated(s: State) {
    && 1 <= s.counter <= U32_MAX
    && (forall k :: k in s.owner ==> 2 <= k <= s.counter)
    && (forall k :: k in s.pending ==> k in s.owner && s.owner[k] == s.pending[k])
    && (forall id :: id in s.reserved ==>
          s.reserved[id] in s.owner && s.owner[s.reserved[id]] == id && s.reserved[id] !in s.pending)
    && (forall i :: 0 <= i < |s.queue| && s.queue[i].Request? && s.queue[i].serial.Some? ==>
          var k := s.queue[i].serial.value; k in s.owner && s.owner[k] == s.queue[i].id && k !in s.pending)
    && (forall i, j :: 0 <= i < j < |s.queue| && s.queue[i].Request? && s.queue[j].Request? ==> s.queue[i].id != s.queue[j].id)
    && (forall id :: id in s.status && s.status[id].Done? ==>
          s.status[id].serial in s.owner && s.owner[s.status[id].serial] == id)
  }

  /** The invariant of a connection. */
  ghost predicate Inv(s: State) {
    s.counter < WRAP && Accounted(s) && (!s.overflowed ==> Correlated(s))
  }

  lemma ExitCorrelated(s: State)
    requires Correlated(s.(queue := [], pending := map[]))
    ensures Correlated(Exit(s))
  {
  }

  /** Sending out a request whose serial is its own and not pending keeps requests and serials matched. */
  lemma SendOutCorrelated(s: State, id: RequestId, serial: Serial, writeOk: bool)
    requires Correlated(s) && serial in s.owner && s.owner[serial] == id && serial !in s.pending
    requires id !in s.reserved && id !in QueuedIds(s.queue)
    ensures Correlated(SendOut(s, id, serial, writeOk))
  {
    assert forall i :: 0 <= i < |s.queue| && s.queue[i].Request? ==> s.queue[i].id in QueuedIds(s.queue);
    hide QueuedIds;
    hide SettleAll;
    var r := Register(s, id, serial);
    if writeOk {
      assert Correlated(r);
    } else {
      ExitCorrelated(Unregister(r, id, serial));
    }
  }

  /** The queue without its first command. */
  lemma TailCorrelated(s: State)
    requires Accounted(s) && Correlated(s) && s.queue != []
    ensures Correlated(s.(queue := s.queue[1..]))
    ensures s.queue[0].Request? ==> s.queue[0].id in s.status && s.queue[0].id !in QueuedIds(s.queue[1..])
  {
    var tail := s.queue[1..];
    assert forall i :: 0 <= i < |tail| ==> tail[i] == s.queue[i + 1];
    if s.queue[0].Request? {
      assert s.queue[0].id in QueuedIds(s.queue);
      assert forall i :: 0 <= i < |tail| && tail[i].Request? ==> s.queue[i + 1].id != s.queue[0].id;
    }
  }

  lemma NewSerialCorrelated(s: State, id: RequestId)
    requires Correlated(s) && s.counter < U32_MAX
    ensures Correlated(s.(counter := s.counter + 1, owner := s.owner[s.counter + 1 := id]))
  {
  }

  lemma TakeRequestCorrelated(s: State, id: RequestId, given: Option<Serial>, writeOk: bool)
    requires s.counter < WRAP && Correlated(s) && id !in s.reserved && id !in QueuedIds(s.queue)
    requires given.Some? ==> given.value in s.owner && s.owner[given.value] == id && given.value !in s.pending
    requires !TakeRequest(s, id, given, writeOk).overflowed
    ensures Correlated(TakeRequest(s, id, given, writeOk))
  {
    hide SendOut;
    hide QueuedIds;
    match given
    case Some(k) => SendOutCorrelated(s, id, k, writeOk);
    case None =>
      var k := s.counter + 1;
      assert k !in s.pending;
      NewSerialCorrelated(s, id);
      hide Correlated;
      SendOutCorrelated(s.(counter := k, owner := s.owner[k := id]), id, k, writeOk);
  }

  lemma TakeCorrelated(s: State, writeOk: bool)
    requires s.counter < WRAP && Accounted(s) && Correlated(s) && s.alive && s.queue != []
    requires !Take(s, writeOk).overflowed
    ensures Correlated(Take(s, writeOk))
  {
    hide TakeRequest;
    hide QueuedIds;
    hide Exit;
    TailCorrelated(s);
    var rest := s.(queue := s.queue[1..]);
    match s.queue[0]
    case Shutdown => ExitCorrelated(rest);
    case Request(id, serial) => TakeRequestCorrelated(rest, id, serial, writeOk);
  }

  lemma EnqueueCorrelated(s: State, id: RequestId)
    requires Accounted(s) && Correlated(s)
    ensures Correlated(Enqueue(s, id))
  {
    assert forall i :: 0 <= i < |s.queue| && s.queue[i].Request? ==> s.queue[i].id in QueuedIds(s.queue);
    hide QueuedIds;
  }

  lemma AllocateBelow(counter: nat)
    requires counter < U32_MAX
    ensures Allocate(counter) == (Some(counter + 1), counter + 1)
  {
  }

  lemma BumpCorrelated(s: State)
    requires Correlated(s) && s.counter < U32_MAX
    ensures Correlated(s.(counter := s.counter + 1))
    ensures Correlated(Exit(s.(counter := s.counter + 1)))
  {
    var next := s.(counter := s.counter + 1);
    assert Correlated(next);
    ExitCorrelated(next);
  }

  lemma PingCorrelated(s: State, writeOk: bool)
    requires s.counter < WRAP && Correlated(s) && !Ping(s, writeOk).overflowed
    ensures Correlated(Ping(s, writeOk))
  {
    hide Correlated;
    hide Exit;
    if s.counter < U32_MAX {
      AllocateBelow(s.counter);
      BumpCorrelated(s);
    }
  }

  lemma TakeSerialCorrelated(s: State, id: RequestId)
    requires s.counter < WRAP && Correlated(s) && !TakeSerial(s, id).overflowed
    ensures Correlated(TakeSerial(s, id))
  {
    if s.counter < U32_MAX {
      AllocateBelow(s.counter);
      NewSerialCorrelated(s, id);
      var k := s.counter + 1;
      assert k !in s.owner;
    }
  }

  lemma RespondCorrelated(s: State, serial: Serial, body: Body)
    requires Correlated(s)
    ensures Correlated(Respond(s, serial, body))
  {
  }

  lemma ExpireCorrelated(s: State, id: RequestId)
    requires Correlated(s)
    ensures Correlated(s.(status := Settle(s.status, id, TimedOut)))
  {
  }

  lemma BrokenCorrelated(s: State)
    requires Correlated(s)
    ensures Correlated(Exit(s))
  {
    ExitCorrelated(s);
  }

  lemma ShutdownCorrelated(s: State)
    requires Correlated(s)
    ensures Correlated(s.(queue := s.queue + [Shutdown]))
  {
  }

  lemma ApplyCorrelated(s: State, e: Event)
    requires s.counter < WRAP && Accounted(s) && !s.overflowed && Correlated(s) && !Apply(s, e).overflowed
    ensures Correlated(Apply(s, e))
  {
    hide Correlated;
    hide Accounted;
    hide Take;
    hide Enqueue;
    hide Exit;
    hide Respond;
    hide Ping;
    hide TakeSerial;
    hide Settle;
    match e
    case Reserve(id) => TakeSerialCorrelated(s, id);
    case Submit(id) => EnqueueCorrelated(s, id);
    case SendShutdown => ShutdownCorrelated(s);
    case Expire(id) => ExpireCorrelated(s, id);
    case TakeCommand(writeOk) => if s.alive && s.queue != [] { TakeCorrelated(s, writeOk); }
    case ReceiveResponse(serial, body) => RespondCorrelated(s, serial, body);
    case ReceiveOther =>
    case ReceiveBroken => BrokenCorrelated(s);
    case KeepAlive(writeOk) => PingCorrelated(s, writeOk);
  }

  lemma OverflowStays(s: State, e: Event)
    requires s.counter < WRAP && s.overflowed
    ensures Apply(s, e).overflowed
  {
    hide Take;
    hide Exit;
  }

  /** Every step keeps the invariant. */
  lemma ApplyInv(s: State, e: Event)
    requires Inv(s)
    ensures Inv(Apply(s, e))
  {
    hide Apply;
    hide Accounted;
    hide Correlated;
    ApplyAccounted(s, e);
    if s.overflowed {
      OverflowStays(s, e);
    } else if !Apply(s, e).overflowed {
      ApplyCorrelated(s, e);
    }
  }

  /** The invariant holds after every run. */
  lemma {:induction false} RunInv(events: seq<Event>)
    ensures Inv(Run(events))
  {
    if events != [] {
      RunInv(events[..|events| - 1]);
      ApplyInv(Run(events[..|events| - 1]), events[|events| - 1]);
    }
  }
}
