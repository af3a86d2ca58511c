/** The connection actor in the form the source has it, an object whose handlers update its fields
    (`truefix-futu-client/src/actor.rs`), each handler being a step of the state machine. Reply channels are
    the requests' statuses; whether a socket write succeeds is an argument. */
module RequestConnection {
  import opened Decimal
  import opened RequestActor

  lemma SettleAllTwice(status: map<RequestId, Status>, a: set<RequestId>, b: set<RequestId>, outcome: Status)
    requires !outcome.Waiting?
    ensures SettleAll(SettleAll(status, a, outcome), b, outcome) == SettleAll(status, a + b, outcome)
  {
  }

  lemma SettleAllOne(status: map<RequestId, Status>, a: set<RequestId>, id: RequestId, outcome: Status)
    requires !outcome.Waiting?
    ensures Settle(SettleAll(status, a, outcome), id, outcome) == SettleAll(status, a + {id}, outcome)
  {
  }

  class Connection {
    var counter: nat
    var alive: bool
    var queue: seq<Command>
    var pending: map<Serial, RequestId>
    var status: map<RequestId, Status>
    var reserved: map<RequestId, Serial>
    var owner: map<Serial, RequestId>
    var overflowed: bool

    constructor ()
      ensures View() == START
    {
      counter, alive, queue, pending, status, reserved, owner, overflowed := 1, true, [], map[], map[], map[], map[], false;
    }

    function View(): (s: State)
      reads this
    {
      State(counter, alive, queue, pending, status, reserved, owner, overflowed)
    }

    method NextSerial() returns (r: Option<Serial>)
      requires counter < WRAP
      modifies this`counter, this`overflowed
      ensures (r, counter) == Allocate(old(counter)) && overflowed == (old(overflowed) || r.None?)
    {
      var current := counter;
      counter := (counter + 1) % WRAP;
      if current == U32_MAX {
        overflowed := true;
        return None;
      }
      r := Some(current + 1);
    }

    /** Answering on a reply channel: lost if the caller no longer listens. */
    method Reply(id: RequestId, outcome: Status)
      modifies this`status
      ensures status == Settle(old(status), id, outcome)
    {
      if id in status && status[id].Waiting? {
        status := status[id := outcome];
      }
    }

    method FailPending()
      modifies this`pending, this`status
      ensures pending == map[]
      ensures status == SettleAll(old(status), old(pending).Values, Failed(ActorGone))
    {
      ghost var done: set<RequestId> := {};
      while pending != map[]
        invariant pending.Keys <= old(pending).Keys && forall k :: k in pending ==> pending[k] == old(pending)[k]
        invariant done == set k | k in old(pending) && k !in pending :: old(pending)[k]
        invariant status == SettleAll(old(status), done, Failed(ActorGone))
        decreases pending.Keys
      {
        assert pending.Keys != {};
        var k :| k in pending.Keys;
        SettleAllOne(old(status), done, pending[k], Failed(ActorGone));
        Reply(pending[k], Failed(ActorGone));
        done := done + {pending[k]};
        pending := pending - {k};
      }
      assert done == old(pending).Values;
    }

    /** Dropping the receiving end of the command channel drops the reply channels still in it. */
    method DropQueue()
      modifies this`queue, this`status
      ensures queue == []
      ensures status == SettleAll(old(status), QueuedIds(old(queue)), Failed(ActorGone))
    {
      ghost var done: set<RequestId> := {};
      while queue != []
        invariant done + QueuedIds(queue) == QueuedIds(old(queue))
        invariant status == SettleAll(old(status), done, Failed(ActorGone))
        decreases |queue|
      {
        QueuedTail(queue);
        match queue[0] {
          case Request(id, _) =>
            SettleAllOne(old(status), done, id, Failed(ActorGone));
            Reply(id, Failed(ActorGone));
            done := done + {id};
          case Shutdown =>
        }
        queue := queue[1..];
      }
    }

    /** The end of `run`. */
    method Finish()
      modifies this
      ensures View() == Exit(old(View()))
    {
      FailPending();
      SettleAllTwice(old(status), old(pending).Values, QueuedIds(queue), Failed(ActorGone));
      DropQueue();
      alive := false;
    }

    method OnCommand(id: RequestId, given: Option<Serial>, writeOk: bool)
      requires counter < WRAP
      modifies this
      ensures View() == TakeRequest(old(View()), id, given, writeOk)
    {
      var serial: Serial;
      match given {
        case Some(k) => serial := k;
        case None =>
          var next := NextSerial();
          if next.None? {
            Reply(id, Failed(ActorGone));
            Finish();
            return;
          }
          serial := next.value;
          owner := owner[serial := id];
      }
      if serial in pending {
        Reply(pending[serial], Failed(ActorGone));
      }
      pending := pending[serial := id];
      if !writeOk {
        pending := pending - {serial};
        Reply(id, Failed(Io));
        Finish();
      }
    }

    method OnResponse(serial: Serial, body: Body)
      modifies this`pending, this`status
      ensures View() == Respond(old(View()), serial, body)
    {
      if alive && serial in pending {
        var id := pending[serial];
        pending := pending - {serial};
        Reply(id, Done(serial, body));
      }
    }

    method OnKeepAlive(writeOk: bool)
      requires counter < WRAP
      modifies this
      ensures View() == Ping(old(View()), writeOk)
    {
      if alive {
        var serial := NextSerial();
        if serial.None? || !writeOk {
          Finish();
        }
      }
    }

    /** One event of the run. */
    method Handle(e: Event)
      requires counter < WRAP
      modifies this
      ensures View() == Apply(old(View()), e) && counter < WRAP
    {
      match e
      case Reserve(id) =>
        if id !in status && id !in reserved {
          var serial := NextSerial();
          match serial {
            case None => status := status[id := Failed(SerialOverflow)];
            case Some(k) => reserved, owner := reserved[id := k], owner[k := id];
          }
        }
      case Submit(id) =>
        if id !in status {
          var serial := if id in reserved then Some(reserved[id]) else None;
          reserved := reserved - {id};
          if alive {
            status, queue := status[id := Waiting], queue + [Request(id, serial)];
          } else {
            status := status[id := Failed(ActorGone)];
          }
        }
      case SendShutdown => if alive { queue := queue + [Shutdown]; }
      case Expire(id) => Reply(id, TimedOut);
      case TakeCommand(writeOk) =>
        if alive && queue != [] {
          var command := queue[0];
          queue := queue[1..];
          match command {
            case Shutdown => Finish();
            case Request(id, given) => OnCommand(id, given, writeOk);
          }
        }
      case ReceiveResponse(serial, body) => OnResponse(serial, body);
      case ReceiveOther =>
      case ReceiveBroken => if alive { Finish(); }
      case KeepAlive(writeOk) => OnKeepAlive(writeOk);
    }
  }

  /** A connection fed a list of events ends in the state the run gives, so all that is proved of runs is
      proved of the object. */
  method RunConnection(events: seq<Event>) returns (c: Connection)
    ensures fresh(c) && c.View() == Run(events) && Inv(c.View())
  {
    c := new Connection();
    for i := 0 to |events|
      invariant fresh(c) && c.View() == Run(events[..i])
    {
      assert events[..i + 1][..i] == events[..i];
      c.Handle(events[i]);
    }
    assert events[..|events|] == events;
    RunInv(events);
  }
}
