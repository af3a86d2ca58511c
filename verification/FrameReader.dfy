/** The receive loop of the acceptance-test runner (`truefix-at/src/runner.rs`): bytes arrive in
    chunks of any size, with timeouts and failures in between, and frames are drained one at a time.
    A frame here is its raw bytes; decoding them is a separate step. */
module FrameReader {
  import opened Decimal
  import opened Framing

  const CHUNK_SIZE: nat := 4096

  /** A framing function that only ever cuts off bytes that are there; `FrameLength` is one. */
  type Framer = f: seq<Byte> -> Framed |
    forall s :: f(s).Complete? ==> 0 < f(s).total <= |s| witness (s: seq<Byte>) => Incomplete

  /** Its verdicts do not change as more bytes arrive. */
  ghost predicate Stable(f: Framer) {
    forall s, ext :: f(s) != Incomplete ==> f(s + ext) == f(s)
  }

  type Chunk = s: seq<Byte> | 0 < |s| <= CHUNK_SIZE witness [0]

  /** What one awaited socket read gives; a closed stream gives no further event. */
  datatype ReadEvent = Data(bytes: Chunk) | TimedOut | Failed

  datatype Outcome = Frame(raw: seq<Byte>) | ReadTimedOut | ReadFailed | CleanEof

  /** The bytes of a stream, whatever the chunks they came in. */
  function Payload(events: seq<ReadEvent>): (s: seq<Byte>) {
    if events == [] then []
    else (if events[0].Data? then events[0].bytes else []) + Payload(events[1..])
  }

  function Concat(frames: seq<seq<Byte>>): (s: seq<Byte>) {
    if frames == [] then [] else frames[0] + Concat(frames[1..])
  }

  /** Reference: cut every complete frame off the front of one whole buffer. */
  function Drain(f: Framer, buf: seq<Byte>): (r: (seq<seq<Byte>>, seq<Byte>))
    decreases |buf|
  {
    match f(buf)
    case Complete(n) => var rest := Drain(f, buf[n..]); ([buf[..n]] + rest.0, rest.1)
    case _ => ([], buf)
  }

  /** One call of `read_message`: its outcome, the bytes it leaves buffered, the events it leaves. */
  function Read(f: Framer, buf: seq<Byte>, events: seq<ReadEvent>): (r: (Outcome, seq<Byte>, seq<ReadEvent>))
    ensures |r.2| <= |events|
    ensures r.0.Frame? && |r.2| == |events| ==> |r.1| < |buf|
    ensures !r.0.Frame? && events != [] ==> |r.2| < |events|
    decreases |events|
  {
    match f(buf)
    case Complete(n) => (Frame(buf[..n]), buf[n..], events)
    case _ =>
      if events == [] then (CleanEof, buf, events)
      else match events[0]
        case TimedOut => (ReadTimedOut, buf, events[1..])
        case Failed => (ReadFailed, buf, events[1..])
        case Data(bytes) => Read(f, buf + bytes, events[1..])
  }

  /** Calling `read_message` again and again until the stream is exhausted: all the frames returned,
      and the bytes left over. */
  function ReadAll(f: Framer, buf: seq<Byte>, events: seq<ReadEvent>): (r: (seq<seq<Byte>>, seq<Byte>))
    decreases |events|, |buf|
  {
    var (outcome, buf', events') := Read(f, buf, events);
    match outcome
    case Frame(raw) => var rest := ReadAll(f, buf', events'); ([raw] + rest.0, rest.1)
    case CleanEof => ([], buf')
    case _ => if events == [] then ([], buf') else ReadAll(f, buf', events')
  }

  /** What the caller gets: a decoded message, a frame that does not decode, or the reason there is none. */
  datatype Received<+M> = Received(message: M) | DecodeFailed(raw: seq<Byte>) | NoFrame(why: Outcome)

  function Decoded<M>(decode: seq<Byte> -> Option<M>, outcome: Outcome): (r: Received<M>)
    ensures r.NoFrame? <==> !outcome.Frame?
    ensures r.Received? ==> outcome.Frame? && decode(outcome.raw) == Some(r.message)
    ensures r.DecodeFailed? ==> outcome.Frame? && r.raw == outcome.raw && decode(r.raw).None?
  {
    if !outcome.Frame? then NoFrame(outcome)
    else match decode(outcome.raw)
      case Some(m) => Received(m)
      case None => DecodeFailed(outcome.raw)
  }

  class Reader {
    var buf: seq<Byte>
    var events: seq<ReadEvent>

    constructor (events: seq<ReadEvent>)
      ensures this.buf == [] && this.events == events
    {
      this.buf, this.events := [], events;
    }

    /** Read one framed message, keeping incomplete bytes in `buf`. */
    method ReadMessage() returns (outcome: Outcome)
      modifies this
      ensures (outcome, buf, events) == Read(FrameLength, old(buf), old(events))
    {
      while true
        invariant Read(FrameLength, buf, events) == Read(FrameLength, old(buf), old(events))
        decreases |events|
      {
        var framed := FrameLength(buf);
        if framed.Complete? {
          var raw := buf[..framed.total];
          buf := buf[framed.total..];
          return Frame(raw);
        }
        if events == [] {
          return CleanEof;
        }
        var event := events[0];
        events := events[1..];
        match event
        case TimedOut => return ReadTimedOut;
        case Failed => return ReadFailed;
        case Data(bytes) => buf := buf + bytes;
      }
    }

    /** The whole of `read_message`, for any decoder: the frame is gone from the buffer whether it decodes or
        not, and decoding decides nothing else. */
    method ReceiveMessage<M>(decode: seq<Byte> -> Option<M>) returns (r: Received<M>)
      modifies this
      ensures var (outcome, rest, left) := Read(FrameLength, old(buf), old(events));
              buf == rest && events == left && r == Decoded(decode, outcome)
    {
      var outcome := ReadMessage();
      if !outcome.Frame? {
        return NoFrame(outcome);
      }
      match decode(outcome.raw) {
        case Some(m) => r := Received(m);
        case None => r := DecodeFailed(outcome.raw);
      }
    }
  }

  lemma FrameLengthIsStable()
    ensures Stable(FrameLength)
  {
    hide FrameLength;
    forall s, ext ensures FrameLength(s) != Incomplete ==> FrameLength(s + ext) == FrameLength(s) {
      FrameLengthStable(s, ext);
    }
  }

  lemma ConcatCons(first: seq<Byte>, rest: seq<seq<Byte>>)
    ensures Concat([first] + rest) == first + Concat(rest)
  {
    assert ([first] + rest)[1..] == rest;
  }

  lemma SplitAgain(buf: seq<Byte>, n: nat, middle: seq<Byte>, tail: seq<Byte>)
    requires n <= |buf| && middle + tail == buf[n..]
    ensures (buf[..n] + middle) + tail == buf
  {
    assert (buf[..n] + middle) + tail == buf[..n] + (middle + tail);
  }

  /** One turn of draining. */
  lemma DrainStep(f: Framer, buf: seq<Byte>)
    ensures !f(buf).Complete? ==> Drain(f, buf) == ([], buf)
    ensures f(buf).Complete? ==>
              var n, rest := f(buf).total, Drain(f, buf[f(buf).total..]);
              Drain(f, buf) == ([buf[..n]] + rest.0, rest.1)
  {
  }

  /** Nothing is lost, added or reordered. */
  lemma {:induction false} DrainLossless(f: Framer, buf: seq<Byte>)
    ensures Concat(Drain(f, buf).0) + Drain(f, buf).1 == buf
    decreases |buf|
  {
    hide Drain;
    DrainStep(f, buf);
    if f(buf).Complete? {
      var n := f(buf).total;
      var rest := Drain(f, buf[n..]);
      DrainLossless(f, buf[n..]);
      ConcatCons(buf[..n], rest.0);
      SplitAgain(buf, n, Concat(rest.0), rest.1);
    }
  }

  /** Frames sent back to back are drained as they were sent. */
  lemma {:induction false} DrainFrames(f: Framer, frames: seq<seq<Byte>>)
    requires Stable(f)
    requires forall i :: 0 <= i < |frames| ==> f(frames[i]) == Complete(|frames[i]|)
    ensures Drain(f, Concat(frames)) == (frames, [])
  {
    if frames != [] {
      var e, rest := frames[0], Concat(frames[1..]);
      DrainFrames(f, frames[1..]);
      assert f(e + rest) == f(e);
      assert (e + rest)[..|e|] == e && (e + rest)[|e|..] == rest;
      assert [e] + frames[1..] == frames;
    }
  }

  lemma ReadAllFrame(f: Framer, buf: seq<Byte>, events: seq<ReadEvent>)
    requires f(buf).Complete?
    ensures var n, rest := f(buf).total, ReadAll(f, buf[f(buf).total..], events);
            ReadAll(f, buf, events) == ([buf[..n]] + rest.0, rest.1)
  {
  }

  lemma ReadAllEvent(f: Framer, buf: seq<Byte>, events: seq<ReadEvent>)
    requires !f(buf).Complete? && events != []
    ensures ReadAll(f, buf, events) == ReadAll(f, if events[0].Data? then buf + events[0].bytes else buf, events[1..])
  {
    if events[0].Data? {
      assert Read(f, buf, events) == Read(f, buf + events[0].bytes, events[1..]);
    }
  }

  lemma CutWithin(buf: seq<Byte>, more: seq<Byte>, n: nat)
    requires n <= |buf|
    ensures (buf + more)[n..] == buf[n..] + more && (buf + more)[..n] == buf[..n]
  {
  }

  /** However the stream is cut into chunks, and whatever timeouts or failures interrupt it, the frames
      returned and the bytes left over are those of draining the whole stream at once. */
  lemma {:induction false} ReadAllIsDrain(f: Framer, buf: seq<Byte>, events: seq<ReadEvent>)
    requires Stable(f)
    ensures ReadAll(f, buf, events) == Drain(f, buf + Payload(events))
    decreases |events|, |buf|
  {
    var all := buf + Payload(events);
    if f(buf).Complete? {
      hide ReadAll;
      hide Drain;
      var n := f(buf).total;
      assert f(all) == f(buf);
      DrainStep(f, all);
      CutWithin(buf, Payload(events), n);
      ReadAllFrame(f, buf, events);
      ReadAllIsDrain(f, buf[n..], events);
    } else if events == [] {
      hide Drain;
      DrainStep(f, buf);
      assert all == buf;
    } else {
      hide ReadAll;
      hide Drain;
      ReadAllEvent(f, buf, events);
      if events[0].Data? {
        assert all == (buf + events[0].bytes) + Payload(events[1..]);
        ReadAllIsDrain(f, buf + events[0].bytes, events[1..]);
      } else {
        assert Payload(events) == Payload(events[1..]);
        ReadAllIsDrain(f, buf, events[1..]);
      }
    }
  }

  /** Two runs of the receive loop that carry the same bytes return the same frames and leave the same
      bytes, and together these are exactly the stream. */
  lemma ChunkingIrrelevant(events: seq<ReadEvent>, events': seq<ReadEvent>)
    requires Payload(events) == Payload(events')
    ensures ReadAll(FrameLength, [], events) == ReadAll(FrameLength, [], events')
    ensures Concat(ReadAll(FrameLength, [], events).0) + ReadAll(FrameLength, [], events).1 == Payload(events)
  {
    hide FrameLength;
    FrameLengthIsStable();
    ReadAllIsDrain(FrameLength, [], events);
    ReadAllIsDrain(FrameLength, [], events');
    assert [] + Payload(events) == Payload(events);
    DrainLossless(FrameLength, Payload(events));
  }

  /** Once the front of the buffer is malformed the reader never returns another frame: it keeps
      every byte that arrives. */
  lemma MalformedIsFinal(buf: seq<Byte>, events: seq<ReadEvent>)
    requires FrameLength(buf).Malformed?
    ensures ReadAll(FrameLength, buf, events) == ([], buf + Payload(events))
  {
    hide FrameLength;
    FrameLengthIsStable();
    ReadAllIsDrain(FrameLength, buf, events);
    FrameLengthStable(buf, Payload(events));
  }

  /** Cutting a buffer right after its first frame leaves that frame complete. */
  lemma CompletePrefix(buf: seq<Byte>)
    requires FrameLength(buf).Complete?
    ensures FrameLength(buf[..FrameLength(buf).total]) == FrameLength(buf)
  {
    hide ReadHeader;
    var n := FrameLength(buf).total;
    var p := buf[..n];
    var h := ReadHeader(buf);
    ReadHeaderPrefix(buf);
    var head := buf[..h.bodyStart];
    assert p == head + p[h.bodyStart..];
    ReadHeaderAppend(head, p[h.bodyStart..]);
    assert p[n - 7..n - 4] == buf[n - 7..n - 4];
  }

  /** Everything the loop cuts off is itself one complete frame, and what stays does not begin with one. */
  lemma {:induction false} DrainedAreFrames(buf: seq<Byte>)
    ensures forall i :: 0 <= i < |Drain(FrameLength, buf).0| ==>
              FrameLength(Drain(FrameLength, buf).0[i]) == Complete(|Drain(FrameLength, buf).0[i]|)
    ensures !FrameLength(Drain(FrameLength, buf).1).Complete?
    decreases |buf|
  {
    hide FrameLength;
    match FrameLength(buf)
    case Complete(n) =>
      DrainedAreFrames(buf[n..]);
      CompletePrefix(buf);
    case _ =>
  }

  // ----- what one call returns

  /** The first `k` events are data, and no fewer of them complete a frame. */
  ghost predicate Gathers(f: Framer, buf: seq<Byte>, events: seq<ReadEvent>, k: nat) {
    && k <= |events|
    && (forall i :: 0 <= i < k ==> events[i].Data? && !f(buf + Payload(events[..i])).Complete?)
  }

  /** One call gathers data until a frame is complete, the events run out, or one of them is no data; it returns the
      frame, the end of the stream or what that event was, with the bytes behind the frame, or all bytes, kept. */
  lemma {:induction false} ReadStops(f: Framer, buf: seq<Byte>, events: seq<ReadEvent>) returns (k: nat)
    ensures Gathers(f, buf, events, k)
    ensures var all := buf + Payload(events[..k]);
            Read(f, buf, events) ==
              if f(all).Complete? then (Frame(all[..f(all).total]), all[f(all).total..], events[k..])
              else if k == |events| then (CleanEof, all, [])
              else if events[k].TimedOut? then (ReadTimedOut, all, events[k + 1..])
              else (ReadFailed, all, events[k + 1..])
    ensures f(buf + Payload(events[..k])).Complete? || k == |events| || !events[k].Data?
    decreases |events|
  {
    assert buf + Payload([]) == buf && events[..0] == [] && events[0..] == events;
    k := 0;
    if !f(buf).Complete? && events != [] && events[0].Data? {
      var more, rest := buf + events[0].bytes, events[1..];
      var n := ReadStops(f, more, rest);
      k := n + 1;
      forall i | 0 <= i <= n ensures more + Payload(rest[..i]) == buf + Payload(events[..i + 1]) {
        PayloadTail(buf, events, i + 1);
      }
      forall i | 0 <= i < k ensures events[i].Data? && !f(buf + Payload(events[..i])).Complete? {
        if i > 0 { assert events[i] == rest[i - 1]; }
      }
      assert rest[n..] == events[k..];
      if n < |rest| { assert rest[n] == events[k] && rest[n + 1..] == events[k + 1..]; }
    }
  }

  lemma PayloadTail(buf: seq<Byte>, events: seq<ReadEvent>, k: nat)
    requires 0 < k <= |events| && events[0].Data?
    ensures buf + Payload(events[..k]) == (buf + events[0].bytes) + Payload(events[1..][..k - 1])
  {
    assert events[..k][0] == events[0] && events[..k][1..] == events[1..][..k - 1];
  }
}
