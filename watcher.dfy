/** The consumer side of the bridge: class `Watcher` of
    python/watchfs/pywatchfs.py.

    asyncio's cooperative scheduling becomes explicit steps. Each method runs
    from one suspension point of the source to the next. `Start` runs `start`
    up to `await self.socket_connected.wait()`, and `AwaitReady` runs the rest
    of it. `ReceiveStep` is one pass of the loop of `get_messages_from_rust`.
    `AnextStep` is one pass of the loop of `__anext__`. `Stop` is `stop`. The
    worker process and the outside world act through the remaining methods:
    `HandleConnection` (the server's callback), `WorkerSends`,
    `WorkerClosesSocket`, `WorkerExits` and `SetStopEvent` (another task
    setting the shared stop event).

    Ghost fields record what an observer could see. `received` lists every
    message the receive loop has put into the queue, `delivered` every message
    `__anext__` has returned, and `log` the externally visible actions in the
    order they happened. */
module PyWatcher {
  import opened Wrappers
  import opened Endian
  import PyWire
  import RustWire
  import Worker
  import Utf8

  /** An asyncio task as the bridge sees it: not created yet (the attribute
      is still None), running, or done (returned or raised). */
  datatype Task = NotCreated | Pending | Returned | Raised {
    predicate Done() { Returned? || Raised? }
  }

  /** What `asyncio.start_server` does with the chosen port. */
  datatype BindOutcome = Bound | AddressInUse

  datatype Error =
    | OSError            // start_server could not bind the port
    | TimeoutError       // the "ready" header did not arrive within 0.1 s
    | IncompleteReadError
    | UnicodeDecodeError
    | AssertionError     // the first frame was not "ready"
    | AttributeError     // an attribute still None was used
    | TypeError          // asyncio.gather was given None
    | WorkerFailed       // the worker task raised; re-raised by gather

  datatype Outcome = Success | Failure(error: Error)

  /** How the rest of `start` ends once the worker has connected. */
  datatype ReadyOutcome = Ready | StillWaiting | StartFailed(error: Error)

  /** One pass through the loop of `__anext__`: return a message, end the
      iteration (StopAsyncIteration), or sleep 0.1 s and check again. */
  datatype Next = Item(message: string) | EndIteration | Wait | Raise(error: Error)

  /** How `start` ends for each way its `receive_str` can end. */
  function ReadyOutcomeOf(res: PyWire.Received): (r: ReadyOutcome)
    ensures r == Ready <==> res == PyWire.Message("ready")
    ensures r == StillWaiting <==> res == PyWire.PartialPayload
  {
    match res
    case Message(s) => if s == "ready" then Ready else StartFailed(AssertionError)
    case NoHeader => StartFailed(TimeoutError)
    case PartialPayload => StillWaiting
    case Incomplete => StartFailed(IncompleteReadError)
    case BadUtf8 => StartFailed(UnicodeDecodeError)
  }

  datatype Action =
    | Bind(port: int) | LaunchWorker | ReadReady | StartReceiver
    | SetStop | SendStop | AwaitWorker | CloseWriter

  const LowestPort: int := 1024
  const HighestPort: int := 65535

  /** The frame `stop` sends: the header [0, 4] and the four ASCII bytes of
      "stop", which is also the frame the Rust `send_str` writes for it. */
  function StopFrame(): (f: seq<u8>)
    ensures f == [0, 4, 0x73, 0x74, 0x6F, 0x70]
    ensures f == RustWire.SendFrame("stop")
    ensures PyWire.SendFrame("stop") == Ok(f)
  {
    var stop: string := "stop";
    assert Utf8.Encode(stop) == [0x73, 0x74, 0x6F, 0x70] by {
      assert Utf8.Encode(stop) == Utf8.EncodeChar('s') + Utf8.Encode(stop[1..]);
      assert Utf8.Encode(stop[1..]) == Utf8.EncodeChar('t') + Utf8.Encode(stop[2..]);
      assert Utf8.Encode(stop[2..]) == Utf8.EncodeChar('o') + Utf8.Encode(stop[3..]);
      assert Utf8.Encode(stop[3..]) == Utf8.EncodeChar('p') + Utf8.Encode(stop[4..]);
    }
    assert U16ToArrayOfU8(4) == [0, 4];
    assert RustWire.SendFrame(stop) == [0, 4] + [0x73, 0x74, 0x6F, 0x70];
    assert PyWire.SendFrame(stop).value == [0, 4] + [0x73, 0x74, 0x6F, 0x70];
    PyWire.SendFrame(stop).value
  }

  class Watcher {
    const path: string
    const recursive: bool
    var port: Option<int>
    var stopSet: bool
    var queue: seq<string>
    var listening: bool
    var socketConnected: bool
    var inbox: seq<u8>
    var inboxEof: bool
    var outbox: seq<u8>
    var writerClosed: bool
    var rustTask: Task
    var receiverTask: Task
    ghost var received: seq<string>
    ghost var delivered: seq<string>
    ghost var log: seq<Action>

    ghost predicate Valid()
      reads this
    {
      && received == delivered + queue
      && (receiverTask == NotCreated ==> received == [])
      && (receiverTask != NotCreated ==> socketConnected)
      && (socketConnected ==> listening && rustTask != NotCreated)
      && (!socketConnected ==> inbox == [] && !inboxEof && outbox == [] && !writerClosed)
    }

    /** `Watcher(path, recursive, stop, port)`. `stop` is the state of a
        caller-supplied event, None when the watcher makes its own (unset). */
    constructor (path: string, recursive: bool, stop: Option<bool>, port: Option<int>)
      ensures Valid()
      ensures this.path == path && this.recursive == recursive && this.port == port
      ensures stopSet == (stop == Some(true))
      ensures queue == [] && rustTask == NotCreated && receiverTask == NotCreated
      ensures !listening && !socketConnected && log == [] && delivered == []
    {
      this.path := path;
      this.recursive := recursive;
      this.port := port;
      stopSet := stop == Some(true);
      queue := [];
      listening, socketConnected := false, false;
      inbox, inboxEof, outbox, writerClosed := [], false, [], false;
      rustTask, receiverTask := NotCreated, NotCreated;
      received, delivered, log := [], [], [];
    }

    /** `open_stream`. Without a port it draws one with
        `random.randint(1024, 65535)`, the parameter `draw`, and makes one bind
        attempt: the `while True` body always leaves by `break` or by the
        exception. A caller's port is used as given. A failed bind raises
        OSError. */
    method OpenStream(draw: int, bind: BindOutcome) returns (r: Outcome)
      requires Valid()
      requires LowestPort <= draw <= HighestPort
      modifies this`port, this`listening, this`log
      ensures Valid()
      ensures old(port).None? ==> port == Some(draw)
      ensures old(port).Some? ==> port == old(port)
      ensures r == (if bind == Bound then Success else Failure(OSError))
      ensures listening == (old(listening) || bind == Bound)
      ensures log == old(log) + [Bind(port.value)]
    {
      if port.None? {
        port := Some(draw);
      }
      log := log + [Bind(port.value)];
      if bind == AddressInUse {
        return Failure(OSError);
      }
      listening := true;
      return Success;
    }

    /** `start` up to its first suspension: open the stream, then create the
        worker task. On a bind failure no worker is launched. */
    method Start(draw: int, bind: BindOutcome) returns (r: Outcome)
      requires Valid() && rustTask == NotCreated
      requires LowestPort <= draw <= HighestPort
      modifies this`port, this`listening, this`log, this`rustTask
      ensures Valid()
      ensures old(port).None? ==> port == Some(draw)
      ensures old(port).Some? ==> port == old(port)
      ensures r == (if bind == Bound then Success else Failure(OSError))
      ensures listening == (old(listening) || bind == Bound)
      ensures rustTask == (if r.Success? then Pending else NotCreated)
      ensures log == old(log) + [Bind(port.value)] + (if r.Success? then [LaunchWorker] else [])
    {
      r := OpenStream(draw, bind);
      if r.Failure? {
        return;
      }
      rustTask := Pending;
      log := log + [LaunchWorker];
    }

    /** The rest of `start`, once `socket_connected` is set: read one frame
        (the header within 0.1 s), require it to be "ready", then create the
        receive-loop task. A payload still on its way is waited for: nothing
        changes and the step can be retried. */
    method AwaitReady() returns (r: ReadyOutcome)
      requires Valid() && socketConnected && receiverTask == NotCreated
      modifies this`inbox, this`receiverTask, this`log
      ensures Valid()
      ensures r == ReadyOutcomeOf(PyWire.Receive(old(inbox), inboxEof).0)
      ensures PyWire.Receive(old(inbox), inboxEof).0 in {PyWire.NoHeader, PyWire.PartialPayload} ==> inbox == old(inbox)
      ensures PyWire.Receive(old(inbox), inboxEof).0 !in {PyWire.NoHeader, PyWire.PartialPayload} ==>
        inbox == PyWire.Receive(old(inbox), inboxEof).1
      ensures receiverTask == (if r == Ready then Pending else NotCreated)
      ensures log == old(log) + (if PyWire.Receive(old(inbox), inboxEof).0.Message? then [ReadReady] else [])
        + (if r == Ready then [StartReceiver] else [])
    {
      var (res, rest) := PyWire.Receive(inbox, inboxEof);
      match res {
        case NoHeader =>
          return StartFailed(TimeoutError);
        case PartialPayload =>
          return StillWaiting;
        case Incomplete =>
          inbox := rest;
          return StartFailed(IncompleteReadError);
        case BadUtf8 =>
          inbox := rest;
          return StartFailed(UnicodeDecodeError);
        case Message(s) =>
          inbox := rest;
          log := log + [ReadReady];
          if s != "ready" {
            return StartFailed(AssertionError);
          }
          receiverTask := Pending;
          log := log + [StartReceiver];
          return Ready;
      }
    }

    /** `handle_connection`: the server's callback when a client connects. It
        stores a fresh reader and writer, replacing any earlier ones. */
    method HandleConnection()
      requires Valid() && listening && rustTask != NotCreated
      modifies this`socketConnected, this`inbox, this`inboxEof, this`outbox, this`writerClosed
      ensures Valid()
      ensures socketConnected && inbox == [] && !inboxEof && outbox == [] && !writerClosed
    {
      socketConnected := true;
      inbox, inboxEof, outbox, writerClosed := [], false, [], false;
    }

    /** Bytes from the worker reach the reader's buffer. */
    method WorkerSends(bytes: seq<u8>)
      requires Valid() && socketConnected && !inboxEof
      modifies this`inbox
      ensures Valid() && inbox == old(inbox) + bytes
    {
      inbox := inbox + bytes;
    }

    /** The worker closes its end of the socket: the reader sees end of file. */
    method WorkerClosesSocket()
      requires Valid() && socketConnected
      modifies this`inboxEof
      ensures Valid() && inboxEof
    {
      inboxEof := true;
    }

    /** The worker task completes, by returning or by raising. */
    method WorkerExits(raised: bool)
      requires Valid() && rustTask == Pending
      modifies this`rustTask
      ensures Valid() && rustTask == (if raised then Raised else Returned)
    {
      rustTask := if raised then Raised else Returned;
    }

    /** Another task sets the shared stop event. */
    method SetStopEvent()
      requires Valid()
      modifies this`stopSet
      ensures Valid() && stopSet
    {
      stopSet := true;
    }

    /** One pass of `get_messages_from_rust`. The loop ends once stop is set
        or the worker is done. Otherwise one `receive_str` runs under a 0.1 s
        timeout. A message is put at the back of the queue. A timeout is
        swallowed, but a header it already read is gone. IncompleteReadError
        and UnicodeDecodeError are not caught and end the task. */
    method ReceiveStep()
      requires Valid() && receiverTask == Pending
      modifies this`inbox, this`queue, this`receiverTask, this`received
      ensures Valid()
      ensures old(stopSet || rustTask.Done()) ==>
        receiverTask == Returned && inbox == old(inbox) && queue == old(queue) && received == old(received)
      ensures !old(stopSet || rustTask.Done()) ==>
        var (res, rest) := PyWire.Receive(old(inbox), inboxEof);
        && inbox == rest
        && queue == old(queue) + (if res.Message? then [res.s] else [])
        && received == old(received) + (if res.Message? then [res.s] else [])
        && receiverTask == (if res.Incomplete? || res.BadUtf8? then Raised else Pending)
    {
      if stopSet || rustTask.Done() {
        receiverTask := Returned;
        return;
      }
      var (res, rest) := PyWire.Receive(inbox, inboxEof);
      inbox := rest;
      match res {
        case Message(s) =>
          queue := queue + [s];
          received := received + [s];
        case NoHeader =>
        case PartialPayload =>
        case Incomplete =>
          receiverTask := Raised;
        case BadUtf8 =>
          receiverTask := Raised;
      }
    }

    /** One pass of `__anext__`. Once stop is set or the worker is done it
        ends the iteration, even with messages still queued. Otherwise it
        returns the head of the queue and removes it, or sleeps when the
        queue is empty. Before `start` the worker task is None and
        `.done()` raises AttributeError. */
    method AnextStep() returns (r: Next)
      requires Valid()
      modifies this`queue, this`delivered
      ensures Valid()
      ensures (stopSet || rustTask.Done()) ==> r == EndIteration
      ensures !stopSet && rustTask == NotCreated ==> r == Raise(AttributeError)
      ensures !stopSet && rustTask == Pending && old(queue) == [] ==> r == Wait
      ensures !stopSet && rustTask == Pending && old(queue) != [] ==> r == Item(old(queue)[0])
      ensures r.Item? ==> queue == old(queue)[1..] && delivered == old(delivered) + [r.message]
      ensures !r.Item? ==> queue == old(queue) && delivered == old(delivered)
    {
      if !stopSet && rustTask == NotCreated {
        return Raise(AttributeError);
      }
      if stopSet || rustTask.Done() {
        return EndIteration;
      }
      if queue == [] {
        return Wait;
      }
      r := Item(queue[0]);
      delivered := delivered + [queue[0]];
      queue := queue[1..];
    }

    /** `stop`: set the stop event, send "stop", wait for the worker task, and
        close the writer. `asyncio.gather(self.message_receiver_task)` is not
        awaited and has no effect beyond rejecting None. If the worker is still
        running, `workerRaises` says how it ends. A worker that raised makes
        `gather` re-raise, and then the writer is never closed. */
    method Stop(workerRaises: bool) returns (r: Outcome)
      requires Valid()
      modifies this`stopSet, this`outbox, this`rustTask, this`writerClosed, this`log
      ensures Valid() && stopSet
      ensures old(receiverTask) == NotCreated ==>
        r == Failure(TypeError) && log == old(log) + [SetStop] && outbox == old(outbox)
        && rustTask == old(rustTask) && writerClosed == old(writerClosed)
      ensures old(receiverTask) != NotCreated ==>
        && outbox == old(outbox) + StopFrame()
        && rustTask == (if old(rustTask) == Pending then (if workerRaises then Raised else Returned) else old(rustTask))
        && r == (if rustTask == Raised then Failure(WorkerFailed) else Success)
        && writerClosed == (r.Success? || old(writerClosed))
        && log == old(log) + [SetStop, SendStop, AwaitWorker] + (if r.Success? then [CloseWriter] else [])
    {
      stopSet := true;
      log := log + [SetStop];
      if receiverTask == NotCreated {
        return Failure(TypeError);
      }
      outbox := outbox + StopFrame();
      log := log + [SendStop];
      if rustTask == Pending {
        rustTask := if workerRaises then Raised else Returned;
      }
      log := log + [AwaitWorker];
      if rustTask == Raised {
        return Failure(WorkerFailed);
      }
      writerClosed := true;
      log := log + [CloseWriter];
      return Success;
    }
  }

  // ---------------------------------------------------------------------------
  // The two ends of the protocol together

  /** The frame `stop` writes is the frame the Rust `send_str` writes for
      "stop", and the worker's command loop ends successfully on it, leaving
      whatever follows unread. */
  lemma StopFrameEndsWorkerLoop(tail: seq<u8>)
    ensures StopFrame() == RustWire.SendFrame("stop")
    ensures Worker.StopScan(StopFrame() + tail) == Ok(tail)
  {
    assert "stop"[0] as int < 0x80 && "stop"[1] as int < 0x80;
    assert "stop"[2] as int < 0x80 && "stop"[3] as int < 0x80;
    PyWire.AsciiFrameAgrees("stop");
    RustWire.CheckForStopTest(tail);
  }

  /** The worker's "ready" frame is what `start` expects: the Python reader
      takes it off the stream as the message "ready". */
  lemma ReadyFrameIsRead(rest: seq<u8>, eof: bool)
    ensures PyWire.Receive(RustWire.SendFrame("ready") + rest, eof) == (PyWire.Message("ready"), rest)
  {
    Utf8.EncodeLength("ready");
    PyWire.ReceiveRustFrame("ready", rest, eof);
  }
}
