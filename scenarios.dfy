/** Client runs of the bridge, as the tests in python/test/test_watchfs.py
    drive it: each builds a fresh Watcher, plays the worker's part with the
    frames the Rust side writes, and states what the consumer observes. They
    rely on the contracts of the Watcher's steps alone. */
module Scenarios {
  import opened Wrappers
  import opened Endian
  import opened PyWatcher
  import PyWire
  import RustWire
  import Worker
  import Utf8

  /** Start a watcher and let its worker connect; `start` is then waiting
      for the "ready" frame. */
  method ConnectedWatcher(stop: Option<bool>, port: Option<int>, draw: int) returns (w: Watcher)
    requires stop != Some(true)
    requires LowestPort <= draw <= HighestPort
    ensures fresh(w) && w.Valid()
    ensures w.receiverTask == NotCreated && w.rustTask == Pending && !w.stopSet && w.socketConnected
    ensures w.inbox == [] && !w.inboxEof && w.queue == [] && w.outbox == [] && !w.writerClosed
    ensures w.port.Some? && w.log == [Bind(w.port.value), LaunchWorker]
    ensures port.Some? ==> w.port == port
  {
    w := new Watcher("watched", true, stop, port);
    var started := w.Start(draw, Bound);
    w.HandleConnection();
  }

  /** Start a watcher whose worker connects and has written "ready" followed by
      `after`; the receive loop is then running. */
  method StartedWatcher(stop: Option<bool>, port: Option<int>, draw: int, after: seq<u8>) returns (w: Watcher)
    requires stop != Some(true)
    requires LowestPort <= draw <= HighestPort
    ensures fresh(w) && w.Valid()
    ensures w.receiverTask == Pending && w.rustTask == Pending && !w.stopSet
    ensures w.inbox == after && !w.inboxEof && w.queue == [] && w.outbox == [] && !w.writerClosed
    ensures w.port.Some? && w.log == [Bind(w.port.value), LaunchWorker, ReadReady, StartReceiver]
    ensures port.Some? ==> w.port == port
  {
    w := ConnectedWatcher(stop, port, draw);
    ReadyFrameIsRead(after, false);
    Handshake(w, RustWire.SendFrame("ready"), after);
  }

  /** The worker writes `frame` followed by `after`, and `start` reads
      `frame` as "ready" and starts the receive loop. */
  method Handshake(w: Watcher, frame: seq<u8>, after: seq<u8>)
    requires w.Valid() && w.receiverTask == NotCreated && w.rustTask == Pending && !w.stopSet && w.socketConnected
    requires w.inbox == [] && !w.inboxEof && w.queue == [] && w.outbox == [] && !w.writerClosed
    requires PyWire.Receive(frame + after, false) == (PyWire.Message("ready"), after)
    modifies w
    ensures w.Valid() && w.receiverTask == Pending && w.rustTask == Pending && !w.stopSet
    ensures w.inbox == after && !w.inboxEof && w.queue == [] && w.outbox == [] && !w.writerClosed
    ensures w.port == old(w.port) && w.log == old(w.log) + [ReadReady, StartReceiver]
  {
    w.WorkerSends(frame + after);
    assert w.inbox == frame + after;
    var ready := w.AwaitReady();
  }

  /** The receive loop takes the frames of `ms` off the reader one by one and
      queues their messages in order. */
  method ReceiveAll(w: Watcher, ms: seq<string>)
    requires forall i :: 0 <= i < |ms| ==> RustWire.Fits(ms[i])
    requires w.Valid() && w.receiverTask == Pending && w.rustTask == Pending && !w.stopSet
    requires w.inbox == RustWire.SendFrames(ms) && !w.inboxEof && w.queue == []
    modifies w
    ensures w.Valid() && w.rustTask == Pending && !w.stopSet && w.queue == ms
  {
    var i := 0;
    while i < |ms|
      invariant 0 <= i <= |ms|
      invariant w.Valid() && w.receiverTask == Pending && w.rustTask == Pending && !w.stopSet
      invariant w.inbox == RustWire.SendFrames(ms[i..]) && !w.inboxEof
      invariant w.queue == ms[..i]
    {
      assert ms[i..] == [ms[i]] + ms[i + 1..];
      PyWire.ReceiveRustFrame(ms[i], RustWire.SendFrames(ms[i + 1..]), false);
      w.ReceiveStep();
      assert ms[..i + 1] == ms[..i] + [ms[i]];
      i := i + 1;
    }
  }

  /** The consumer pulls every queued message, in order. */
  method PullAll(w: Watcher) returns (got: seq<string>)
    requires w.Valid() && w.rustTask == Pending && !w.stopSet
    modifies w
    ensures got == old(w.queue)
  {
    got := [];
    while w.queue != []
      invariant w.Valid() && w.rustTask == Pending && !w.stopSet
      invariant got + w.queue == old(w.queue)
      decreases |w.queue|
    {
      var next := w.AnextStep();
      got := got + [next.message];
    }
  }

  /** Events written by the worker in order reach the consumer in the same
      order, none dropped and none repeated. */
  method OrderedDelivery(ms: seq<string>, draw: int) returns (got: seq<string>)
    requires forall i :: 0 <= i < |ms| ==> RustWire.Fits(ms[i])
    requires LowestPort <= draw <= HighestPort
    ensures got == ms
  {
    var w := StartedWatcher(None, None, draw, RustWire.SendFrames(ms));
    ReceiveAll(w, ms);
    got := PullAll(w);
  }

  /** A caller's port that another listener holds: `start` raises OSError and
      no worker is launched. */
  method PortBusy(port: int) returns (r: Outcome, launched: bool)
    ensures r == Failure(OSError) && !launched
  {
    var w := new Watcher("watched", true, None, Some(port));
    r := w.Start(LowestPort, AddressInUse);
    launched := w.rustTask != NotCreated;
  }

  /** No retry without a port either: a drawn port that is in use makes
      `start` raise OSError. */
  method DrawnPortBusy(draw: int) returns (r: Outcome, chosen: int)
    requires LowestPort <= draw <= HighestPort
    ensures r == Failure(OSError) && chosen == draw
  {
    var w := new Watcher("watched", true, None, None);
    r := w.Start(draw, AddressInUse);
    chosen := w.port.value;
  }

  /** Stop before any event: the iteration yields nothing, the worker has
      read "stop" and returned, and the writer is closed. */
  method StopBeforeAnyEvent(draw: int) returns (first: Next, stopped: Outcome, sent: seq<u8>, closed: bool)
    requires LowestPort <= draw <= HighestPort
    ensures first == Wait
    ensures stopped == Success && closed
    ensures sent == RustWire.SendFrame("stop")
    ensures Worker.StopScan(sent) == Ok([])
  {
    var w := StartedWatcher(None, None, draw, []);
    first := w.AnextStep();
    stopped := w.Stop(false);
    sent := w.outbox;
    closed := w.writerClosed;
    StopFrameEndsWorkerLoop([]);
    assert StopFrame() + [] == StopFrame();
  }

  /** Another task sets the stop event while the consumer is waiting on an
      empty queue: the next pass ends the iteration. */
  method ExternalStop(draw: int) returns (before: Next, after: Next)
    requires LowestPort <= draw <= HighestPort
    ensures before == Wait && after == EndIteration
  {
    var w := StartedWatcher(Some(false), None, draw, []);
    before := w.AnextStep();
    w.SetStopEvent();
    after := w.AnextStep();
  }

  /** A worker that fails before any stop ends the iteration quietly, even
      with an event still queued; the failure only surfaces from `stop`, and
      the writer stays open. */
  method WorkerCrash(m: string, draw: int) returns (next: Next, queued: seq<string>, stopped: Outcome, closed: bool)
    requires RustWire.Fits(m)
    requires LowestPort <= draw <= HighestPort
    ensures next == EndIteration && queued == [m]
    ensures stopped == Failure(WorkerFailed) && !closed
  {
    var w := StartedWatcher(None, None, draw, RustWire.SendFrame(m));
    PyWire.ReceiveRustFrame(m, [], false);
    assert RustWire.SendFrame(m) + [] == RustWire.SendFrame(m);
    w.ReceiveStep();
    w.WorkerExits(true);
    next := w.AnextStep();
    queued := w.queue;
    stopped := w.Stop(false);
    closed := w.writerClosed;
  }

  /** A payload that is not UTF-8 ends the receive loop instead of being
      skipped: the event sent after it never reaches the queue. */
  method MalformedFrameStopsReceiver(m: string, draw: int) returns (queued: seq<string>, receiverEnded: bool)
    requires RustWire.Fits(m)
    requires LowestPort <= draw <= HighestPort
    ensures queued == [] && receiverEnded
  {
    var bad: seq<u8> := [0, 1, 0xFF];
    assert Utf8.Decode([0xFF]) == None;
    var w := StartedWatcher(None, None, draw, bad + RustWire.SendFrame(m));
    assert (bad + RustWire.SendFrame(m))[..2] == [0, 1];
    assert (bad + RustWire.SendFrame(m))[2..][..1] == [0xFF];
    w.ReceiveStep();
    queued := w.queue;
    receiverEnded := w.receiverTask == Raised;
  }
}
