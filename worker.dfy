/** The command loop of the Rust worker, `watch_path_rs` (src/lib.rs): connect
    to the bridge, start the filesystem watcher, send "ready", then read
    command frames until one reads exactly "stop". */
module Worker {
  import opened Wrappers
  import opened Endian
  import opened RustWire
  import Utf8
  import Framing

  datatype WorkerError = ConnectFailed | WatchSetupPanicked | Panicked(panic: Panic)

  const Finished: string := "Rust finished successfully"

  /** Where the loop `while !stop { stop = check_for_stop(..) }` ends on a given
      incoming stream: the bytes left unread after the first "stop" frame, or
      the panic of the first `receive_str` that fails. */
  function StopScan(incoming: seq<u8>): (r: Result<seq<u8>, Panic>)
    ensures r.Ok? ==> |r.value| <= |incoming| - 2
    decreases |incoming|
  {
    match ReceiveFrame(incoming)
    case Err(p) => Err(p)
    case Ok((s, rest)) => if s == "stop" then Ok(rest) else StopScan(rest)
  }

  /** The index of the first "stop" in a list of messages. */
  function FirstStop(ms: seq<string>): (k: nat)
    requires "stop" in ms
    ensures k < |ms| && ms[k] == "stop" && "stop" !in ms[..k]
  {
    if ms[0] == "stop" then 0
    else
      StopInTail(ms);
      var k := 1 + FirstStop(ms[1..]);
      assert ms[..k] == [ms[0]] + ms[1..][..k - 1];
      k
  }

  /** `watch_path_rs`. `connected` says whether `TcpStream::connect`
      succeeded (its `?` returns the error). `watching` says whether
      `start_watch` set up the filesystem watcher; its `unwrap`s panic
      otherwise, for example on a path that does not exist. The events the
      watcher callback writes to the cloned stream are not part of this
      model. */
  method WatchPathRs(stream: TcpStream, connected: bool, watching: bool) returns (r: Result<string, WorkerError>)
    modifies stream
    ensures !connected ==> r == Err(ConnectFailed) && unchanged(stream)
    ensures connected && !watching ==> r == Err(WatchSetupPanicked) && unchanged(stream)
    ensures connected && watching ==> stream.outgoing == old(stream.outgoing) + SendFrame("ready")
    ensures connected && watching ==> match StopScan(old(stream.incoming))
      case Ok(rest) => r == Ok(Finished) && stream.incoming == rest
      case Err(p) => r == Err(Panicked(p))
  {
    if !connected {
      return Err(ConnectFailed);
    }
    if !watching {
      return Err(WatchSetupPanicked);
    }
    SendStr(stream, "ready");
    var stop := false;
    while !stop
      invariant stream.outgoing == old(stream.outgoing) + SendFrame("ready")
      invariant !stop ==> StopScan(stream.incoming) == StopScan(old(stream.incoming))
      invariant stop ==> StopScan(old(stream.incoming)) == Ok(stream.incoming)
      decreases if stop then 0 else |stream.incoming| + 1
    {
      var check := CheckForStop(stream);
      match check
      case Err(p) => return Err(Panicked(p));
      case Ok(b) => stop := b;
    }
    return Ok(Finished);
  }

  /** If "stop" is among the messages after the first, so is it among all. */
  lemma StopInTail(ms: seq<string>)
    requires ms != [] && ms[0] != "stop" && "stop" in ms
    ensures "stop" in ms[1..]
  {
    var j :| 0 <= j < |ms| && ms[j] == "stop";
    assert ms[1..][j - 1] == "stop";
  }

  /** On a stream made of frames, the loop consumes the frames up to and
      including the first "stop" and no further. */
  lemma {:induction false} StopScanFramesStop(ms: seq<string>, tail: seq<u8>)
    requires forall i :: 0 <= i < |ms| ==> Fits(ms[i])
    requires "stop" in ms
    ensures StopScan(SendFrames(ms) + tail) == Ok(SendFrames(ms[FirstStop(ms) + 1..]) + tail)
  {
    ReceiveSendFrames(ms, tail);
    if ms[0] != "stop" {
      StopInTail(ms);
      StopScanFramesStop(ms[1..], tail);
      assert StopScan(SendFrames(ms) + tail) == StopScan(SendFrames(ms[1..]) + tail);
      assert ms[FirstStop(ms) + 1..] == ms[1..][FirstStop(ms[1..]) + 1..];
    }
  }

  /** On a stream of frames none of which is "stop", the loop reads past all
      of them. */
  lemma {:induction false} StopScanFramesNoStop(ms: seq<string>, tail: seq<u8>)
    requires forall i :: 0 <= i < |ms| ==> Fits(ms[i])
    requires "stop" !in ms
    ensures StopScan(SendFrames(ms) + tail) == StopScan(tail)
  {
    if ms == [] {
      assert SendFrames(ms) + tail == tail;
    } else {
      ReceiveSendFrames(ms, tail);
      assert ms[0] in ms;
      StopScanFramesNoStop(ms[1..], tail);
      assert StopScan(SendFrames(ms) + tail) == StopScan(SendFrames(ms[1..]) + tail);
    }
  }

  /** On a stream that ends before any "stop" frame the worker panics in
      `receive_str`: the loop never ends successfully without a stop command. */
  lemma {:induction false} NoStopPanics(ms: seq<string>)
    requires forall i :: 0 <= i < |ms| ==> Fits(ms[i])
    requires "stop" !in ms
    ensures StopScan(SendFrames(ms)) == Err(UnexpectedEof)
  {
    StopScanFramesNoStop(ms, []);
    assert SendFrames(ms) + [] == SendFrames(ms);
  }
}
