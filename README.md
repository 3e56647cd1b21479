# watchfs bridge protocol in Dafny

watchfs delivers filesystem-change events from a Rust watcher, built on the
`notify` crate, to Python `asyncio` code. The Python `Watcher` listens on a
loopback TCP port. It launches the Rust function `watch_path` in a worker
process, and the worker connects back to that port. The two sides then
exchange length-prefixed frames:

- a 2-byte big-endian length, then a UTF-8 payload;
- the worker sends "ready", then one JSON event per filesystem change;
- the bridge sends "stop" to end the worker's command loop.

This project models, and proves properties about:

- the length header codec of `src/lib.rs` (module `Endian`);
- UTF-8 as Rust's `from_utf8` and Python's `bytes.decode` accept it, with
  RFC 3629's well-formedness table (module `Utf8`);
- a reference frame codec: 2-byte length plus payload, refusing payloads
  over 65535 bytes (module `Framing`);
- the Rust side: `send_str`, `receive_str` and `check_for_stop` over a
  `TcpStream` object (module `RustWire`), and the command loop of
  `watch_path_rs` (module `Worker`);
- the Python side of the wire: `send_str`, and `receive_str` over an
  asyncio stream reader (module `PyWire`);
- the `Watcher` class itself, as a Dafny class whose methods are the steps
  between its `await` points (module `PyWatcher`);
- the event kinds and the `DebouncedEvent` record (module `DebouncedEvents`);
- client runs of the whole bridge, shaped after the package's tests
  (module `Scenarios`).

Behaviour of the code that the model keeps, though a caller might expect
otherwise:

- `open_stream` makes one bind attempt on a drawn port: the body of its
  `while True` always leaves by `break` or by the exception. So a busy random
  port raises OSError instead of being retried.
- A frame whose payload is not UTF-8, or an end of file in the middle of a
  frame, raises inside `get_messages_from_rust` and ends that task. Later
  frames are never queued; nothing is skipped.
- `__anext__` ends the iteration as soon as the stop event is set OR the
  worker task is done, even with messages still queued. A worker failure
  is not raised there. It surfaces only when `stop` awaits the worker task,
  and then the writer is never closed.
- `stop` sends "stop" even when the worker has already finished.
- `start` waits on `socket_connected` with no timeout and without looking at
  the worker task (pywatchfs.py:57). A worker that fails before it connects
  leaves `start` waiting forever; in the model `AwaitReady` never becomes
  enabled.
- Once connected, `start` raises TimeoutError when the "ready" header is not
  there within 0.1 s (pywatchfs.py:77), and AssertionError when the first
  frame is another message (`PyWatcher.ReadyOutcomeOf`).
- `__anext__` returns `json.loads(message)`, not a `DebouncedEvent`; the
  record is built separately from a type code.
- A receive that the 0.1 s timeout in `get_messages_from_rust` cancels after
  the header was read has consumed those two bytes. The frame's payload is
  then read as if it were a new frame (`PyWire.TimeoutAfterHeaderLosesFrame`).

Timing becomes explicit. A read that would wait is the point where a
surrounding `wait_for` times out. The worker and the outside world act
through the methods `HandleConnection`, `WorkerSends`, `WorkerClosesSocket`,
`WorkerExits` and `SetStopEvent`. The random port is the parameter `draw`, and
what `start_server` does with a port is the parameter `bind`.

## Model

| member | source | states |
|---|---|---|
| Endian.U16ToArrayOfU8 | src/lib.rs:10-14 | the two bytes are the high and low byte of the value: `r[0]*256 + r[1] == n` |
| Endian.U8ArrayToU16 | src/lib.rs:16-18 | the value is `a[0]*256 + a[1]`, which never overflows 16 bits |
| Endian.DecodeEncodeLength | src/lib.rs:10-18 | decoding the bytes of a length gives the length back |
| Endian.EncodeDecodeLength | src/lib.rs:10-18 | encoding a decoded pair of bytes gives the same bytes: the header codec is a bijection |
| Endian.BigEndian | src/lib.rs:10-14 | the first byte is `n / 256` and the second `n % 256` (most significant first) |
| Endian.TestVectors | src/lib.rs:102-121 | 5, 256 and 525 encode to [0,5], [1,0], [2,13] and decode back, as the unit tests expect |
| Utf8.EncodeChar | src/lib.rs:21 | a code point takes 1 to 4 bytes, and exactly 1 when it is ASCII |
| Utf8.Encode | src/lib.rs:21 | the UTF-8 bytes of a string (`as_bytes`, `str.encode`), 1 to 4 per character; its inverse is stated by `Utf8.DecodeEncode` |
| Utf8.DecodeFirst | src/lib.rs:33 | a decoded character uses between 1 and 4 bytes of the input, never more than it holds |
| Utf8.Decode | src/lib.rs:33 | strict decoding of a whole byte string (`String::from_utf8`, `bytes.decode`); a decoded string has between a quarter of the bytes and all of them as characters |
| Utf8.DecodeFirstEncodeChar | src/lib.rs:33 | the bytes of a character decode to that character, whatever follows them |
| Utf8.EncodeCharOfDecodeFirst | src/lib.rs:33 | strict decoding is canonical: the bytes a decoded character came from are exactly its encoding |
| Utf8.DecodeEncode | python/watchfs/pywatchfs.py:73-79 | every string survives `encode` then `decode` |
| Utf8.EncodeDecode | python/watchfs/pywatchfs.py:73-79 | bytes that decode are exactly the encoding of what they decode to |
| Utf8.EncodeLength | python/watchfs/pywatchfs.py:71-73 | a string's byte length lies between its character count and 4 times it, and equals the count exactly when the string is ASCII |
| Framing.Encode | src/lib.rs:20-26 | a frame exists exactly when the payload has at most 65535 bytes; it is the big-endian length followed by the payload, and larger payloads are refused with their length |
| Framing.EncodeStr | src/lib.rs:20-26 | a string has a frame exactly when its UTF-8 bytes fit; that frame decodes to those bytes and they decode to the string |
| Framing.Decode | src/lib.rs:28-34 | a frame is decoded exactly when the stream holds 2 header bytes and the whole announced payload; it returns that payload and the rest of the stream, and otherwise reports the connection closed |
| Framing.DecodeEncode | src/lib.rs:20-34 | decoding a frame followed by anything gives the payload and exactly what followed |
| Framing.EncodeDecode | src/lib.rs:20-34 | a stream that decodes is the frame of its payload followed by the rest: no other bytes decode |
| Framing.DecodeAllEncodeAll | src/lib.rs:20-34 | frames sent back to back decode to the same payloads in the same order |
| Framing.EncodeAll | src/lib.rs:20-26 | the frames of a list of payloads back to back, at least a header per payload |
| Framing.DecodeAll | src/lib.rs:28-34 | splits a stream into payloads frame by frame, failing unless it ends on a frame boundary; each payload takes at least a header |
| Framing.DecodeEncodeStr | src/lib.rs:20-34 | the frame of a string that fits decodes to its UTF-8 bytes and leaves what follows |
| RustWire.SendFrame | src/lib.rs:20-26 | the frame is the UTF-8 bytes after a header holding their count modulo 65536 (`as u16`) |
| RustWire.ReceiveFrame | src/lib.rs:28-34 | fewer than 2 bytes panic on end of file; otherwise the remaining stream is at least 2 bytes shorter |
| RustWire.SendFrames | src/lib.rs:20-26 | the frames `send_str` writes for a list of messages, back to back; the stream is empty exactly when there are no messages |
| RustWire.SendStr | src/lib.rs:20-26 | the header and the bytes are appended to what was written before; nothing is read |
| RustWire.ReceiveStr | src/lib.rs:28-34 | the result and the unread bytes are those of `ReceiveFrame` on the incoming bytes: `read_exact` of the header, one `read` into a zero-filled buffer, `from_utf8` or a panic |
| RustWire.CheckForStop | src/lib.rs:36-38 | returns whether the received string is exactly "stop" and consumes that frame, or panics as `receive_str` does |
| RustWire.SendFrameAgrees | src/lib.rs:20-26 | for a message of at most 65535 bytes the Rust frame is the reference frame |
| RustWire.ReceiveFrameExact | src/lib.rs:28-34 | when the whole payload is there, `receive_str` is the reference decoder followed by UTF-8 validation, and it panics exactly on invalid UTF-8 |
| RustWire.ReceiveSendFrame | src/lib.rs:20-34 | `receive_str` after `send_str` gives the message back and consumes exactly its frame |
| RustWire.ReceiveSendFrames | src/lib.rs:20-34 | on a stream of frames the first receive returns the first message and leaves the other frames |
| RustWire.OversizedFrameMisread | src/lib.rs:22 | a message over 65535 bytes gets a header below its length, the reference encoder refuses it, and `receive_str` never returns it |
| RustWire.SendReceiveTest | src/lib.rs:123-136 | the unit test's string survives a send and a receive |
| RustWire.CheckForStopTest | src/lib.rs:138-152 | a "stop" frame reads as "stop" and a "not stop" frame as "not stop", each consuming exactly its frame |
| Worker.StopScan | src/lib.rs:69-72 | where the `while !stop` loop ends on a stream: the bytes after the first "stop" frame, or the first panic of `receive_str`; a successful end consumes at least one frame header |
| Worker.WatchPathRs | src/lib.rs:62-74 | a failed connect returns its error and touches nothing; a failed watcher setup panics before "ready"; otherwise "ready" is sent and the loop ends as `StopScan` of the incoming bytes says, with "Rust finished successfully" and what the stop frame left, or with the panic |
| Worker.StopScanFramesStop | src/lib.rs:69-72 | on a stream of frames containing "stop" the command loop consumes them up to and including the first "stop", and no further |
| Worker.StopScanFramesNoStop | src/lib.rs:69-72 | frames none of which is "stop" are all read past, and the loop goes on with what follows |
| Worker.NoStopPanics | src/lib.rs:69-72 | frames without "stop" followed by end of file make the worker panic: the loop only ends successfully on a stop command |
| Worker.FirstStop | src/lib.rs:69-72 | the index of the first "stop" command, with none before it |
| PyWire.SendFrame | python/watchfs/pywatchfs.py:70-74 | succeeds exactly when the character count is at most 65535 (else OverflowError); the header holds the character count and the payload is the UTF-8 bytes |
| PyWire.Receive | python/watchfs/pywatchfs.py:76-79 | the header read waits exactly when fewer than 2 bytes arrived and the socket is open, and then leaves the buffer as it was; a returned message or decode error consumes at least the header; every outcome is characterised by `PyWire.ReceiveExact` and `PyWire.ReceiveErrors` |
| PyWire.ReceiveExact | python/watchfs/pywatchfs.py:76-79 | a message is returned exactly when the buffer starts with a whole frame whose payload is valid UTF-8; the message is that payload decoded and the rest is left |
| PyWire.ReceiveErrors | python/watchfs/pywatchfs.py:76-87 | IncompleteReadError exactly when the socket closed before a whole frame arrived, emptying the buffer; a waiting payload read (where the 0.1 s timeout fires) exactly when the header is there but the payload is not and the socket is open, with the header already consumed; UnicodeDecodeError exactly when a whole frame's payload is not UTF-8, with that frame consumed |
| PyWire.ReceiveMessages | python/watchfs/pywatchfs.py:81-87 | the messages successive receives take off a buffer; each consumes at least a 2-byte header |
| PyWire.ReceiveRustFrame | python/watchfs/pywatchfs.py:76-79 | any frame the Rust `send_str` writes for a message that fits comes back whole, ASCII or not |
| PyWire.ReceiveRustFrames | python/watchfs/pywatchfs.py:81-87 | frames written back to back by the worker are received in order, none dropped or repeated |
| PyWire.AsciiFrameAgrees | python/watchfs/pywatchfs.py:70-74 | for ASCII strings the Python frame, the Rust frame and the reference frame coincide |
| PyWire.NonAsciiFrameMisread | python/watchfs/pywatchfs.py:71-73 | for a string with a non-ASCII character the header announces fewer bytes than follow, the frame differs from the reference one, and the Rust `receive_str` does not return the string |
| PyWire.EAcuteFrame | python/watchfs/pywatchfs.py:71-73 | "é" is sent as [0, 1, 0xC3, 0xA9], and the Rust reader panics on invalid UTF-8 |
| PyWire.TimeoutAfterHeaderLosesFrame | python/watchfs/pywatchfs.py:77-87 | a timeout before the header is complete consumes nothing; one after the header has consumed those 2 bytes, and the next receive misreads the payload |
| DebouncedEvents.Value | python/watchfs/debounced_events.py:6-15 | a kind's value is its position among the nine kinds |
| DebouncedEvents.FromValue | python/watchfs/debounced_events.py:6-15 | `DebouncedEventTypes(n)` succeeds exactly for 0 to 8, returning the kind with value n, and otherwise raises ValueError for n |
| DebouncedEvents.ValuesInOrder | python/watchfs/debounced_events.py:6-15 | the kinds hold the values 0 to 8 in declaration order, and every kind is among them |
| DebouncedEvents.ValueInjective | python/watchfs/debounced_events.py:6-15 | distinct kinds have distinct values |
| DebouncedEvents.FromValueOfValue | python/watchfs/debounced_events.py:6-15 | looking up a kind's own value gives the kind back |
| DebouncedEvents.NewDebouncedEvent | python/watchfs/debounced_events.py:18-22 | the record is built exactly for type codes 0 to 8, keeping the path and error message and taking the kind with that value; any other code raises ValueError |
| DebouncedEvents.CreatedFileEvent | python/test/test_watchfs.py:45-47 | type code 2 gives CREATE and keeps the empty error message the tests expect |
| PyWatcher.ReadyOutcomeOf | python/watchfs/pywatchfs.py:58-59 | `start` is ready exactly when the first frame read is "ready", and keeps waiting exactly while its payload is incomplete |
| PyWatcher.StopFrame | python/watchfs/pywatchfs.py:65 | the bytes `stop` writes are [0, 4, 0x73, 0x74, 0x6F, 0x70], which is also the frame the Rust `send_str` writes for "stop" |
| PyWatcher.Watcher.constructor | python/watchfs/pywatchfs.py:24-40 | keeps path, recursive flag and port; the stop event is set only if the caller's was; queue empty, no tasks, no stream |
| PyWatcher.Watcher.OpenStream | python/watchfs/pywatchfs.py:94-101 | without a port the drawn port is used; a caller's port is kept; one bind attempt, OSError when the port is in use, listening otherwise |
| PyWatcher.Watcher.Start | python/watchfs/pywatchfs.py:54-56 | binds first, then launches the worker only if the bind succeeded; the port, the outcome and the order of actions are stated |
| PyWatcher.Watcher.AwaitReady | python/watchfs/pywatchfs.py:57-60 | the outcome is the first received frame's: "ready" starts the receive loop, another message fails the assertion, a missing header times out, end of file and bad UTF-8 raise; what is consumed is stated for each |
| PyWatcher.Watcher.HandleConnection | python/watchfs/pywatchfs.py:89-92 | marks the socket connected with a fresh reader and writer, replacing earlier ones |
| PyWatcher.Watcher.WorkerSends | src/lib.rs:24-25 | bytes the worker writes are appended to the reader's buffer while the socket is open |
| PyWatcher.Watcher.WorkerClosesSocket | src/lib.rs:62-74 | the worker's end closes when `watch_path_rs` returns, and the reader then sees end of file |
| PyWatcher.Watcher.WorkerExits | python/watchfs/pywatchfs.py:103-109 | the worker task becomes done, returned or raised |
| PyWatcher.Watcher.SetStopEvent | python/test/test_watchfs.py:43 | the shared stop event becomes set |
| PyWatcher.Watcher.ReceiveStep | python/watchfs/pywatchfs.py:81-87 | after stop or worker completion the loop returns and consumes nothing; otherwise one receive: a message goes to the back of the queue, a timeout before the header changes nothing, one after it drops the two header bytes, end of file and bad UTF-8 end the task; the queue always holds every received message not yet delivered, in order |
| PyWatcher.Watcher.AnextStep | python/watchfs/pywatchfs.py:45-52 | ends the iteration once stop is set or the worker is done; else returns and removes the queue's head, or waits on an empty queue; raises AttributeError before `start` |
| PyWatcher.Watcher.Stop | python/watchfs/pywatchfs.py:62-68 | sets stop, sends the "stop" frame, awaits the worker, then closes the writer, in that order; a raised worker fails the call with the writer left open; without a receiver task it fails with TypeError right after setting stop |
| PyWatcher.StopFrameEndsWorkerLoop | src/lib.rs:69-72 | the frame `stop` writes is the Rust frame of "stop", and the worker's command loop ends successfully on it |
| PyWatcher.ReadyFrameIsRead | python/watchfs/pywatchfs.py:58-59 | the worker's "ready" frame is read by `start` as "ready" |
| Scenarios.ConnectedWatcher | python/watchfs/pywatchfs.py:54-57 | after start and the worker's connection the watcher waits for "ready": worker launched, no receive loop yet, empty buffers, actions bind then launch |
| Scenarios.StartedWatcher | python/watchfs/pywatchfs.py:54-60 | after start, connection and the "ready" frame, the watcher is running with an empty queue and the actions bind, launch, read ready, start receiver |
| Scenarios.Handshake | python/watchfs/pywatchfs.py:57-60 | a connected watcher whose first frame reads as "ready" starts its receive loop and keeps what follows the frame unread |
| Scenarios.ReceiveAll | python/watchfs/pywatchfs.py:81-87 | the receive loop takes the worker's frames one by one and queues exactly their messages, in order |
| Scenarios.PullAll | python/watchfs/pywatchfs.py:45-52 | the consumer pulls exactly the queued messages, in queue order, while neither stop nor worker completion intervenes |
| Scenarios.OrderedDelivery | python/watchfs/pywatchfs.py:45-87 | events written by the worker in order reach the consumer exactly, in the same order |
| Scenarios.PortBusy | python/test/test_watchfs.py:50-57 | a caller's port in use makes `start` raise OSError and no worker is launched |
| Scenarios.DrawnPortBusy | python/watchfs/pywatchfs.py:94-99 | a drawn port in use also makes `start` raise OSError, with no second draw |
| Scenarios.StopBeforeAnyEvent | python/watchfs/pywatchfs.py:45-68 | with no event the consumer waits; `stop` succeeds, sends the frame the worker reads as "stop" (its loop ends with nothing left over), and closes the writer |
| Scenarios.ExternalStop | python/test/test_watchfs.py:36-44 | setting the caller's stop event while the consumer waits ends the iteration at its next pass |
| Scenarios.WorkerCrash | python/watchfs/pywatchfs.py:45-68 | a worker that fails ends the iteration quietly while its event is still queued; `stop` then fails and leaves the writer open |
| Scenarios.MalformedFrameStopsReceiver | python/watchfs/pywatchfs.py:79-87 | a payload that is not UTF-8 ends the receive loop; the frame after it is never queued |

## Left out

- Sockets, threads and processes, and their interleaving: one receive, one `__anext__` pass or one worker action is one atomic step, and the worker's writes reach the reader as byte sequences the scenarios choose.
- The `notify` watcher in `start_watch` (src/lib.rs:40-60) is a foreign library. So are its callback, which serialises each event with `serde_json` and sends it from another thread, and its error panic. Only its setup failure is kept, as the `watching` parameter of `Worker.WatchPathRs`.
- `try_clone().unwrap()` (src/lib.rs:66) failing, and `write_all` failing in `send_str`: operating-system errors that the model has no state for.
- The pyo3 bindings `watch_path` and the module definition (src/lib.rs:76-90), `src/main.rs`, the build scripts and the unit-test harness.
- `start_rust` (pywatchfs.py:103-109): the process pool and the address string it passes the worker. Its completion is `WorkerExits`.
- The `start_watch` context manager (pywatchfs.py:11-18): it only runs `start`, the caller's body, then `stop`; `Scenarios.StopBeforeAnyEvent` follows that order.
- `__aiter__` returns the watcher itself; there is nothing to state.
- `json.loads` in `__anext__`: the model returns the message string.
- The one-second timeout on `start_server` for a drawn port. A bind either succeeds or fails with OSError.
- The random port: `random.randint(1024, 65535)` is the parameter `draw`.
- `Path(path)` normalisation in `DebouncedEvent`: the path is kept as a string.
- Strings holding lone surrogates: Python's `encode` raises UnicodeEncodeError on them, and Dafny strings cannot hold them.
- `writer.drain()` and `wait_closed()` failures, and a worker that never returns.
- The debounce interval: this version of `Watcher` takes none.
- Python `assert` statements stop checking under `-O`; the model always checks.
- `asyncio.gather(self.message_receiver_task)` in `stop` is not awaited. The model keeps only its TypeError on None.
- RustWire.ReceiveStr: assumes the single `read` delivers all the announced bytes the stream holds; a short read, which the operating system may return, is not modelled.

## Findings

| source | as written | input that shows it | evidently intended | confidence | as-written member | corrected member |
|---|---|---|---|---|---|---|
| src/lib.rs:22 | `message.len() as u16` keeps the byte length modulo 65536 | a message of 65536 ASCII characters gets the header [0, 0]; `receive_str` returns "" and reads the payload as more frames | refuse a message whose length does not fit the 2-byte header | not executed | RustWire.OversizedFrameMisread | Framing.EncodeStr |
| python/watchfs/pywatchfs.py:71-73 | the header is `len(s)`, the number of characters, but the payload is `s.encode()`, the UTF-8 bytes | "é" is sent as [0, 1, 0xC3, 0xA9]; the Rust reader takes [0xC3] and panics on invalid UTF-8 | the header holds the byte length of the encoded payload | not executed | PyWire.EAcuteFrame, PyWire.NonAsciiFrameMisread | Framing.EncodeStr |

The bridge sends two kinds of message. The control messages are "stop"
(from Python) and "ready" (from Rust), both short ASCII strings; for those,
`PyWire.AsciiFrameAgrees`, `RustWire.SendFrameAgrees` and
`PyWatcher.StopFrameEndsWorkerLoop` prove that the as-written senders produce
exactly the corrected frame. The worker also sends every filesystem event
through `send_str` as serde_json text (src/lib.rs:47-48). That text may hold
non-ASCII characters, which is harmless there because the Rust header counts
bytes, and it may be longer than 65535 bytes, which is the first finding.
`RustWire.SendFrameAgrees` proves that an event frame equals the corrected
frame when the message fits the header (`RustWire.Fits`); otherwise
`Framing.EncodeStr` refuses the message, and `RustWire.OversizedFrameMisread`
shows how the as-written frame is misread. The lifecycle
scenarios require `RustWire.Fits` of every event they deliver, so within them
the code as written behaves as the corrected codec would.
