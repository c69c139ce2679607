# stream_generator: a Dafny model of the replay generator and the metrics consumer

`stream_generator` is a benchmark harness for a message transport. A
generator thread replays the lines of a data file, over and over, as
timestamped three-part messages on an outbound socket. A consumer thread
polls an inbound socket, decodes each message it receives, adds the
message's latency to a running sum, and, at most once per second, writes the
window's messages per second and mean latency. It writes on an iteration whose
clock reading falls in a later second than the last report's.

This project models the two worker loops of
`stream_generator/stream_generator.cpp` — `generator_thread` (constructor and
`operator()`) and `consumer_thread::operator()` — and proves properties of them.
The file, the clock and the sockets are replaced by values:

- the data file is its contents as bytes; the file system is a map from paths to contents;
- the clock is a supplied `TimeVal` reading per iteration;
- the outbound socket is the sequence of wire messages handed to `send`;
- the inbound socket and its poller are a sequence of poll results (`Event`s).

Modules, one file each:

- `Results` (`results.dfy`) — `Option` and `Result`.
- `Wire` (`wire.dfy`) — the message format. A message is a sequence of frames:
  the seconds and microseconds as 64-bit two's-complement integers in frames of
  eight bytes, then the line's bytes in a frame of their own. `Encode` is
  `message << tv.tv_sec << tv.tv_usec << line`; `Decode` is
  `message >> tv1.tv_sec >> tv1.tv_usec >> line`.
- `Replay` (`replay.dfy`) — the data file as the sequence of `getline` reads of one
  pass (the contents split at every newline byte; the last read is the one that
  sees end-of-file), a cursor that returns to the first read after end-of-file,
  and the messages a run of the loop sends.
- `Generator` (`generator.dfy`) — class `Generator`. It has the data file's reads,
  a cursor, the `running` flag and the outbox, with `Open`, `Step`, `Run` and
  `Terminate`.
- `Metrics` (`metrics.dfy`) — the consumer loop as a state machine. The state is
  `Window`: `count`, `last_items`, `last_tv`, `running_diff` and the carried
  reading `tv2`. `Next` gives one iteration and `RunEvents` a run of them.
- `Consumer` (`consumer.dfy`) — class `Consumer`. It holds the same variables as
  fields, together with the status lines written. Its methods `Step`, `Begin`,
  `Loop` and `Run` are each proved against `Metrics`; `Terminate` only lowers
  the flag.

Three behaviours of the code are easy to misread:

- A message that cannot be decoded is not dropped. The zmqpp extraction at line
  146 throws, nothing in `operator()` catches the exception, and the consumer
  loop ends there. In the model the loop stops and returns the `DecodeError`
  (`Metrics.Next` yields `Crash`). The process-level consequence (an uncaught
  exception in a thread) is not modelled.
- `tv2` is not refreshed on every iteration. The "poll returned but no input"
  branch (lines 157-160) leaves it as it was. Before the first arrival or
  timeout it has never been assigned, so the model takes its initial contents
  as a parameter (`unset`).
- An empty window is not guarded. Line 174 divides `running_diff` by `items`
  even when `items` is 0. The model proves that `running_diff` is then 0 too
  (the program computes 0/0), and `Metrics.MeanLatency` returns `None` for that
  case.

## Model

| member | source | states |
|---|---|---|
| `Wire.Encode` | stream_generator/stream_generator.cpp:96 | a message is three parts: two eight-byte integer parts, then the line itself as the third part |
| `Wire.Decode` | stream_generator/stream_generator.cpp:146 | decoding fails exactly when there are fewer than three parts or an integer part is not eight bytes wide (naming the number of parts when some are missing); otherwise the payload is the third part unchanged |
| `Wire.DecodeIgnoresTrailingParts` | stream_generator/stream_generator.cpp:146 | parts after the third are not read |
| `Wire.Int64RoundTrip` | stream_generator/stream_generator.cpp:96 | every 64-bit value written as a frame is read back as the same value |
| `Wire.Int64FrameRoundTrip` | stream_generator/stream_generator.cpp:146 | every eight-byte frame is the encoding of the value it decodes to |
| `Wire.DecodeEncode` | stream_generator/stream_generator.cpp:146 | the consumer, extracting fields in the order the generator wrote them, recovers exactly (seconds, microseconds, line), whatever bytes the line holds |
| `Wire.EncodeDecode` | stream_generator/stream_generator.cpp:146 | a three-part message that decodes is exactly the encoding of what it decodes to |
| `Wire.EncodeInjective` | stream_generator/stream_generator.cpp:96 | different triples give different messages |
| `Replay.Lines` | stream_generator/stream_generator.cpp:86 | one pass of `getline` gives at least one read, and no read contains a newline |
| `Replay.JoinLines` | stream_generator/stream_generator.cpp:86 | the reads of one pass, rejoined with newlines, are the file's bytes: only the line terminators are dropped, nothing is trimmed |
| `Replay.LinesJoin` | stream_generator/stream_generator.cpp:86 | any newline-free lines are read back exactly from the file they make, so pass-reading is the inverse of `JoinLines`'s joining |
| `Replay.GetLine` | stream_generator/stream_generator.cpp:86-101 | one `getline` returns the line at the cursor, and the stream is at end-of-file exactly on the last read of the pass |
| `Replay.Advance` | stream_generator/stream_generator.cpp:101-106 | after one iteration the cursor stays within the file, and it is back at the first line exactly when the read saw end-of-file |
| `Replay.AdvanceIsModular` | stream_generator/stream_generator.cpp:101-106 | one iteration moves the cursor to `(k + 1) mod` the number of reads |
| `Replay.CursorAfter` | stream_generator/stream_generator.cpp:84-107 | the cursor after `n` iterations never leaves the file's reads |
| `Replay.CursorAfterIsModular` | stream_generator/stream_generator.cpp:84-107 | after `n` iterations from cursor `k` the cursor is `(k + n) mod` the number of reads |
| `Replay.ReadLines` | stream_generator/stream_generator.cpp:84-107 | `n` iterations make exactly `n` reads |
| `Replay.ReadLinesCyclic` | stream_generator/stream_generator.cpp:84-107 | iteration `j` reads line `(k + j) mod` the number of reads: the wrap at end-of-file skips no line and repeats none |
| `Replay.FullCycles` | stream_generator/stream_generator.cpp:84-107 | `m` full passes from the first line read the file's reads `m` times over, in order |
| `Replay.NonEmpty` | stream_generator/stream_generator.cpp:88 | the lines that are sent are all non-empty, and there are no more of them than lines read |
| `Replay.Emit` | stream_generator/stream_generator.cpp:88-98 | one iteration sends one message when its line is non-empty and none otherwise, and that message is (clock seconds, clock microseconds, line) |
| `Replay.Sent` | stream_generator/stream_generator.cpp:84-107 | a run sends at most one message per iteration |
| `Replay.SentTimesValid` | stream_generator/stream_generator.cpp:88-98 | every sent message carries a non-empty line, whatever the clock readings; when the clock readings are valid, its microseconds are also in [0, 1 000 000) |
| `Replay.SentPayloads` | stream_generator/stream_generator.cpp:88-98 | the payloads sent by a run are exactly its non-empty lines read, in order and untrimmed |
| `Replay.ReplayCycles` | stream_generator/stream_generator.cpp:84-107 | replaying a file from its first line for `m` full passes sends the file's non-empty lines `m` times over, in file order |
| `Generator.OpenErrorMessage` | stream_generator/stream_generator.cpp:65-68 | the error text is `unable to open data file "` followed by the file name and a closing `"`, and is 27 characters longer than the name |
| `Generator.EncodeAll` | stream_generator/stream_generator.cpp:96-98 | the outbound stream has one three-part wire message per message sent |
| `Generator.DecodeEncodeAll` | stream_generator/stream_generator.cpp:96-98 | every message on the outbound stream decodes to the triple it was built from |
| `Generator.Generator.constructor` | stream_generator/stream_generator.cpp:54-62 | an opened generator starts at the file's first line, not running, with nothing sent |
| `Generator.Generator.Open` | stream_generator/stream_generator.cpp:63-71 | construction fails exactly when the data file cannot be opened, with the message naming it; otherwise the generator starts at the first line, not running, with nothing sent |
| `Generator.Generator.Terminate` | stream_generator/stream_generator.cpp:28 | lowers the running flag |
| `Generator.Generator.Step` | stream_generator/stream_generator.cpp:86-106 | one iteration sends exactly (clock seconds, clock microseconds, line) when the line read is not empty and nothing otherwise, and moves the cursor on, back to the first line after end-of-file |
| `Generator.Generator.Run` | stream_generator/stream_generator.cpp:74-108 | the loop raises the running flag, and its iterations append to the outbox the encoding of `Replay.Sent` and leave the cursor at `Replay.CursorAfter` |
| `Metrics.Initial` | stream_generator/stream_generator.cpp:129-134 | the loop starts with nothing counted, the report second at start-up, and the invariant holding |
| `Metrics.Latency` | stream_generator/stream_generator.cpp:149-153 | the latency sample is the receive time minus the send time, in microseconds, and with valid microsecond fields it is non-negative for a message received no earlier than it was sent |
| `Metrics.Receive` | stream_generator/stream_generator.cpp:139-166 | the receive half of an iteration: it fails, with the decoding error, exactly on an undecodable arrival; an arrival adds one to `count` and its latency to `running_diff` and sets `tv2` to the receive time; a timeout only sets `tv2`; a poll without input changes nothing; `last_items` and `last_tv` are untouched |
| `Metrics.Check` | stream_generator/stream_generator.cpp:168-182 | the window check reports exactly when `tv2`'s second is past `last_tv`; the report carries `count - last_items`, the positive elapsed seconds and the latency sum, after which `last_items = count`, `last_tv` is `tv2`'s second and `running_diff = 0`; without a report nothing changes; `last_items <= count` is kept |
| `Metrics.Next` | stream_generator/stream_generator.cpp:139-182 | one iteration: an undecodable message ends the loop, and nothing else does; each message adds one to `count` and its latency to `running_diff`, while a timeout adds neither; `tv2` is refreshed except on a poll without input; a report happens exactly when `tv2`'s second is past `last_tv`; the report carries `count - last_items`, the elapsed seconds and the latency sum, and afterwards `running_diff = 0`, `last_items = count` and `last_tv` is `tv2`'s second; without a report `last_items`, `last_tv` and `running_diff` only accumulate; `last_items <= count` is kept and `last_tv` never decreases; an empty window has a zero latency sum |
| `Metrics.ItemsPerSecond` | stream_generator/stream_generator.cpp:172 | the rate times the elapsed seconds is the number of items |
| `Metrics.MeanLatency` | stream_generator/stream_generator.cpp:174 | there is a mean exactly when the window has items, and the mean times the items is the latency sum |
| `Metrics.RunEvents` | stream_generator/stream_generator.cpp:137-183 | over any run, the invariant holds, and neither `last_tv` nor `count` ever decreases |
| `Metrics.RunAfterCrash` | stream_generator/stream_generator.cpp:146 | once a message fails to decode, later poll results change nothing |
| `Metrics.ReportsAccountForAll` | stream_generator/stream_generator.cpp:171-179 | the items of all reports add up to the messages counted up to the last report: each message is reported exactly once |
| `Metrics.ArrivalsAccumulate` | stream_generator/stream_generator.cpp:149-169 | messages arriving within the second of the last report make no report; they add their number to `count` and their latencies to `running_diff` |
| `Metrics.WindowReport` | stream_generator/stream_generator.cpp:168-174 | a window that starts empty, receives `n` messages within its second and is closed by a later timeout makes a single report, with `n` items, the elapsed seconds and the messages' latency sum; one second later that is `n` items per second |
| `Consumer.Consumer.constructor` | stream_generator/stream_generator.cpp:110-115 | a new consumer is not running and has written nothing |
| `Consumer.Consumer.Terminate` | stream_generator/stream_generator.cpp:44 | lowers the running flag |
| `Consumer.Consumer.Step` | stream_generator/stream_generator.cpp:139-182 | one iteration updates the fields and the status lines exactly as `Metrics.Next` says, or returns the decoding error and leaves everything unchanged |
| `Consumer.Consumer.Begin` | stream_generator/stream_generator.cpp:127-132 | the loop raises the running flag and starts from `Metrics.Initial` |
| `Consumer.Consumer.Loop` | stream_generator/stream_generator.cpp:137-183 | the iterations leave the fields, the status lines and the error exactly as `Metrics.RunEvents` says |
| `Consumer.Consumer.Run` | stream_generator/stream_generator.cpp:117-184 | `operator()` is `Metrics.RunEvents` from the initial state, with the running flag raised |

## Left out

- `main` (lines 190-309) is not modelled. That covers option parsing, usage text,
  the ZMQ context, socket setup and `connect`, starting and joining the threads,
  the stdin wait and the one-second grace period. It is glue, I/O and concurrency.
- The two threads run concurrently in the program. Here each loop is a sequential
  method, and `running` is a plain field. Cross-thread visibility of the flag is
  not modelled. A stop request stands for the end of the supplied sequence of
  clock readings (generator) or poll results (consumer).
- zmqpp's message framing, `send(message, true)` and the poller are not modelled.
  A message is a sequence of frames, and an arrival is an event. The outbox
  records every message handed to `send`. Whether a non-blocking send that would
  block drops the message (the program ignores the return value) is not modelled.
- The byte order of the integer frames is fixed big-endian in the model. zmqpp's
  own choice is not part of this model. The round-trip properties do not depend on it.
- `Wire.Decode` treats a clock part that is not eight bytes wide as an error.
  What zmqpp does then is not part of this model.
- `gettimeofday` and `std::time` are supplied readings.
- Reopening the data file is assumed to succeed and to give the same contents
  (the file is static during a run). A failed reopen is not modelled.
- `std::ifstream` behaviour beyond "the next line, and whether end-of-file was
  reached" is not modelled, and neither is the unused, uninitialised `read_lines`
  counter (lines 77, 90).
- `Metrics.Latency`, `Metrics.Next`: `running_diff`, `sec_diff`, `usec_diff`, `ips`
  and `latency` are `double` in the program. The model keeps integer sums and
  exact `real` quotients, without rounding. It also ignores 64-bit overflow in
  both subtractions, `tv2.tv_sec - tv1.tv_sec` and `tv2.tv_usec - tv1.tv_usec`
  (lines 149-150). A message this generator sent cannot overflow them. A foreign
  message whose microseconds frame holds, say, -2^63 overflows the second
  subtraction in the program, while the model's `Latency` is exact.
- `Generator.Generator.Run`, `Consumer.Consumer.Run`: the program's loops end only
  once `running` is false. The model's runs end when the supplied sequence does,
  with the flag still raised; the stop request that lowers it (`Terminate`) is
  not part of the run.
- Nothing is written to the console. The status line's text is not modelled; a
  status line is the `Report` record written to `reports`.
- `Consumer.Consumer.constructor`: the program never initialises `_running` in
  `consumer_thread`'s constructor. The model starts it false. Nothing reads it
  before `operator()` sets it.
- `Metrics.RunAfterCrash`, `Consumer.Consumer.Loop`: when a message cannot be
  decoded, the exception ends the consumer. What then happens to the process is
  not modelled.
