# UDP-to-serial bridge: a verified model of its framing loop

The bridge receives a UDP datagram and writes it verbatim to a serial device. It
then accumulates the device's response in a reused 100-byte buffer. It stops at a
trailing `'\r'`, at a leading `'!'` or after 5000 idle polls, and sends the
accumulated bytes back to the datagram's sender. A console interrupt first requests
cancellation; a second one ends the process with exit code -1. This project
models that loop in Dafny and proves what it does, including where it faults.

Files and modules:

- `framing.dfy`, module `Framing`: the accumulator as functions. The serial port is a
  finite trace of polls. Each poll is the chunk that `BytesToRead` reported and
  `Read` then delivered; an empty chunk is an idle tick. Cancellation is an index
  `cancelAt`: polls from that index on see `cts.IsCancellationRequested`.
  `Accumulate`, `PollThenRead` and `ReadChunk` follow the outer loop, the inner loop
  and the read with its flag updates. `ReadFrameSpec` is one read phase.
- `display.dfy`, module `Display`: `CommandToDisplayString`, with ASCII decoding
  (bytes above 0x7F become `'?'`).
- `interrupt.dfy`, module `Interrupt`: the `CancelKeyPress` handler as a state machine.
- `session.dfy`, module `Session`: one cycle and a whole run of the loop, written as
  the sequence of events on the two transports.
- `bridge.dfy`, module `Bridge`: class `Bridge` holds `readBuffer` (an `array`), the
  cancellation flag, the exit state and the event log. It has the handler, the nested
  accumulation loops, one cycle, and the outer loop. Each method is proved to compute
  the functions above.

What the code does, which the model follows (where the intended protocol says
otherwise, the model follows the code):

- A leading `'!'` ends the frame at once. The code does not wait for the `'\r'`; a
  later `'\r'` is left for the next cycle (`ErrorMarkerDoesNotWaitForTerminator`).
- The terminator is recognised only as the last byte of a read. A chunk `"OK\rX"`
  does not end the frame.
- The inner loop evaluates `BytesToRead` before it checks the budget. So after the
  5000th idle poll it polls once more, and bytes that arrive then are still read.
- Timeout with a partial frame: the partial frame is sent back as if complete
  (`TimeoutReturnsPartialFrame`). Timeout with no bytes: `readBuffer[-1]` throws
  (`SilentDeviceFaults`). No timeout is ever reported.
- Cancellation with no bytes read also hits `readBuffer[-1]` (`CancelBeforeReplyFaults`).
  Cancellation with a partial frame does not end the read. Every idle poll ends the
  inner loop without counting, and the outer loop spins with `waitedMs` frozen. It
  ends only if more bytes arrive or a second interrupt exits the process
  (`CancelledPartialFrameNeverFinishes`).
- A read that would fill the buffer past 100 bytes makes `SerialPort.Read` throw.
  This happens when bytes that do not fit arrive before either marker condition
  holds (`LongReplyOverflows`). A longer response that starts with `'!'`, or whose
  chunk ends on `'\r'` before byte 100, stops before that; the rest of it is left
  for the next cycle. The overflow is not a reported, recoverable condition.
- An interrupt while `ReceiveAsync` waits cancels the receive. The resulting
  exception ends the program (`Stop.ReceiveCancelled`).
- `readBuffer` is never cleared. Bytes beyond `bytesRead` keep stale data from
  earlier cycles (`ReadFrame` states this), but they are never sent.

Every exception that is not caught (overflow, index -1, cancelled receive) ends the
process. The model represents each one as an explicit outcome that stops the run.

## Model

| member | source | states |
|---|---|---|
| `Framing.FrameIsConcatenationOfChunks` | Program.cs:46-65 | about `ReadFrameSpec`, the read phase from its initial state (`bytesRead` and `waitedMs` 0, both flags clear), built from `Accumulate`, `PollThenRead` and `ReadChunk`: one call per iteration of the outer loop, of the inner loop and per read with its flag updates. `bytesRead` starts at 0 and every read writes at offset `bytesRead`, so the accumulated frame is exactly the chunks read in this cycle, concatenated in order; at most the given polls are used |
| `Framing.ReadStaysWithinCapacity` | Program.cs:61 | the frame never exceeds the 100-byte buffer; when the read overflows, the chunk `BytesToRead` reported on the last poll did not fit behind the bytes already read, and its size is the one reported |
| `Framing.WaitedCountsIdlePolls` | Program.cs:55-59 | `waitedMs` equals the number of idle polls made before cancellation, capped at 5000, and never exceeds 5000 |
| `Framing.StopConditions` | Program.cs:53-64 | a completed frame is non-empty and ends on `'\r'`, starts with `'!'` or has used the full idle budget; no earlier accumulated prefix met either marker condition (flags are recomputed after each read); no poll follows the one made after 5000 counted idle polls, and a phase that ends with the budget used up did make that poll, so bytes it found were read; a phase left unfinished by the end of the trace holds a frame that meets neither marker condition |
| `Framing.BudgetEndsReadPhase` | Program.cs:53-59 | once the first `n` polls hold 5000 idle polls made before cancellation, the phase makes at most one more poll and does not stay waiting for input |
| `Framing.IndexFaultOnlyWhenNothingRead` | Program.cs:63-64 | `readBuffer[bytesRead - 1]` faults only when nothing was read and the last poll was idle with cancellation requested or the budget used up |
| `Framing.ReadPhaseCharacterised` | Program.cs:46-65 | the facts about a read phase gathered in the rows above (the frame is the chunks read, within capacity; `waitedMs` counts idle polls; the phase made its last poll exactly where a marker, the overflow, the used-up budget or a cancelled empty poll first stops it, or the trace ended first) hold of one outcome only, the one `ReadFrameSpec` computes |
| `Framing.NoLookahead` | Program.cs:53-65 | appending polls to a trace on which the read phase ended changes nothing |
| `Framing.ReadDependsOnlyOnPollsMade` | Program.cs:53-65 | a read phase that ended depends only on the polls it made: those polls alone, or followed by any others, give the same outcome |
| `Framing.SkipIdlePolls` | Program.cs:55-59 | idle polls before cancellation and within the budget only advance `waitedMs` by one each |
| `Framing.ReplyAfterIdlePolls` | Program.cs:53-65 | after up to 5000 idle polls, a reply arriving in one chunk that ends on `'\r'` (or starts with `'!'`) is returned as the frame, with `waitedMs` equal to the idle polls |
| `Framing.ErrorMarkerDoesNotWaitForTerminator` | Program.cs:63 | `"!E"` followed by `'\r'` in a later chunk ends the frame as `"!E"`, without the terminator |
| `Framing.SilentDeviceFaults` | Program.cs:55-64 | a silent device leads, after 5000 counted idle polls and one more poll, to the index fault, not to a reported timeout |
| `Framing.TimeoutReturnsPartialFrame` | Program.cs:53-65 | a partial reply followed by silence is returned as a completed frame after the budget, without its terminator |
| `Framing.CancelBeforeReplyFaults` | Program.cs:55-64 | cancellation after `k` (at most 5000) idle polls, before any byte arrived, ends in the index fault after `k + 1` polls with `waitedMs` equal to `k` |
| `Framing.CancelWithNothingReadFaults` | Program.cs:55-64 | on any trace, an idle poll made after cancellation while nothing has been read is the last poll of the phase, which ends in the index fault |
| `Framing.CancelledPartialFrameNeverFinishes` | Program.cs:53-65 | after cancellation with a partial frame, any number of idle polls leaves the read phase unfinished with `waitedMs` still 0 |
| `Framing.LongReplyOverflows` | Program.cs:61 | a second chunk that does not fit behind a first chunk meeting neither marker condition makes the read fail with an overflow of that chunk's size |
| `Display.AsciiString` | Program.cs:83 | `Encoding.ASCII.GetString`, the first step of `CommandToDisplayString`: ASCII decoding keeps the length and maps each byte on its own (`'?'` above 0x7F) |
| `Display.ReplaceCharBySelf` | Program.cs:83 | replacing `'\n'` by `"\n"` is the identity |
| `Display.ReplaceCharConcat` | Program.cs:83 | the replacement distributes over concatenation |
| `Display.DisplayOfByte` | Program.cs:83 | about `CommandToDisplayString` (decode, then replace `'\r'` by `\` `r`, then `'\n'` by itself): a single byte is shown as its ASCII character, and `'\r'` as the two characters `\` `r` |
| `Display.DisplayConcat` | Program.cs:83 | `CommandToDisplayString` of a concatenation is the concatenation of the renderings |
| `Display.DisplayFacts` | Program.cs:83 | the rendering contains no `'\r'`, is one character longer per `'\r'`, keeps every `'\n'`, and splits along any cut |
| `Display.DisplayRoundTrip` | Program.cs:83 | without a backslash in the frame, undoing the `\r` escape gives back the decoded frame |
| `Display.DisplayIsAmbiguous` | Program.cs:83 | the frames `"\r"` and `"\\r"` are rendered identically |
| `Interrupt.OnInterrupt` | Program.cs:9-17 | an interrupt never returns the handler to the running state |
| `Interrupt.InterruptSequence` | Program.cs:9-17 | from running: one interrupt requests cancellation, any further one exits with -1; exactly one interrupt has its default termination suppressed |
| `Session.SessionWellOrdered` | Program.cs:36-80 | about `SessionOf`, the loop over a sequence of arrivals, which applies `StepOf` (one loop turn: `CycleEvents` for a request, or the cancelled receive) until a step halts or requests cancellation. In every run, each request is written to the port right after it is received. Each reply goes to the sender of the request just written and holds 1 to 100 bytes. Each reply is sent before the next request is received. A mismatch report follows its reply and occurs only when the count sent differs from the reply's length |
| `Session.ServedInArrivalOrder` | Program.cs:36-38 | the requests received are a prefix of the requests offered, in arrival order |
| `Session.CycleReply` | Program.cs:67-80 | about `CycleEvents`, the events of one cycle after its read phase: a cycle sends a reply exactly when its read completed. The reply is the accumulated frame, addressed to the request's sender. A fourth event (the mismatch report) occurs exactly when the count sent differs from the frame length |
| `Session.SessionStops` | Program.cs:36-81 | a run ends at the loop condition, or at a cancelled receive, only once cancellation was requested; at a read phase only when that phase did not complete; and it runs out of arrivals exactly when every arrival was a request whose read completed with no interrupt, with no cancellation requested |
| `Bridge.Bridge.constructor` | Program.cs:34 | a fresh 100-byte buffer, no cancellation requested, nothing done yet |
| `Bridge.Bridge.CancelKeyPress` | Program.cs:9-17 | the fields move as `OnInterrupt` says and `args.Cancel` is set exactly on the first interrupt |
| `Bridge.Bridge.SerialRead` | Program.cs:61 | the chunk is written at the offset and the rest of the buffer is unchanged |
| `Bridge.Bridge.ReadFrame` | Program.cs:46-65 | the nested loops over the array compute `ReadFrameSpec`. The frame is `readBuffer[0..bytesRead)`, and the rest of the buffer is left as earlier cycles left it |
| `Bridge.Bridge.Cycle` | Program.cs:38-80 | receive, write, accumulate, send `readBuffer[0..bytesRead)` to `req.RemoteEndPoint`, report a mismatch, all exactly as `CycleEvents` lists; afterwards the buffer starts with the frame and its tail is what the previous cycle left there |
| `Bridge.Bridge.HandleArrival` | Program.cs:36-80 | one turn of the loop body for one arrival, with the handler run for an interrupt, as `StepOf` says; after a request the buffer starts with the frame read and keeps the previous cycle's bytes behind it, and after an interrupt it is unchanged |
| `Bridge.Bridge.Serve` | Program.cs:36-81 | the outer loop produces exactly the events, the stop reason and the cancellation state of `SessionOf` |

## Left out

- Opening and configuring the serial port and binding the UDP socket (Program.cs:5-6, 19-32): these are I/O set-up. The port becomes the poll trace; the socket becomes `Request` values and the byte count a send returns.
- `ReadTimeout`, `WriteTimeout`, `DontFragment` and the `Encoding` property: transport settings whose behaviour is library code outside this file. A `serialPort.Write` that times out or fails is not modelled.
- `Task.Delay(1)`: one idle poll is one tick. Wall-clock time, and the timer resolution that makes 5000 polls take longer than 5 s, cannot be stated here.
- `async`/`await` scheduling and the concurrency of the handler with the loop. An interrupt during a cycle is given by the index `cancelAt` of the read phase; `cancelAt == polled` stands for an interrupt after the last poll of the cycle.
- A second interrupt during `Serve` (the way out of the cancelled spin): the handler's second step is modelled by `CancelKeyPress` and `InterruptSequence`, but a run of `Serve` delivers at most one interrupt.
- `SerialPort.Read` returning fewer bytes than `BytesToRead` reported: the model reads the whole chunk.
- The `cts.Cancel(bool)` argument (callback exceptions) and `ConsoleSpecialKey.ControlBreak`: library behaviour with no effect on the loop.
- Console output (the INFO line and the `#if DEBUG` / `#if RELEASE` lines); only the `ERR:` mismatch line is kept, as an event with the rendered frame and both counts.
- The exit code of a process ended by an uncaught exception: the model stops the run with the outcome that caused it.
- A run with infinitely many polls or arrivals: both traces are finite. A trace that ends while the loop still needs input gives `Unfinished` or `NoMoreArrivals`.
