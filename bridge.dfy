/** The bridge program's mutable state and its loops: the reused 100-byte
    `readBuffer`, the cancellation flag behind `cts`, the interrupt handler, and the
    request/response loop, each method proved to behave as the functions of
    `Framing`, `Interrupt` and `Session` say. */
module Bridge {
  import opened Framing
  import opened Display
  import opened Interrupt
  import opened Session

  class Bridge {
    /** The buffer every cycle reads its frame into; never cleared between cycles. */
    var readBuffer: array<byte>
    /** `cts.IsCancellationRequested`. */
    var cancelRequested: bool
    /** `Environment.Exit` was called, with `exitCode`. */
    var exited: bool
    var exitCode: int
    /** What the loop has done on its transports so far. */
    var io: seq<Event>

    ghost predicate Valid()
      reads this
    {
      readBuffer.Length == BufferSize
    }

    /** The handler's state as the fields record it. */
    ghost function Handler(): HandlerState
      reads this
    {
      if exited then Exited(exitCode) else if cancelRequested then CancelRequested else Running
    }

    constructor ()
      ensures Valid() && fresh(readBuffer) && Handler() == Running && io == []
    {
      readBuffer := new byte[BufferSize];
      cancelRequested, exited, exitCode := false, false, 0;
      io := [];
    }

    /** The `Console.CancelKeyPress` handler; returns what it leaves in `args.Cancel`. */
    method CancelKeyPress() returns (argsCancel: bool)
      requires !exited
      modifies this`cancelRequested, this`exited, this`exitCode
      ensures Handler() == OnInterrupt(old(Handler())).next
      ensures argsCancel == OnInterrupt(old(Handler())).suppressTermination
    {
      if cancelRequested {
        exited, exitCode := true, ForcedExitCode;
        return false;
      }
      cancelRequested := true;
      argsCancel := true;
    }

    /** `serialPort.Read(readBuffer, offset, |chunk|)` once it is known to fit. */
    method SerialRead(offset: nat, chunk: Chunk)
      requires Valid() && offset + |chunk| <= readBuffer.Length
      modifies readBuffer
      ensures readBuffer[..offset] == old(readBuffer[..offset])
      ensures readBuffer[offset..offset + |chunk|] == chunk
      ensures readBuffer[offset + |chunk|..] == old(readBuffer[offset + |chunk|..])
    {
      forall k | 0 <= k < |chunk| {
        readBuffer[offset + k] := chunk[k];
      }
    }

    /** The accumulation loop: both nested loops, as written. The outcome is the one
        `ReadFrameSpec` gives; the accumulated bytes are `readBuffer[0..bytesRead)`, and
        the rest of the buffer still holds whatever earlier cycles left there. */
    method ReadFrame(polls: seq<Chunk>, cancelAt: nat) returns (o: ReadOutcome, bytesRead: nat)
      requires Valid()
      modifies readBuffer
      ensures o == ReadFrameSpec(polls, cancelAt)
      ensures bytesRead == |o.frame| <= readBuffer.Length
      ensures readBuffer[..bytesRead] == o.frame
      ensures readBuffer[bytesRead..] == old(readBuffer[..])[bytesRead..]
    {
      ghost var stale := readBuffer[..];
      ghost var spec := ReadFrameSpec(polls, cancelAt);
      var waitedMs: nat := 0;
      bytesRead := 0;
      var hasSeenError := false;
      var hasSeenPound := false;
      var i := 0;  // polls made so far
      while !hasSeenError && !hasSeenPound && waitedMs < MaxIdlePolls
        invariant i <= |polls| && bytesRead <= readBuffer.Length
        invariant readBuffer[bytesRead..] == stale[bytesRead..]
        invariant Accumulate(polls, cancelAt, i, readBuffer[..bytesRead], waitedMs, hasSeenError, hasSeenPound) == spec
        decreases |polls| - i
      {
        ghost var start := i;
        var bytesToRead := 0;
        var chunk: Chunk := [];
        while true
          invariant start <= i <= |polls|
          invariant PollThenRead(polls, cancelAt, i, readBuffer[..bytesRead], waitedMs) == spec
          decreases |polls| - i
        {
          if i == |polls| {
            return ReadOutcome(Unfinished, readBuffer[..bytesRead], waitedMs, i), bytesRead;
          }
          chunk := polls[i];
          bytesToRead := |chunk|;
          var cancelled := cancelAt <= i;
          i := i + 1;
          if !(bytesToRead == 0 && !cancelled && waitedMs < MaxIdlePolls) {
            assert ReadChunk(polls, cancelAt, i, readBuffer[..bytesRead], waitedMs, chunk) == spec;
            break;
          }
          waitedMs := waitedMs + 1;
        }
        ghost var frame := readBuffer[..bytesRead];
        if readBuffer.Length - bytesRead < bytesToRead {
          return ReadOutcome(Overflowed(bytesToRead), readBuffer[..bytesRead], waitedMs, i), bytesRead;
        }
        ghost var next := bytesRead + bytesToRead;
        assert readBuffer[next..] == readBuffer[bytesRead..][bytesToRead..] == stale[next..];
        SerialRead(bytesRead, chunk);
        assert readBuffer[..next] == readBuffer[..bytesRead] + readBuffer[bytesRead..next];
        bytesRead := bytesRead + bytesToRead;
        hasSeenError := readBuffer[0] == ErrorMarker;
        if bytesRead == 0 {
          return ReadOutcome(IndexFault, [], waitedMs, i), bytesRead;
        }
        hasSeenPound := readBuffer[bytesRead - 1] == CR;
      }
      o := ReadOutcome(Completed, readBuffer[..bytesRead], waitedMs, i);
    }

    /** One cycle of the loop body: receive, write to the port, accumulate the
        response, send it back to the sender and report a short or long send. */
    method Cycle(req: Request, polls: seq<Chunk>, cancelAt: nat, bytesSent: int) returns (o: ReadOutcome)
      requires Valid()
      modifies this`io, readBuffer
      ensures o == ReadFrameSpec(polls, cancelAt)
      ensures io == old(io) + CycleEvents(req, o, bytesSent)
      ensures |o.frame| <= readBuffer.Length && readBuffer[..|o.frame|] == o.frame
      ensures readBuffer[|o.frame|..] == old(readBuffer[..])[|o.frame|..]
    {
      io := io + [Received(req)];
      io := io + [SerialWritten(req.payload)];
      var bytesRead;
      o, bytesRead := ReadFrame(polls, cancelAt);
      if o.status == Completed {
        var reply := Datagram(readBuffer[..bytesRead], req.sender);
        io := io + [Sent(reply)];
        if bytesSent != bytesRead {
          io := io + [MismatchReported(CommandToDisplayString(readBuffer[..bytesRead]), bytesRead, bytesSent)];
        }
      }
    }

    /** One turn of the loop body for one arrival. An interrupt during a cycle runs
        the handler before the loop condition is next evaluated: the cycle's read phase
        has already seen it through `cancelAt`, and only the loop condition reads the
        flag after that. */
    method HandleArrival(a: Arrival) returns (next: Next)
      requires Valid() && Handler() == Running
      modifies this, readBuffer
      ensures Valid() && readBuffer == old(readBuffer) && !exited
      ensures io == old(io) + StepOf(a).events
      ensures next == StepOf(a).next
      ensures cancelRequested == StepOf(a).cancelled
      ensures a.Incoming? ==>
        var frame := ReadFrameSpec(a.polls, a.cancelAt).frame;
        |frame| <= readBuffer.Length && readBuffer[..|frame|] == frame
        && readBuffer[|frame|..] == old(readBuffer[..])[|frame|..]
      ensures a.InterruptWhileWaiting? ==> readBuffer[..] == old(readBuffer[..])
    {
      if a.InterruptWhileWaiting? {
        var _ := CancelKeyPress();
        return Halt(ReceiveCancelled);
      }
      var o := Cycle(a.req, a.polls, a.cancelAt, a.bytesSent);
      if a.cancelAt <= o.polled {
        var _ := CancelKeyPress();
      }
      next := if o.status != Completed then Halt(ReadStopped(o)) else Proceed;
    }

    /** The loop `while (!cts.IsCancellationRequested)` over the given arrivals. */
    method Serve(arrivals: seq<Arrival>) returns (stop: Stop)
      requires Valid() && Handler() == Running
      modifies this, readBuffer
      ensures Valid() && readBuffer == old(readBuffer)
      ensures io == old(io) + SessionOf(arrivals).log
      ensures stop == SessionOf(arrivals).stop
      ensures Handler() == if SessionOf(arrivals).cancelled then CancelRequested else Running
    {
      ghost var total := SessionOf(arrivals);
      assert arrivals[0..] == arrivals;
      var n := 0;
      while !cancelRequested
        invariant Valid() && readBuffer == old(readBuffer) && n <= |arrivals| && !exited
        invariant !cancelRequested ==>
          var rest := SessionOf(arrivals[n..]);
          old(io) + total.log == io + rest.log && total.stop == rest.stop && total.cancelled == rest.cancelled
        invariant cancelRequested ==> io == old(io) + total.log && total.stop == LoopEnded && total.cancelled
        decreases |arrivals| - n
      {
        if n == |arrivals| {
          assert arrivals[n..] == [];
          return NoMoreArrivals;
        }
        ghost var before := io;
        SessionStep(arrivals, n);
        var next := HandleArrival(arrivals[n]);
        if next.Halt? {
          return next.stop;
        }
        SessionProceeds(arrivals, n, before, io);
        n := n + 1;
      }
      stop := LoopEnded;
    }
  }
}
