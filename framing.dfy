/** The frame accumulator of the UDP-to-serial bridge, as values.

    The serial port is given as a finite trace of polls: element `i` is what the
    `i`-th evaluation of `serialPort.BytesToRead` found waiting (an empty chunk is
    an idle tick) and what the following `serialPort.Read` then delivers.
    Cancellation is given as an index: every poll numbered `cancelAt` or later
    sees `cts.IsCancellationRequested` set.

    `Accumulate`, `PollThenRead` and `ReadChunk` follow the outer loop, the inner
    polling loop and the read that ends an inner loop, one recursive call per loop
    iteration; `Bridge.Bridge.ReadFrame` is proved to compute `ReadFrameSpec`. */
module Framing {

  /** A byte as the serial port delivers it. */
  type byte = x: int | 0 <= x < 0x100

  /** What one poll of the port delivers; the empty chunk is an idle tick. */
  type Chunk = seq<byte>

  /** Capacity of `readBuffer`. */
  const BufferSize: nat := 100
  /** Number of idle polls after which the accumulator gives up waiting. */
  const MaxIdlePolls: nat := 5000
  /** The frame terminator '\r'. */
  const CR: byte := 13
  /** The error marker '!'. */
  const ErrorMarker: byte := 33

  /** How one read phase ended. `Overflowed` is the exception `SerialPort.Read`
      throws when the chunk does not fit behind the bytes already read;
      `IndexFault` is `readBuffer[bytesRead - 1]` with `bytesRead == 0`;
      `Unfinished` means the poll trace ended before the read phase did. */
  datatype Status = Completed | Overflowed(count: nat) | IndexFault | Unfinished

  /** The bytes accumulated (`readBuffer[0..bytesRead)`), the idle polls counted
      (`waitedMs`) and how many polls were made. */
  datatype ReadOutcome = ReadOutcome(status: Status, frame: seq<byte>, waited: nat, polled: nat)

  function Min(a: nat, b: nat): nat { if a <= b then a else b }

  /** Concatenation of chunks, in order. */
  function Flatten(chunks: seq<Chunk>): seq<byte>
  {
    if chunks == [] then [] else Flatten(chunks[..|chunks| - 1]) + chunks[|chunks| - 1]
  }

  /** Number of idle polls among the first `n` that were made before cancellation. */
  function IdleCount(polls: seq<Chunk>, cancelAt: nat, n: nat): nat
    requires n <= |polls|
  {
    if n == 0 then 0
    else IdleCount(polls, cancelAt, n - 1) + (if |polls[n - 1]| == 0 && n - 1 < cancelAt then 1 else 0)
  }

  /** `n` idle polls. */
  function Idles(n: nat): seq<Chunk>
  {
    seq(n, _ => [])
  }

  /** The inner loop keeps polling: nothing is available, no cancellation, budget left. */
  predicate IdleTick(polls: seq<Chunk>, cancelAt: nat, i: nat, waited: nat)
    requires i < |polls|
  {
    |polls[i]| == 0 && i < cancelAt && waited < MaxIdlePolls
  }

  /** The outer loop from a state whose flags were computed by the last read. */
  function Accumulate(polls: seq<Chunk>, cancelAt: nat, i: nat, frame: seq<byte>,
                      waited: nat, hasSeenError: bool, hasSeenPound: bool): ReadOutcome
    requires i <= |polls|
    decreases |polls| - i, 1
  {
    if !hasSeenError && !hasSeenPound && waited < MaxIdlePolls then
      PollThenRead(polls, cancelAt, i, frame, waited)
    else
      ReadOutcome(Completed, frame, waited, i)
  }

  /** The inner polling loop, then the read of whatever the last poll found. */
  function PollThenRead(polls: seq<Chunk>, cancelAt: nat, i: nat, frame: seq<byte>, waited: nat): ReadOutcome
    requires i <= |polls|
    decreases |polls| - i, 0
  {
    if i == |polls| then ReadOutcome(Unfinished, frame, waited, i)
    else if IdleTick(polls, cancelAt, i, waited) then PollThenRead(polls, cancelAt, i + 1, frame, waited + 1)
    else ReadChunk(polls, cancelAt, i + 1, frame, waited, polls[i])
  }

  /** `Read(readBuffer, bytesRead, bytesToRead)` and the recomputation of both flags. */
  function ReadChunk(polls: seq<Chunk>, cancelAt: nat, i: nat, frame: seq<byte>, waited: nat, chunk: Chunk): ReadOutcome
    requires i <= |polls|
    decreases |polls| - i, 2
  {
    if BufferSize - |frame| < |chunk| then ReadOutcome(Overflowed(|chunk|), frame, waited, i)
    else
      var f := frame + chunk;
      if |f| == 0 then ReadOutcome(IndexFault, f, waited, i)
      else Accumulate(polls, cancelAt, i, f, waited, f[0] == ErrorMarker, f[|f| - 1] == CR)
  }

  /** One read phase, from `bytesRead = 0`, `waitedMs = 0` and both flags clear. */
  function ReadFrameSpec(polls: seq<Chunk>, cancelAt: nat): ReadOutcome
  {
    Accumulate(polls, cancelAt, 0, [], 0, false, false)
  }

  /** Neither stop condition holds of an accumulated frame. */
  predicate NotStopped(f: seq<byte>)
  {
    |f| == 0 || (f[0] != ErrorMarker && f[|f| - 1] != CR)
  }

  /** Everything that holds of a read outcome, gathered so one induction proves it. */
  ghost predicate OutcomeFacts(polls: seq<Chunk>, cancelAt: nat, o: ReadOutcome)
  {
    o.polled <= |polls|
    && |o.frame| <= BufferSize
    && o.waited == Min(MaxIdlePolls, IdleCount(polls, cancelAt, o.polled))
    && (forall j :: 0 <= j < o.polled ==> NotStopped(Flatten(polls[..j])))
    && (forall n: nat :: n + 1 < o.polled ==> IdleCount(polls, cancelAt, n) < MaxIdlePolls)
    && (forall j :: 0 <= j && j + 1 < o.polled && polls[j] == [] && Flatten(polls[..j]) == [] ==> j < cancelAt)
    && (o.status != Unfinished && o.waited == MaxIdlePolls ==>
          1 <= o.polled && MaxIdlePolls <= IdleCount(polls, cancelAt, o.polled - 1))
    && (o.status.Overflowed? ==>
          1 <= o.polled && o.frame == Flatten(polls[..o.polled - 1])
          && o.status.count == |polls[o.polled - 1]| && BufferSize < |o.frame| + o.status.count)
    && (!o.status.Overflowed? ==> o.frame == Flatten(polls[..o.polled]))
    && (o.status == Completed ==>
          |o.frame| > 0
          && (o.frame[0] == ErrorMarker || o.frame[|o.frame| - 1] == CR || o.waited == MaxIdlePolls))
    && (o.status == IndexFault ==>
          o.frame == [] && 1 <= o.polled && polls[o.polled - 1] == []
          && (cancelAt <= o.polled - 1 || o.waited == MaxIdlePolls))
    && (o.status == Unfinished ==>
          o.polled == |polls| && NotStopped(o.frame)
          && (forall n: nat :: n < o.polled ==> IdleCount(polls, cancelAt, n) < MaxIdlePolls)
          && (forall j :: 0 <= j < o.polled && polls[j] == [] && Flatten(polls[..j]) == [] ==> j < cancelAt))
  }

  /** The state after `i` polls: the frame is what those polls delivered, the idle
      polls are counted up to the budget, no earlier state was stopped, every poll
      but the last was made with idle budget left, and every idle poll but the last
      that found nothing read yet came before cancellation. */
  ghost predicate Reached(polls: seq<Chunk>, cancelAt: nat, i: nat, frame: seq<byte>, waited: nat)
    requires i <= |polls|
  {
    frame == Flatten(polls[..i]) && |frame| <= BufferSize
    && waited == Min(MaxIdlePolls, IdleCount(polls, cancelAt, i))
    && (forall j :: 0 <= j < i ==> NotStopped(Flatten(polls[..j])))
    && (forall n: nat :: n + 1 < i ==> IdleCount(polls, cancelAt, n) < MaxIdlePolls)
    && forall j :: 0 <= j && j + 1 < i && polls[j] == [] && Flatten(polls[..j]) == [] ==> j < cancelAt
  }

  /** The state in which the inner loop polls again after `i` polls: nothing in it
      has stopped the phase yet, the last poll included. */
  ghost predicate Polling(polls: seq<Chunk>, cancelAt: nat, i: nat, frame: seq<byte>, waited: nat)
    requires i <= |polls|
  {
    Reached(polls, cancelAt, i, frame, waited) && NotStopped(frame)
    && (forall n: nat :: n < i ==> IdleCount(polls, cancelAt, n) < MaxIdlePolls)
    && forall j :: 0 <= j < i && polls[j] == [] && Flatten(polls[..j]) == [] ==> j < cancelAt
  }

  /** The state just before the read that ends an inner loop, whose last poll,
      number `i`, found `chunk`. */
  ghost predicate BeforeRead(polls: seq<Chunk>, cancelAt: nat, i: nat, frame: seq<byte>, waited: nat, chunk: Chunk)
  {
    1 <= i <= |polls| && chunk == polls[i - 1]
    && frame == Flatten(polls[..i - 1]) && |frame| <= BufferSize
    && waited == Min(MaxIdlePolls, IdleCount(polls, cancelAt, i))
    && (forall j :: 0 <= j < i ==> NotStopped(Flatten(polls[..j])))
    && (forall n: nat :: n + 1 < i ==> IdleCount(polls, cancelAt, n) < MaxIdlePolls)
    && (forall j :: 0 <= j && j + 1 < i && polls[j] == [] && Flatten(polls[..j]) == [] ==> j < cancelAt)
    && (waited == MaxIdlePolls ==> MaxIdlePolls <= IdleCount(polls, cancelAt, i - 1))
    && (|chunk| > 0 || cancelAt <= i - 1 || waited == MaxIdlePolls)
  }

  lemma FlattenSnoc(polls: seq<Chunk>, i: nat)
    requires i < |polls|
    ensures Flatten(polls[..i + 1]) == Flatten(polls[..i]) + polls[i]
  {
    assert polls[..i + 1][..i] == polls[..i];
  }

  lemma CompletedFacts(polls: seq<Chunk>, cancelAt: nat, i: nat, frame: seq<byte>, waited: nat)
    requires i <= |polls| && Reached(polls, cancelAt, i, frame, waited)
    requires |frame| > 0 && (frame[0] == ErrorMarker || frame[|frame| - 1] == CR || waited == MaxIdlePolls)
    requires waited == MaxIdlePolls ==> 1 <= i && MaxIdlePolls <= IdleCount(polls, cancelAt, i - 1)
    ensures OutcomeFacts(polls, cancelAt, ReadOutcome(Completed, frame, waited, i))
  {
  }

  lemma KeepsPolling(polls: seq<Chunk>, cancelAt: nat, i: nat, frame: seq<byte>, waited: nat)
    requires i <= |polls| && Reached(polls, cancelAt, i, frame, waited)
    requires NotStopped(frame) && waited < MaxIdlePolls
    requires forall j :: 0 <= j < i && polls[j] == [] && Flatten(polls[..j]) == [] ==> j < cancelAt
    ensures Polling(polls, cancelAt, i, frame, waited)
  {
    if i > 0 {
      assert IdleCount(polls, cancelAt, i - 1) <= IdleCount(polls, cancelAt, i);
    }
  }

  lemma UnfinishedFacts(polls: seq<Chunk>, cancelAt: nat, frame: seq<byte>, waited: nat)
    requires Polling(polls, cancelAt, |polls|, frame, waited)
    ensures OutcomeFacts(polls, cancelAt, ReadOutcome(Unfinished, frame, waited, |polls|))
  {
  }

  lemma IdleStep(polls: seq<Chunk>, cancelAt: nat, i: nat, frame: seq<byte>, waited: nat)
    requires i < |polls| && Polling(polls, cancelAt, i, frame, waited) && IdleTick(polls, cancelAt, i, waited)
    ensures Polling(polls, cancelAt, i + 1, frame, waited + 1)
  {
    FlattenSnoc(polls, i);
  }

  lemma ReadStep(polls: seq<Chunk>, cancelAt: nat, i: nat, frame: seq<byte>, waited: nat)
    requires i < |polls| && Polling(polls, cancelAt, i, frame, waited) && !IdleTick(polls, cancelAt, i, waited)
    ensures BeforeRead(polls, cancelAt, i + 1, frame, waited, polls[i])
  {
    assert polls[..i + 1][..i] == polls[..i];
  }

  lemma OverflowFacts(polls: seq<Chunk>, cancelAt: nat, i: nat, frame: seq<byte>, waited: nat, chunk: Chunk)
    requires BeforeRead(polls, cancelAt, i, frame, waited, chunk) && BufferSize - |frame| < |chunk|
    ensures OutcomeFacts(polls, cancelAt, ReadOutcome(Overflowed(|chunk|), frame, waited, i))
  {
  }

  lemma FaultFacts(polls: seq<Chunk>, cancelAt: nat, i: nat, frame: seq<byte>, waited: nat, chunk: Chunk)
    requires BeforeRead(polls, cancelAt, i, frame, waited, chunk) && frame + chunk == []
    ensures OutcomeFacts(polls, cancelAt, ReadOutcome(IndexFault, [], waited, i))
  {
    FlattenSnoc(polls, i - 1);
  }

  lemma ReadFits(polls: seq<Chunk>, cancelAt: nat, i: nat, frame: seq<byte>, waited: nat, chunk: Chunk)
    requires BeforeRead(polls, cancelAt, i, frame, waited, chunk)
    requires |frame + chunk| <= BufferSize && |frame + chunk| > 0
    ensures Reached(polls, cancelAt, i, frame + chunk, waited)
    ensures forall j :: 0 <= j < i && polls[j] == [] && Flatten(polls[..j]) == [] ==> j < cancelAt
    ensures waited == MaxIdlePolls ==> MaxIdlePolls <= IdleCount(polls, cancelAt, i - 1)
  {
    FlattenSnoc(polls, i - 1);
  }

  lemma {:induction false} AccumulateFacts(polls: seq<Chunk>, cancelAt: nat, i: nat, frame: seq<byte>,
                                           waited: nat, err: bool, pound: bool)
    requires i <= |polls| && Reached(polls, cancelAt, i, frame, waited)
    requires err == (|frame| > 0 && frame[0] == ErrorMarker)
    requires pound == (|frame| > 0 && frame[|frame| - 1] == CR)
    requires |frame| > 0 || waited < MaxIdlePolls
    requires forall j :: 0 <= j < i && polls[j] == [] && Flatten(polls[..j]) == [] ==> j < cancelAt
    requires waited == MaxIdlePolls ==> 1 <= i && MaxIdlePolls <= IdleCount(polls, cancelAt, i - 1)
    ensures OutcomeFacts(polls, cancelAt, Accumulate(polls, cancelAt, i, frame, waited, err, pound))
    decreases |polls| - i, 1
  {
    if !err && !pound && waited < MaxIdlePolls {
      KeepsPolling(polls, cancelAt, i, frame, waited);
      PollThenReadFacts(polls, cancelAt, i, frame, waited);
    } else {
      CompletedFacts(polls, cancelAt, i, frame, waited);
    }
  }

  lemma {:induction false} PollThenReadFacts(polls: seq<Chunk>, cancelAt: nat, i: nat, frame: seq<byte>, waited: nat)
    requires i <= |polls| && Polling(polls, cancelAt, i, frame, waited)
    ensures OutcomeFacts(polls, cancelAt, PollThenRead(polls, cancelAt, i, frame, waited))
    decreases |polls| - i, 0
  {
    var o := PollThenRead(polls, cancelAt, i, frame, waited);
    if i == |polls| {
      UnfinishedFacts(polls, cancelAt, frame, waited);
      assert o == ReadOutcome(Unfinished, frame, waited, |polls|);
    } else if IdleTick(polls, cancelAt, i, waited) {
      IdleStep(polls, cancelAt, i, frame, waited);
      PollThenReadFacts(polls, cancelAt, i + 1, frame, waited + 1);
      assert o == PollThenRead(polls, cancelAt, i + 1, frame, waited + 1);
    } else {
      ReadStep(polls, cancelAt, i, frame, waited);
      ReadChunkFacts(polls, cancelAt, i + 1, frame, waited, polls[i]);
      assert o == ReadChunk(polls, cancelAt, i + 1, frame, waited, polls[i]);
    }
  }

  lemma {:induction false} ReadChunkFacts(polls: seq<Chunk>, cancelAt: nat, i: nat, frame: seq<byte>, waited: nat, chunk: Chunk)
    requires i <= |polls| && BeforeRead(polls, cancelAt, i, frame, waited, chunk)
    ensures OutcomeFacts(polls, cancelAt, ReadChunk(polls, cancelAt, i, frame, waited, chunk))
    decreases |polls| - i, 2
  {
    var f := frame + chunk;
    if BufferSize - |frame| < |chunk| {
      OverflowFacts(polls, cancelAt, i, frame, waited, chunk);
    } else if |f| == 0 {
      FaultFacts(polls, cancelAt, i, frame, waited, chunk);
    } else {
      ReadFits(polls, cancelAt, i, frame, waited, chunk);
      AccumulateFacts(polls, cancelAt, i, f, waited, f[0] == ErrorMarker, f[|f| - 1] == CR);
    }
  }

  /** The facts hold of every read phase. */
  lemma OutcomeFactsHold(polls: seq<Chunk>, cancelAt: nat)
    ensures OutcomeFacts(polls, cancelAt, ReadFrameSpec(polls, cancelAt))
  {
    assert polls[..0] == [];
    AccumulateFacts(polls, cancelAt, 0, [], 0, false, false);
  }

  lemma {:induction false} FlattenPrefixLength(polls: seq<Chunk>, m: nat, n: nat)
    requires m <= n <= |polls|
    ensures |Flatten(polls[..m])| <= |Flatten(polls[..n])|
    decreases n - m
  {
    if m < n {
      FlattenSnoc(polls, n - 1);
      FlattenPrefixLength(polls, m, n - 1);
    }
  }

  /** After `p` polls the code cannot go on: the last read met a marker or did not
      fit, the last poll was made with the idle budget used up, or it was an idle poll
      after cancellation with nothing read yet. */
  ghost predicate Stops(polls: seq<Chunk>, cancelAt: nat, p: nat)
    requires 1 <= p <= |polls|
  {
    !NotStopped(Flatten(polls[..p]))
    || BufferSize < |Flatten(polls[..p])|
    || MaxIdlePolls <= IdleCount(polls, cancelAt, p - 1)
    || (polls[p - 1] == [] && Flatten(polls[..p - 1]) == [] && cancelAt <= p - 1)
  }

  lemma StopsAtLastPoll(polls: seq<Chunk>, cancelAt: nat, o: ReadOutcome)
    requires OutcomeFacts(polls, cancelAt, o)
    ensures o.status != Unfinished ==> 1 <= o.polled && Stops(polls, cancelAt, o.polled)
    ensures o.status != Unfinished ==>
      (o.status.Overflowed? <==> BufferSize < |Flatten(polls[..o.polled])|)
      && (o.status == IndexFault <==> Flatten(polls[..o.polled]) == [])
  {
    if 1 <= o.polled {
      FlattenSnoc(polls, o.polled - 1);
    }
  }

  lemma FitsBeforeLastPoll(polls: seq<Chunk>, cancelAt: nat, o: ReadOutcome, p: nat)
    requires OutcomeFacts(polls, cancelAt, o) && 1 <= p < o.polled
    ensures |Flatten(polls[..p])| <= BufferSize
  {
    FlattenPrefixLength(polls, p, o.polled - 1);
    FlattenSnoc(polls, o.polled - 1);
  }

  lemma NoCancelledFaultBeforeLastPoll(polls: seq<Chunk>, cancelAt: nat, o: ReadOutcome, p: nat)
    requires OutcomeFacts(polls, cancelAt, o) && 1 <= p < o.polled
    ensures !(polls[p - 1] == [] && Flatten(polls[..p - 1]) == [] && cancelAt <= p - 1)
  {
    assert polls[p - 1] == [] && Flatten(polls[..p - 1]) == [] ==> p - 1 < cancelAt;
  }

  /** The phase does not stop at a poll before its last one. */
  lemma NoStopBeforeLastPoll(polls: seq<Chunk>, cancelAt: nat, o: ReadOutcome, p: nat)
    requires OutcomeFacts(polls, cancelAt, o) && 1 <= p < o.polled
    ensures !Stops(polls, cancelAt, p)
  {
    FitsBeforeLastPoll(polls, cancelAt, o, p);
    NoCancelledFaultBeforeLastPoll(polls, cancelAt, o, p);
    assert NotStopped(Flatten(polls[..p]));
    assert IdleCount(polls, cancelAt, p - 1) < MaxIdlePolls;
  }

  /** A phase the trace left unfinished did not stop at its last poll either. */
  lemma NoStopWhenUnfinished(polls: seq<Chunk>, cancelAt: nat, o: ReadOutcome)
    requires OutcomeFacts(polls, cancelAt, o) && o.status == Unfinished && 1 <= o.polled
    ensures !Stops(polls, cancelAt, o.polled)
  {
    FlattenSnoc(polls, o.polled - 1);
    assert polls[o.polled - 1] == [] && Flatten(polls[..o.polled - 1]) == [] ==> o.polled - 1 < cancelAt;
  }

  lemma NoStopBefore(polls: seq<Chunk>, cancelAt: nat, o: ReadOutcome, p: nat)
    requires OutcomeFacts(polls, cancelAt, o)
    ensures 1 <= p <= o.polled && (p < o.polled || o.status == Unfinished) ==> !Stops(polls, cancelAt, p)
  {
    if 1 <= p < o.polled {
      NoStopBeforeLastPoll(polls, cancelAt, o, p);
    } else if 1 <= p == o.polled && o.status == Unfinished {
      NoStopWhenUnfinished(polls, cancelAt, o);
    }
  }

  /** The facts leave no choice: at most one outcome of a trace meets them. */
  lemma OutcomeFactsUnique(polls: seq<Chunk>, cancelAt: nat, o1: ReadOutcome, o2: ReadOutcome)
    requires OutcomeFacts(polls, cancelAt, o1) && OutcomeFacts(polls, cancelAt, o2)
    ensures o1 == o2
  {
    StopsAtLastPoll(polls, cancelAt, o1);
    StopsAtLastPoll(polls, cancelAt, o2);
    NoStopBefore(polls, cancelAt, o1, o2.polled);
    NoStopBefore(polls, cancelAt, o2, o1.polled);
  }

  /** The facts characterise the read phase: exactly the outcome `ReadFrameSpec`
      computes meets them. */
  lemma ReadPhaseCharacterised(polls: seq<Chunk>, cancelAt: nat, o: ReadOutcome)
    ensures OutcomeFacts(polls, cancelAt, o) <==> o == ReadFrameSpec(polls, cancelAt)
  {
    OutcomeFactsHold(polls, cancelAt);
    if OutcomeFacts(polls, cancelAt, o) {
      OutcomeFactsUnique(polls, cancelAt, o, ReadFrameSpec(polls, cancelAt));
    }
  }

  // ---------------------------------------------------------------------------
  // The properties of one read phase, one lemma each.

  /** Each write lands at offset `bytesRead`, which starts at 0: the bytes
      accumulated are exactly the chunks read, concatenated in order. */
  lemma FrameIsConcatenationOfChunks(polls: seq<Chunk>, cancelAt: nat)
    ensures var o := ReadFrameSpec(polls, cancelAt);
      o.polled <= |polls|
      && (o.status.Overflowed? ==> 1 <= o.polled && o.frame == Flatten(polls[..o.polled - 1]))
      && (!o.status.Overflowed? ==> o.frame == Flatten(polls[..o.polled]))
  {
    OutcomeFactsHold(polls, cancelAt);
  }

  /** A read happens only within capacity: the frame never exceeds the buffer, and
      the read phase fails exactly with the chunk that would not fit. */
  lemma ReadStaysWithinCapacity(polls: seq<Chunk>, cancelAt: nat)
    ensures var o := ReadFrameSpec(polls, cancelAt);
      o.polled <= |polls| && |o.frame| <= BufferSize
      && (o.status.Overflowed? ==>
            1 <= o.polled && o.status.count == |polls[o.polled - 1]|
            && BufferSize < |o.frame| + o.status.count)
  {
    OutcomeFactsHold(polls, cancelAt);
  }

  /** `waitedMs` counts the idle polls made before cancellation, and stops at 5000. */
  lemma WaitedCountsIdlePolls(polls: seq<Chunk>, cancelAt: nat)
    ensures var o := ReadFrameSpec(polls, cancelAt);
      o.polled <= |polls| && o.waited == Min(MaxIdlePolls, IdleCount(polls, cancelAt, o.polled)) && o.waited <= MaxIdlePolls
  {
    OutcomeFactsHold(polls, cancelAt);
  }

  /** A completed frame ends on the terminator, starts with the error marker, or
      ran out of idle polls; and no earlier accumulated prefix met either marker
      condition, so the loop stops at the first read after which one holds; no poll
      is made after the one that found the idle budget used up, and a phase that ends
      with the budget used up does make that poll; and a trace that ends before the
      phase does leaves a frame that meets neither marker condition. */
  lemma StopConditions(polls: seq<Chunk>, cancelAt: nat)
    ensures var o := ReadFrameSpec(polls, cancelAt);
      o.polled <= |polls|
      && (o.status == Completed ==>
         |o.frame| > 0
         && (o.frame[0] == ErrorMarker || o.frame[|o.frame| - 1] == CR || o.waited == MaxIdlePolls))
      && (forall j :: 0 <= j < o.polled ==> NotStopped(Flatten(polls[..j])))
      && (forall n: nat :: n + 1 < o.polled ==> IdleCount(polls, cancelAt, n) < MaxIdlePolls)
      && (o.status == Unfinished ==> NotStopped(o.frame))
      && (o.status != Unfinished && o.waited == MaxIdlePolls ==>
            1 <= o.polled && MaxIdlePolls <= IdleCount(polls, cancelAt, o.polled - 1))
  {
    OutcomeFactsHold(polls, cancelAt);
  }

  /** Reaching the idle budget ends the read phase: once the first `n` polls hold 5000
      idle polls made before cancellation, at most one more poll is made and the
      phase does not wait for further input. */
  lemma BudgetEndsReadPhase(polls: seq<Chunk>, cancelAt: nat, n: nat)
    requires n < |polls| && MaxIdlePolls <= IdleCount(polls, cancelAt, n)
    ensures var o := ReadFrameSpec(polls, cancelAt);
      o.polled <= n + 1 && o.status != Unfinished
  {
    OutcomeFactsHold(polls, cancelAt);
  }

  /** `readBuffer[bytesRead - 1]` faults only when nothing at all was read and the
      inner loop stopped on an idle poll because of cancellation or the budget. */
  lemma IndexFaultOnlyWhenNothingRead(polls: seq<Chunk>, cancelAt: nat)
    ensures var o := ReadFrameSpec(polls, cancelAt);
      o.polled <= |polls|
      && (o.status == IndexFault ==>
        o.frame == [] && 1 <= o.polled && polls[o.polled - 1] == []
          && (cancelAt <= o.polled - 1 || o.waited == MaxIdlePolls))
  {
    OutcomeFactsHold(polls, cancelAt);
  }

  // ---------------------------------------------------------------------------
  // The accumulator never looks past the poll that ends it.

  lemma {:induction false} AccumulateNoLookahead(polls: seq<Chunk>, more: seq<Chunk>, cancelAt: nat, i: nat,
                                                 frame: seq<byte>, waited: nat, err: bool, pound: bool)
    requires i <= |polls|
    requires Accumulate(polls, cancelAt, i, frame, waited, err, pound).status != Unfinished
    ensures Accumulate(polls + more, cancelAt, i, frame, waited, err, pound)
         == Accumulate(polls, cancelAt, i, frame, waited, err, pound)
    decreases |polls| - i, 1
  {
    if !err && !pound && waited < MaxIdlePolls {
      PollThenReadNoLookahead(polls, more, cancelAt, i, frame, waited);
    }
  }

  lemma {:induction false} PollThenReadNoLookahead(polls: seq<Chunk>, more: seq<Chunk>, cancelAt: nat, i: nat,
                                                   frame: seq<byte>, waited: nat)
    requires i <= |polls|
    requires PollThenRead(polls, cancelAt, i, frame, waited).status != Unfinished
    ensures PollThenRead(polls + more, cancelAt, i, frame, waited) == PollThenRead(polls, cancelAt, i, frame, waited)
    decreases |polls| - i, 0
  {
    if i < |polls| {
      assert (polls + more)[i] == polls[i];
      if IdleTick(polls, cancelAt, i, waited) {
        PollThenReadNoLookahead(polls, more, cancelAt, i + 1, frame, waited + 1);
      } else {
        ReadChunkNoLookahead(polls, more, cancelAt, i + 1, frame, waited, polls[i]);
      }
    }
  }

  lemma {:induction false} ReadChunkNoLookahead(polls: seq<Chunk>, more: seq<Chunk>, cancelAt: nat, i: nat,
                                                frame: seq<byte>, waited: nat, chunk: Chunk)
    requires i <= |polls|
    requires ReadChunk(polls, cancelAt, i, frame, waited, chunk).status != Unfinished
    ensures ReadChunk(polls + more, cancelAt, i, frame, waited, chunk) == ReadChunk(polls, cancelAt, i, frame, waited, chunk)
    decreases |polls| - i, 2
  {
    if BufferSize - |frame| >= |chunk| {
      var f := frame + chunk;
      if |f| > 0 {
        AccumulateNoLookahead(polls, more, cancelAt, i, f, waited, f[0] == ErrorMarker, f[|f| - 1] == CR);
      }
    }
  }

  /** Appending polls to a trace on which the read phase ended changes nothing. */
  lemma NoLookahead(polls: seq<Chunk>, more: seq<Chunk>, cancelAt: nat)
    requires ReadFrameSpec(polls, cancelAt).status != Unfinished
    ensures ReadFrameSpec(polls + more, cancelAt) == ReadFrameSpec(polls, cancelAt)
  {
    AccumulateNoLookahead(polls, more, cancelAt, 0, [], 0, false, false);
  }

  lemma {:induction false} AccumulateTruncate(polls: seq<Chunk>, cancelAt: nat, i: nat,
                                              frame: seq<byte>, waited: nat, err: bool, pound: bool)
    requires i <= |polls|
    ensures var o := Accumulate(polls, cancelAt, i, frame, waited, err, pound);
      i <= o.polled <= |polls|
      && (o.status != Unfinished ==> Accumulate(polls[..o.polled], cancelAt, i, frame, waited, err, pound) == o)
    decreases |polls| - i, 1
  {
    if !err && !pound && waited < MaxIdlePolls {
      PollThenReadTruncate(polls, cancelAt, i, frame, waited);
    }
  }

  lemma {:induction false} PollThenReadTruncate(polls: seq<Chunk>, cancelAt: nat, i: nat, frame: seq<byte>, waited: nat)
    requires i <= |polls|
    ensures var o := PollThenRead(polls, cancelAt, i, frame, waited);
      i <= o.polled <= |polls|
      && (o.status != Unfinished ==> i < o.polled && PollThenRead(polls[..o.polled], cancelAt, i, frame, waited) == o)
    decreases |polls| - i, 0
  {
    if i < |polls| {
      var o := PollThenRead(polls, cancelAt, i, frame, waited);
      if IdleTick(polls, cancelAt, i, waited) {
        PollThenReadTruncate(polls, cancelAt, i + 1, frame, waited + 1);
      } else {
        ReadChunkTruncate(polls, cancelAt, i + 1, frame, waited, polls[i]);
      }
      if o.status != Unfinished {
        assert polls[..o.polled][i] == polls[i];
      }
    }
  }

  lemma {:induction false} ReadChunkTruncate(polls: seq<Chunk>, cancelAt: nat, i: nat,
                                             frame: seq<byte>, waited: nat, chunk: Chunk)
    requires i <= |polls|
    ensures var o := ReadChunk(polls, cancelAt, i, frame, waited, chunk);
      i <= o.polled <= |polls|
      && (o.status != Unfinished ==> ReadChunk(polls[..o.polled], cancelAt, i, frame, waited, chunk) == o)
    decreases |polls| - i, 2
  {
    if BufferSize - |frame| >= |chunk| {
      var f := frame + chunk;
      if |f| > 0 {
        AccumulateTruncate(polls, cancelAt, i, f, waited, f[0] == ErrorMarker, f[|f| - 1] == CR);
      }
    }
  }

  /** A read phase that ended depends only on the polls it made: the same polls
      followed by anything else give the same outcome, so whatever the port reports
      later belongs to the next cycle. */
  lemma ReadDependsOnlyOnPollsMade(polls: seq<Chunk>, cancelAt: nat)
    ensures var o := ReadFrameSpec(polls, cancelAt);
      o.polled <= |polls|
      && (o.status != Unfinished ==>
            ReadFrameSpec(polls[..o.polled], cancelAt) == o
            && forall later: seq<Chunk> :: ReadFrameSpec(polls[..o.polled] + later, cancelAt) == o)
  {
    AccumulateTruncate(polls, cancelAt, 0, [], 0, false, false);
    var o := ReadFrameSpec(polls, cancelAt);
    if o.status != Unfinished {
      forall later: seq<Chunk>
        ensures ReadFrameSpec(polls[..o.polled] + later, cancelAt) == o
      {
        NoLookahead(polls[..o.polled], later, cancelAt);
      }
    }
  }

  // ---------------------------------------------------------------------------
  // Scenarios: what the accumulator does with particular device behaviour.

  /** Idle polls before cancellation and within the budget only advance `waitedMs`. */
  lemma {:induction false} SkipIdlePolls(polls: seq<Chunk>, cancelAt: nat, i: nat, k: nat, frame: seq<byte>, waited: nat)
    requires i <= k <= |polls| && k <= cancelAt && waited + (k - i) <= MaxIdlePolls
    requires forall j :: i <= j < k ==> polls[j] == []
    ensures PollThenRead(polls, cancelAt, i, frame, waited) == PollThenRead(polls, cancelAt, k, frame, waited + (k - i))
    decreases k - i
  {
    if i < k {
      assert IdleTick(polls, cancelAt, i, waited);
      SkipIdlePolls(polls, cancelAt, i + 1, k, frame, waited + 1);
    }
  }

  /** After up to 5000 idle polls, a reply that arrives in one chunk and ends on the
      terminator (or starts with the error marker) is the frame, whatever follows. */
  lemma ReplyAfterIdlePolls(k: nat, reply: Chunk, rest: seq<Chunk>, cancelAt: nat)
    requires k <= MaxIdlePolls && k <= cancelAt
    requires 0 < |reply| <= BufferSize
    requires reply[|reply| - 1] == CR || reply[0] == ErrorMarker
    ensures ReadFrameSpec(Idles(k) + [reply] + rest, cancelAt) == ReadOutcome(Completed, reply, k, k + 1)
  {
    var polls := Idles(k) + [reply] + rest;
    assert forall j :: 0 <= j < k ==> polls[j] == Idles(k)[j];
    assert polls[k] == reply;
    SkipIdlePolls(polls, cancelAt, 0, k, [], 0);
    assert [] + reply == reply;
    calc {
      ReadFrameSpec(polls, cancelAt);
      PollThenRead(polls, cancelAt, 0, [], 0);
      PollThenRead(polls, cancelAt, k, [], k);
      ReadChunk(polls, cancelAt, k + 1, [], k, reply);
      Accumulate(polls, cancelAt, k + 1, reply, k, reply[0] == ErrorMarker, reply[|reply| - 1] == CR);
    }
  }

  /** The error marker ends the frame at once: "!E" arriving before its terminator is
      returned as the whole frame and the '\r' is left for the next cycle. */
  lemma ErrorMarkerDoesNotWaitForTerminator(cancelAt: nat)
    ensures ReadFrameSpec([[ErrorMarker, 69], [CR]], cancelAt) == ReadOutcome(Completed, [ErrorMarker, 69], 0, 1)
  {
    assert Idles(0) + [[ErrorMarker, 69]] + [[CR]] == [[ErrorMarker, 69], [CR]];
    ReplyAfterIdlePolls(0, [ErrorMarker, 69], [[CR]], cancelAt);
  }

  /** A device that stays silent: after 5000 counted idle polls the next idle poll
      ends the inner loop, the zero-byte read leaves `bytesRead == 0`, and
      `readBuffer[bytesRead - 1]` faults instead of a timeout being reported. */
  lemma SilentDeviceFaults(n: nat, cancelAt: nat)
    requires n > MaxIdlePolls && cancelAt >= MaxIdlePolls
    ensures ReadFrameSpec(Idles(n), cancelAt) == ReadOutcome(IndexFault, [], MaxIdlePolls, MaxIdlePolls + 1)
  {
    var polls := Idles(n);
    SkipIdlePolls(polls, cancelAt, 0, MaxIdlePolls, [], 0);
    assert polls[MaxIdlePolls] == [];
    calc {
      ReadFrameSpec(polls, cancelAt);
      PollThenRead(polls, cancelAt, 0, [], 0);
      PollThenRead(polls, cancelAt, MaxIdlePolls, [], MaxIdlePolls);
      ReadChunk(polls, cancelAt, MaxIdlePolls + 1, [], MaxIdlePolls, []);
    }
  }

  /** A partial reply followed by silence: at the budget the partial frame is
      returned as if complete, so it is sent back without its terminator. */
  lemma TimeoutReturnsPartialFrame(partial: Chunk, n: nat, cancelAt: nat)
    requires 0 < |partial| <= BufferSize && NotStopped(partial)
    requires n > MaxIdlePolls && cancelAt > MaxIdlePolls
    ensures ReadFrameSpec([partial] + Idles(n), cancelAt)
         == ReadOutcome(Completed, partial, MaxIdlePolls, MaxIdlePolls + 2)
  {
    var polls := [partial] + Idles(n);
    assert polls[0] == partial;
    assert forall j :: 1 <= j < |polls| ==> polls[j] == [];
    assert [] + partial == partial;
    assert partial + [] == partial;
    SkipIdlePolls(polls, cancelAt, 1, MaxIdlePolls + 1, partial, 0);
    calc {
      ReadFrameSpec(polls, cancelAt);
      PollThenRead(polls, cancelAt, 0, [], 0);
      ReadChunk(polls, cancelAt, 1, [], 0, partial);
      Accumulate(polls, cancelAt, 1, partial, 0, false, false);
      PollThenRead(polls, cancelAt, 1, partial, 0);
      PollThenRead(polls, cancelAt, MaxIdlePolls + 1, partial, MaxIdlePolls);
      ReadChunk(polls, cancelAt, MaxIdlePolls + 2, partial, MaxIdlePolls, []);
      Accumulate(polls, cancelAt, MaxIdlePolls + 2, partial, MaxIdlePolls, false, false);
    }
  }

  /** Cancellation after `k` idle polls, before any byte arrived: the inner loop stops
      on the next idle poll, the zero-byte read leaves `bytesRead` at 0, and
      `readBuffer[bytesRead - 1]` faults. */
  lemma CancelBeforeReplyFaults(k: nat, rest: seq<Chunk>)
    requires k <= MaxIdlePolls
    ensures ReadFrameSpec(Idles(k) + [[]] + rest, k) == ReadOutcome(IndexFault, [], k, k + 1)
  {
    var polls := Idles(k) + [[]] + rest;
    assert forall j :: 0 <= j < k ==> polls[j] == Idles(k)[j];
    assert polls[k] == [];
    SkipIdlePolls(polls, k, 0, k, [], 0);
    calc {
      ReadFrameSpec(polls, k);
      PollThenRead(polls, k, 0, [], 0);
      PollThenRead(polls, k, k, [], k);
      ReadChunk(polls, k, k + 1, [], k, []);
    }
  }

  /** In general, an idle poll after cancellation with nothing read yet is the last
      poll of the phase, and the phase ends in the index fault. */
  lemma CancelWithNothingReadFaults(polls: seq<Chunk>, cancelAt: nat)
    ensures var o := ReadFrameSpec(polls, cancelAt);
      o.polled <= |polls|
      && forall j :: 0 <= j < o.polled && polls[j] == [] && Flatten(polls[..j]) == [] && cancelAt <= j ==>
           j + 1 == o.polled && o.status == IndexFault
  {
    OutcomeFactsHold(polls, cancelAt);
    var o := ReadFrameSpec(polls, cancelAt);
    forall j | 0 <= j < o.polled && polls[j] == [] && Flatten(polls[..j]) == [] && cancelAt <= j
      ensures j + 1 == o.polled && o.status == IndexFault
    {
      FlattenSnoc(polls, j);
    }
  }

    lemma {:induction false} CancelledSpin(polls: seq<Chunk>, cancelAt: nat, i: nat, frame: seq<byte>)
    requires 1 <= i <= |polls| && cancelAt <= i
    requires 0 < |frame| <= BufferSize && NotStopped(frame)
    requires forall j :: i <= j < |polls| ==> polls[j] == []
    ensures Accumulate(polls, cancelAt, i, frame, 0, false, false) == ReadOutcome(Unfinished, frame, 0, |polls|)
    decreases |polls| - i
  {
    if i < |polls| {
      assert polls[i] == [];
      assert frame + polls[i] == frame;
      calc {
        Accumulate(polls, cancelAt, i, frame, 0, false, false);
        PollThenRead(polls, cancelAt, i, frame, 0);
        ReadChunk(polls, cancelAt, i + 1, frame, 0, []);
        Accumulate(polls, cancelAt, i + 1, frame, 0, false, false);
      }
      CancelledSpin(polls, cancelAt, i + 1, frame);
    }
  }

  /** Cancellation with a partial frame does not end the read phase: every later
      idle poll ends the inner loop at once, reads nothing and re-enters the outer
      loop with `waitedMs` unchanged, so however long the device stays silent the
      read phase never finishes and no timeout is ever reached. */
  lemma CancelledPartialFrameNeverFinishes(partial: Chunk, n: nat, cancelAt: nat)
    requires 0 < |partial| <= BufferSize && NotStopped(partial) && cancelAt <= 1
    ensures ReadFrameSpec([partial] + Idles(n), cancelAt) == ReadOutcome(Unfinished, partial, 0, n + 1)
  {
    var polls := [partial] + Idles(n);
    assert polls[0] == partial;
    assert forall j :: 1 <= j < |polls| ==> polls[j] == [];
    assert [] + partial == partial;
    calc {
      ReadFrameSpec(polls, cancelAt);
      PollThenRead(polls, cancelAt, 0, [], 0);
      ReadChunk(polls, cancelAt, 1, [], 0, partial);
      Accumulate(polls, cancelAt, 1, partial, 0, false, false);
    }
    CancelledSpin(polls, cancelAt, 1, partial);
  }

  /** Bytes that do not fit behind a frame that meets neither marker condition make
      `SerialPort.Read` throw. */
  lemma LongReplyOverflows(first: Chunk, second: Chunk, rest: seq<Chunk>, cancelAt: nat)
    requires 0 < |first| <= BufferSize && NotStopped(first) && BufferSize < |first| + |second|
    ensures ReadFrameSpec([first, second] + rest, cancelAt) == ReadOutcome(Overflowed(|second|), first, 0, 2)
  {
    var polls := [first, second] + rest;
    assert polls[0] == first && polls[1] == second;
    assert [] + first == first;
    calc {
      ReadFrameSpec(polls, cancelAt);
      PollThenRead(polls, cancelAt, 0, [], 0);
      ReadChunk(polls, cancelAt, 1, [], 0, first);
      Accumulate(polls, cancelAt, 1, first, 0, false, false);
      PollThenRead(polls, cancelAt, 1, first, 0);
      ReadChunk(polls, cancelAt, 2, first, 0, second);
    }
  }
}
