/** The bridge loop as values: what one request/response cycle does on the two
    transports, and what a whole run of the loop does with a sequence of arrivals.
    The transports appear as the events they see, in order. */
module Session {
  import opened Framing
  import opened Display

  /** The sender of a request (`req.RemoteEndPoint`). */
  datatype Endpoint = Endpoint(address: seq<byte>, port: nat)

  /** A request datagram (`req.Buffer` and `req.RemoteEndPoint`). */
  datatype Request = Request(payload: seq<byte>, sender: Endpoint)

  /** A reply datagram and its destination. */
  datatype Datagram = Datagram(payload: seq<byte>, to: Endpoint)

  /** What the loop does on its transports and its error stream. */
  datatype Event =
    | Received(req: Request)                                     // udp.ReceiveAsync returned
    | SerialWritten(bytes: seq<byte>)                            // serialPort.Write
    | Sent(datagram: Datagram)                                   // udp.SendAsync, awaited
    | MismatchReported(shown: string, expected: nat, actual: int) // the "ERR: While sending" line

  /** What the environment does next while the loop waits for a datagram: a request
      arrives (with the serial port's behaviour during its read phase, the cancellation
      point of that read phase and the byte count the send will report), or the user
      interrupts the wait. An interrupt that arrives during a cycle is given by
      `cancelAt`: it happened during this cycle exactly when `cancelAt <= polled`. */
  datatype Arrival =
    | Incoming(req: Request, polls: seq<Chunk>, cancelAt: nat, bytesSent: int)
    | InterruptWhileWaiting

  /** Why the loop stopped: the loop condition saw cancellation; `ReceiveAsync` was
      cancelled (an `OperationCanceledException` that ends the program); a read phase
      did not complete (a fault that ends the program, or the poll trace ended); or no
      further arrival is given. */
  datatype Stop = LoopEnded | ReceiveCancelled | ReadStopped(outcome: ReadOutcome) | NoMoreArrivals

  /** The events of a run, why it stopped, and whether cancellation was requested. */
  datatype SessionResult = SessionResult(log: seq<Event>, stop: Stop, cancelled: bool)

  /** The events of one cycle whose read phase ended with `o`. */
  function CycleEvents(req: Request, o: ReadOutcome, bytesSent: int): seq<Event>
  {
    [Received(req), SerialWritten(req.payload)]
    + if o.status != Completed then []
      else [Sent(Datagram(o.frame, req.sender))]
           + if bytesSent != |o.frame| then [MismatchReported(CommandToDisplayString(o.frame), |o.frame|, bytesSent)]
             else []
  }

  /** Whether the loop goes on after an arrival has been handled. */
  datatype Next = Proceed | Halt(stop: Stop)

  /** What handling one arrival does: its events, whether the program stops there,
      and whether cancellation was requested while it was handled. */
  datatype Step = Step(events: seq<Event>, next: Next, cancelled: bool)

  function StepOf(a: Arrival): Step
  {
    match a
    case InterruptWhileWaiting => Step([], Halt(ReceiveCancelled), true)
    case Incoming(req, polls, cancelAt, bytesSent) =>
      var o := ReadFrameSpec(polls, cancelAt);
      Step(CycleEvents(req, o, bytesSent),
           if o.status != Completed then Halt(ReadStopped(o)) else Proceed,
           cancelAt <= o.polled)
  }

  /** The loop `while (!cts.IsCancellationRequested) { ... }` over the given arrivals. */
  function SessionOf(arrivals: seq<Arrival>): SessionResult
  {
    if arrivals == [] then SessionResult([], NoMoreArrivals, false)
    else
      var step := StepOf(arrivals[0]);
      if step.next.Halt? then SessionResult(step.events, step.next.stop, step.cancelled)
      else if step.cancelled then SessionResult(step.events, LoopEnded, true)
      else
        var rest := SessionOf(arrivals[1..]);
        SessionResult(step.events + rest.log, rest.stop, rest.cancelled)
  }

  /** `SessionOf` from the `n`-th arrival on, one arrival unfolded. */
  lemma SessionStep(arrivals: seq<Arrival>, n: nat)
    requires n < |arrivals|
    ensures var step := StepOf(arrivals[n]);
      var rest := SessionOf(arrivals[n + 1..]);
      SessionOf(arrivals[n..])
        == if step.next.Halt? then SessionResult(step.events, step.next.stop, step.cancelled)
           else if step.cancelled then SessionResult(step.events, LoopEnded, true)
           else SessionResult(step.events + rest.log, rest.stop, rest.cancelled)
  {
    assert arrivals[n..][0] == arrivals[n];
    assert arrivals[n..][1..] == arrivals[n + 1..];
  }

  /** How the result of the whole run relates to what has been done after `n` arrivals
      when the `n`-th one lets the loop go on. */
  lemma SessionProceeds(arrivals: seq<Arrival>, n: nat, before: seq<Event>, after: seq<Event>)
    requires n < |arrivals| && StepOf(arrivals[n]).next == Proceed
    requires after == before + StepOf(arrivals[n]).events
    ensures var here := SessionOf(arrivals[n..]);
      var rest := SessionOf(arrivals[n + 1..]);
      (!StepOf(arrivals[n]).cancelled ==>
         before + here.log == after + rest.log && here.stop == rest.stop && here.cancelled == rest.cancelled)
      && (StepOf(arrivals[n]).cancelled ==> before + here.log == after && here.stop == LoopEnded && here.cancelled)
  {
    SessionStep(arrivals, n);
  }

  /** One request at a time: every request is written to the port right after it is
      received; every reply goes to the sender of the request just written, carries a
      non-empty frame of at most the buffer size, and is sent before the next request
      is received; a mismatch report follows the reply it is about and gives its length. */
  ghost predicate WellOrdered(log: seq<Event>)
  {
    (log != [] ==> log[0].Received?)
    && (forall k :: 0 <= k < |log| && log[k].Received? ==>
          k + 1 < |log| && log[k + 1] == SerialWritten(log[k].req.payload))
    && (forall k :: 0 < k < |log| && log[k].Received? ==>
          log[k - 1].Sent? || log[k - 1].MismatchReported?)
    && (forall k :: 0 <= k < |log| && log[k].Sent? ==>
          2 <= k && log[k - 2].Received? && log[k - 1].SerialWritten?
          && log[k].datagram.to == log[k - 2].req.sender
          && 0 < |log[k].datagram.payload| <= BufferSize)
    && (forall k :: 0 <= k < |log| && log[k].MismatchReported? ==>
          1 <= k && log[k - 1].Sent?
          && log[k].expected == |log[k - 1].datagram.payload| && log[k].actual != log[k].expected)
  }

  /** The last event closes a cycle that sent its reply. */
  predicate EndsWithReply(log: seq<Event>)
  {
    log != [] && (log[|log| - 1].Sent? || log[|log| - 1].MismatchReported?)
  }

  lemma CycleWellOrdered(req: Request, o: ReadOutcome, bytesSent: int, polls: seq<Chunk>, cancelAt: nat)
    requires o == ReadFrameSpec(polls, cancelAt)
    ensures WellOrdered(CycleEvents(req, o, bytesSent))
    ensures o.status == Completed ==> EndsWithReply(CycleEvents(req, o, bytesSent))
  {
    OutcomeFactsHold(polls, cancelAt);
    var events := CycleEvents(req, o, bytesSent);
    if o.status == Completed {
      assert events[2] == Sent(Datagram(o.frame, req.sender));
    }
  }

  lemma WellOrderedConcat(a: seq<Event>, b: seq<Event>)
    requires WellOrdered(a) && WellOrdered(b) && a != [] && (b != [] ==> EndsWithReply(a))
    ensures WellOrdered(a + b)
  {
    var log := a + b;
    forall k | 0 <= k < |log| && log[k].Received?
      ensures k + 1 < |log| && log[k + 1] == SerialWritten(log[k].req.payload)
    {
      if k < |a| { assert a[k].Received?; } else { assert b[k - |a|].Received?; }
    }
    forall k | 0 < k < |log| && log[k].Received?
      ensures log[k - 1].Sent? || log[k - 1].MismatchReported?
    {
      if k < |a| { assert a[k].Received?; }
      else if k > |a| { assert b[k - |a|].Received?; }
      else { assert b[0].Received?; }
    }
    forall k | 0 <= k < |log| && log[k].Sent?
      ensures 2 <= k && log[k - 2].Received? && log[k - 1].SerialWritten?
              && log[k].datagram.to == log[k - 2].req.sender
              && 0 < |log[k].datagram.payload| <= BufferSize
    {
      if k < |a| { assert a[k].Sent?; } else { assert b[k - |a|].Sent?; }
    }
    forall k | 0 <= k < |log| && log[k].MismatchReported?
      ensures 1 <= k && log[k - 1].Sent?
              && log[k].expected == |log[k - 1].datagram.payload| && log[k].actual != log[k].expected
    {
      if k < |a| {
        assert a[k].MismatchReported?;
      } else {
        assert b[k - |a|].MismatchReported?;
        assert k - |a| >= 1;
      }
    }
  }

  /** Every run of the loop keeps requests and replies in step. */
  lemma {:induction false} SessionWellOrdered(arrivals: seq<Arrival>)
    ensures WellOrdered(SessionOf(arrivals).log)
  {
    if arrivals != [] && arrivals[0].Incoming? {
      var a := arrivals[0];
      var o := ReadFrameSpec(a.polls, a.cancelAt);
      CycleWellOrdered(a.req, o, a.bytesSent, a.polls, a.cancelAt);
      if o.status == Completed && a.cancelAt > o.polled {
        SessionWellOrdered(arrivals[1..]);
        WellOrderedConcat(CycleEvents(a.req, o, a.bytesSent), SessionOf(arrivals[1..]).log);
      }
    }
  }

  /** An arrival after which the loop goes on: a request whose read completed with no
      interrupt during its cycle. */
  predicate Served(a: Arrival)
  {
    a.Incoming? && StepOf(a).next == Proceed && !StepOf(a).cancelled
  }

  /** Why a run stops. The loop condition ends it only once cancellation was requested;
      a cancelled receive only with an interrupt; a read phase only when it did not
      complete. The given arrivals run out exactly when every one of them was served,
      and then no cancellation was requested. */
  lemma {:induction false} SessionStops(arrivals: seq<Arrival>)
    ensures var r := SessionOf(arrivals);
      (r.stop == LoopEnded ==> r.cancelled)
      && (r.stop == ReceiveCancelled ==> r.cancelled)
      && (r.stop.ReadStopped? ==> r.stop.outcome.status != Completed)
      && (r.stop == NoMoreArrivals <==> forall k :: 0 <= k < |arrivals| ==> Served(arrivals[k]))
      && (r.stop == NoMoreArrivals ==> !r.cancelled)
  {
    if arrivals != [] {
      var step := StepOf(arrivals[0]);
      if !step.next.Halt? && !step.cancelled {
        SessionStops(arrivals[1..]);
        assert forall k :: 1 <= k < |arrivals| ==> arrivals[1..][k - 1] == arrivals[k];
        assert Served(arrivals[0]);
      } else {
        assert !Served(arrivals[0]);
      }
    }
  }

  /** The requests offered before the first interrupt of a wait, in order. */
  function Offered(arrivals: seq<Arrival>): seq<Request>
  {
    if arrivals == [] || arrivals[0].InterruptWhileWaiting? then []
    else [arrivals[0].req] + Offered(arrivals[1..])
  }

  /** The requests the loop received, in order. */
  function ReceivedRequests(log: seq<Event>): seq<Request>
  {
    if log == [] then []
    else (if log[0].Received? then [log[0].req] else []) + ReceivedRequests(log[1..])
  }

  lemma {:induction false} ReceivedRequestsConcat(a: seq<Event>, b: seq<Event>)
    ensures ReceivedRequests(a + b) == ReceivedRequests(a) + ReceivedRequests(b)
  {
    if a == [] {
      assert a + b == b;
    } else {
      assert (a + b)[0] == a[0];
      assert (a + b)[1..] == a[1..] + b;
      ReceivedRequestsConcat(a[1..], b);
    }
  }

  lemma {:induction false} NoneReceived(log: seq<Event>)
    requires forall k :: 0 <= k < |log| ==> !log[k].Received?
    ensures ReceivedRequests(log) == []
  {
    if log != [] {
      NoneReceived(log[1..]);
    }
  }

  /** Handling a request receives that request and no other. */
  lemma StepReceivesOnce(a: Arrival)
    requires a.Incoming?
    ensures ReceivedRequests(StepOf(a).events) == [a.req]
  {
    var events := StepOf(a).events;
    var tail := events[1..];
    assert events == [Received(a.req)] + tail;
    NoneReceived(tail);
    ReceivedRequestsConcat([Received(a.req)], tail);
  }

  /** Requests are received strictly in arrival order, none skipped and none twice. */
  lemma {:induction false} ServedInArrivalOrder(arrivals: seq<Arrival>)
    ensures ReceivedRequests(SessionOf(arrivals).log) <= Offered(arrivals)
  {
    if arrivals != [] && arrivals[0].Incoming? {
      var step := StepOf(arrivals[0]);
      StepReceivesOnce(arrivals[0]);
      if !step.next.Halt? && !step.cancelled {
        ServedInArrivalOrder(arrivals[1..]);
        ReceivedRequestsConcat(step.events, SessionOf(arrivals[1..]).log);
      }
    }
  }

  /** A cycle that completed its read sends exactly the accumulated frame to the sender
      of its request, and reports a mismatch exactly when the count the send returned
      differs from the frame length; nothing is sent again either way. */
  lemma CycleReply(req: Request, polls: seq<Chunk>, cancelAt: nat, bytesSent: int)
    ensures var o := ReadFrameSpec(polls, cancelAt);
      var events := CycleEvents(req, o, bytesSent);
      (o.status == Completed <==> Sent(Datagram(o.frame, req.sender)) in events)
      && (o.status == Completed ==>
            |events| == (if bytesSent == |o.frame| then 3 else 4)
            && (|events| == 4 <==> bytesSent != |o.frame|))
      && (forall e :: e in events && e.Sent? ==> e.datagram == Datagram(o.frame, req.sender))
  {
  }
}
