/** The `Console.CancelKeyPress` handler as a state machine: the first interrupt
    requests cancellation and suppresses the default termination, a further one
    ends the process with exit code -1. */
module Interrupt {

  /** `Exited` is the state after `Environment.Exit`: nothing runs after it. */
  datatype HandlerState = Running | CancelRequested | Exited(code: int)

  /** The next state and the value the handler leaves in `args.Cancel`. */
  datatype Reaction = Reaction(next: HandlerState, suppressTermination: bool)

  const ForcedExitCode: int := -1

  /** One interrupt. Once requested, cancellation is never withdrawn. */
  function OnInterrupt(s: HandlerState): (r: Reaction)
    requires !s.Exited?
    ensures r.next != Running
  {
    if s == CancelRequested then Reaction(Exited(ForcedExitCode), false)
    else Reaction(CancelRequested, true)
  }

  /** The state after `n` interrupts; a process that has exited receives none. */
  function AfterInterrupts(s: HandlerState, n: nat): HandlerState
    decreases n
  {
    if n == 0 || s.Exited? then s else AfterInterrupts(OnInterrupt(s).next, n - 1)
  }

  /** How many of `n` interrupts had their default termination suppressed. */
  function Suppressed(s: HandlerState, n: nat): nat
    decreases n
  {
    if n == 0 || s.Exited? then 0
    else (if OnInterrupt(s).suppressTermination then 1 else 0) + Suppressed(OnInterrupt(s).next, n - 1)
  }

  lemma {:induction false} ExitedStays(code: int, n: nat)
    ensures AfterInterrupts(Exited(code), n) == Exited(code) && Suppressed(Exited(code), n) == 0
  {
  }

  /** From a running process: no interrupt leaves it running, one requests
      cancellation, and every further one finds the process exited with -1;
      exactly one interrupt (the first) has its default termination suppressed. */
  lemma {:induction false} InterruptSequence(n: nat)
    ensures AfterInterrupts(Running, n)
         == (if n == 0 then Running else if n == 1 then CancelRequested else Exited(ForcedExitCode))
    ensures Suppressed(Running, n) == (if n == 0 then 0 else 1)
  {
    if n >= 2 {
      calc {
        AfterInterrupts(Running, n);
        AfterInterrupts(CancelRequested, n - 1);
        AfterInterrupts(Exited(ForcedExitCode), n - 2);
        { ExitedStays(ForcedExitCode, n - 2); }
        Exited(ForcedExitCode);
      }
      calc {
        Suppressed(Running, n);
        1 + Suppressed(CancelRequested, n - 1);
        1 + Suppressed(Exited(ForcedExitCode), n - 2);
        { ExitedStays(ForcedExitCode, n - 2); }
        1;
      }
    } else if n == 1 {
      assert AfterInterrupts(Running, 1) == AfterInterrupts(CancelRequested, 0);
      assert Suppressed(Running, 1) == 1 + Suppressed(CancelRequested, 0);
    }
  }
}
