/**
 The frame rate counter's thread and the thread that starts, stops and interrupts it
 (src/video/fps_counter.cpp). The `started` flag is atomic and is set and cleared outside the mutex, so
 reading it and going to sleep are two steps, which the mutex does not make one.
 */
module FpsCounterThread {

  datatype Pc =
    | Locking                  // about to lock the mutex
    | Deciding                 // holds the mutex and has read that the counter is not started
    | Waiting(signalled: bool) // in cond_wait
    | Timing                   // in cond_wait_timeout, which returns by itself
    | Ended

  /** Where the user interface thread is in a call. */
  datatype Caller =
    | Idle
    | Resetting     // Start has reset the counters and unlocked
    | StartDue      // Start has set the flag, and is about to signal
    | StopDue       // Stop has cleared the flag, and is about to lock, signal and unlock
    | InterruptDue  // Interrupt has set `interrupted` and unlocked, and is about to signal

  datatype State = State(started: bool, interrupted: bool, pc: Pc, caller: Caller)

  datatype Action =
    | Reset
    | SetStarted
    | SignalStarted
    | ClearStarted
    | SignalStopped
    | SetInterrupted
    | SignalInterrupted
    | Acquire
    | Wait
    | TimeOut
    | SpuriousWakeup

  // Start has just created the thread.
  const CREATED := State(true, false, Locking, Idle)

  predicate MutexFree(s: State) {
    !s.pc.Deciding?
  }

  /** The counter is started only while stopped, and stopped only while started. */
  predicate Enabled(s: State, a: Action) {
    match a
    case Reset => MutexFree(s) && s.caller.Idle? && !s.started
    case SetStarted => s.caller.Resetting?
    case SignalStarted => s.caller.StartDue?
    case ClearStarted => s.caller.Idle? && s.started
    case SignalStopped => MutexFree(s) && s.caller.StopDue?
    case SetInterrupted => MutexFree(s) && s.caller.Idle?
    case SignalInterrupted => s.caller.InterruptDue?
    case Acquire => s.pc.Locking? || s.pc == Waiting(true)
    case Wait => s.pc.Deciding?
    case TimeOut => s.pc.Timing?
    case SpuriousWakeup => s.pc.Waiting?
  }

  function Signal(pc: Pc): Pc {
    match pc
    case Waiting(_) => Waiting(true)
    case Timing => Locking
    case _ => pc
  }

  function Step(s: State, a: Action): State
    requires Enabled(s, a)
  {
    match a
    case Reset => s.(caller := Resetting)
    case SetStarted => s.(started := true, caller := StartDue)
    case SignalStarted => s.(pc := Signal(s.pc), caller := Idle)
    case ClearStarted => s.(started := false, caller := StopDue)
    case SignalStopped => s.(pc := Signal(s.pc), caller := Idle)
    case SetInterrupted => s.(interrupted := true, caller := InterruptDue)
    case SignalInterrupted => s.(pc := Signal(s.pc), caller := Idle)
    case Acquire => s.(pc := if s.interrupted then Ended else if s.started then Timing else Deciding)
    case Wait => s.(pc := Waiting(false))
    case TimeOut => s.(pc := Locking)
    case SpuriousWakeup => s.(pc := Waiting(true))
  }

  predicate IsRun(s: State, actions: seq<Action>)
    decreases |actions|
  {
    actions == [] || (Enabled(s, actions[0]) && IsRun(Step(s, actions[0]), actions[1..]))
  }

  function Exec(s: State, actions: seq<Action>): State
    requires IsRun(s, actions)
    decreases |actions|
  {
    if actions == [] then s else Exec(Step(s, actions[0]), actions[1..])
  }

  /** The thread left to itself, woken by nobody, for up to `n` steps. */
  function Alone(s: State, n: nat): State
    decreases n
  {
    if n == 0 || s.pc.Ended? || s.pc == Waiting(false) then s
    else Alone(Step(s, match s.pc case Timing => TimeOut case Deciding => Wait case _ => Acquire), n - 1)
  }

  ghost predicate Inv(s: State) {
    && (s.pc.Deciding? ==> !s.interrupted)
    && (s.pc == Waiting(false) && s.interrupted ==> s.caller.InterruptDue?)
    && (s.pc.Ended? ==> s.interrupted)
    && (s.caller.StartDue? ==> s.started)
  }

  lemma {:induction false} RunKeepsInv(s: State, actions: seq<Action>)
    requires Inv(s) && IsRun(s, actions)
    ensures Inv(Exec(s, actions))
    decreases |actions|
  {
    if actions == [] {
    } else {
      RunKeepsInv(Step(s, actions[0]), actions[1..]);
    }
  }

  /** An interrupt is heard, and nothing else ends the thread. */
  lemma {:induction false} InterruptedIffToldTo(s: State, actions: seq<Action>)
    requires IsRun(s, actions)
    ensures Exec(s, actions).interrupted <==> s.interrupted || SetInterrupted in actions
    decreases |actions|
  {
    if actions == [] {
    } else {
      assert SetInterrupted in actions <==> actions[0] == SetInterrupted || SetInterrupted in actions[1..];
      InterruptedIffToldTo(Step(s, actions[0]), actions[1..]);
    }
  }

  /** Stopped and not interrupted, the thread leaves its timed loop by itself and goes to sleep. */
  lemma StoppedThreadSleeps(actions: seq<Action>)
    requires IsRun(CREATED, actions)
    ensures var s := Exec(CREATED, actions);
            !s.started && !s.interrupted ==> Alone(s, 3).pc == Waiting(false)
  {
    RunKeepsInv(CREATED, actions);
  }

  /** Interrupt is never lost: once it has returned, the thread ends by itself. */
  lemma InterruptEndsTheThread(actions: seq<Action>)
    requires IsRun(CREATED, actions)
    ensures var s := Exec(CREATED, actions);
            s.interrupted && !s.caller.InterruptDue? ==> Alone(s, 2).pc.Ended?
  {
    RunKeepsInv(CREATED, actions);
  }

  /**
   Start can be: its signal brings the thread back to its timed loop exactly when the thread is not
   between reading the flag and going to sleep. Otherwise it sleeps although the counter is started.
   */
  lemma StartWakesUnlessDeciding(actions: seq<Action>)
    requires IsRun(CREATED, actions)
    ensures var s := Exec(CREATED, actions);
            s.caller.StartDue? && !s.interrupted ==>
              var t := Alone(Step(s, SignalStarted), 1);
              && (t.pc.Timing? <==> !s.pc.Deciding?)
              && (s.pc.Deciding? ==> t == State(true, false, Waiting(false), Idle))
  {
    RunKeepsInv(CREATED, actions);
  }

  lemma Before(s: State, a: Action, rest: seq<Action>) returns (actions: seq<Action>)
    requires Enabled(s, a) && IsRun(Step(s, a), rest)
    ensures actions == [a] + rest && IsRun(s, actions) && Exec(s, actions) == Exec(Step(s, a), rest)
  {
    actions := [a] + rest;
    assert actions[1..] == rest;
  }

  /** Such a run: the counter is stopped, and started again while the thread goes to sleep. */
  lemma StartCanBeLost() returns (actions: seq<Action>)
    ensures IsRun(CREATED, actions)
    ensures Exec(CREATED, actions) == State(true, false, Waiting(false), Idle)
  {
    actions := Before(State(true, false, Deciding, Idle), Wait, []);
    actions := Before(State(true, false, Deciding, StartDue), SignalStarted, actions);
    actions := Before(State(false, false, Deciding, Resetting), SetStarted, actions);
    actions := Before(State(false, false, Locking, Resetting), Acquire, actions);
    actions := Before(State(false, false, Locking, Idle), Reset, actions);
    actions := Before(State(false, false, Locking, StopDue), SignalStopped, actions);
    actions := Before(CREATED, ClearStarted, actions);
  }

  /** The thread can be interrupted wherever the mutex is free, and ends. */
  lemma AnyThreadCanBeInterrupted(s: State) returns (actions: seq<Action>)
    requires Inv(s) && MutexFree(s) && s.caller.Idle?
    ensures actions == [SetInterrupted, SignalInterrupted] && IsRun(s, actions)
    ensures Alone(Exec(s, actions), 2).pc.Ended?
  {
    var heard := Step(s, SetInterrupted);
    actions := Before(heard, SignalInterrupted, []);
    actions := Before(s, SetInterrupted, actions);
  }
}
