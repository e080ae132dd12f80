/**
 The stream thread and the recorder thread sharing a recorder (src/video/recorder.cpp). Each
 mutex-held section is one step; a step also separates what is done outside the lock.
 */
module RecorderThread {
  import opened Common
  import opened Packets
  import opened Recording

  /** Where the recorder thread is. */
  datatype Pc =
    | Top                      // about to lock the mutex
    | Waiting(signalled: bool) // in cond_wait
    | Holding(rec: Packet)     // has taken `rec` and released the mutex
    | Failing                  // a write failed, about to lock the mutex
    | Finishing                // stopped with an empty queue, mutex released
    | Done

  datatype State = State(
    f: Fields,
    pc: Pc,
    // A refused push returns without unlocking: the stream thread owns the (recursive) mutex from then on.
    leaked: bool,
    // History: what was pushed, what has gone through Advance, whether the muxer ever failed.
    accepted: seq<Packet>,
    refused: seq<Packet>,
    received: seq<Packet>,
    ioError: bool)

  datatype Action =
    | Push(packet: Packet, memory: bool) // `memory`: whether a record of it can be allocated
    | Stop
    | Acquire
    | SpuriousWakeup
    | Advance(io: bool)
    | Fail
    | Finish(io: bool)

  const START := State(INITIAL, Top, false, [], [], [], false)

  predicate Enabled(s: State, a: Action) {
    match a
    case Push(_, _) => !s.f.stopped
    case Stop => true
    case Acquire => !s.leaked && (s.pc.Top? || s.pc == Waiting(true))
    case SpuriousWakeup => s.pc.Waiting?
    case Advance(_) => s.pc.Holding?
    case Fail => !s.leaked && s.pc.Failing?
    case Finish(_) => s.pc.Finishing?
  }

  function Signal(pc: Pc): Pc {
    if pc.Waiting? then Waiting(true) else pc
  }

  function Step(s: State, a: Action): State
    requires Enabled(s, a)
  {
    match a
    case Push(packet, memory) =>
      var (f, ok) := Pushed(s.f, packet, memory);
      if ok then s.(f := f, accepted := s.accepted + [packet], pc := Signal(s.pc))
      else s.(leaked := true, refused := s.refused + [packet])
    case Stop =>
      s.(f := s.f.(stopped := true), pc := Signal(s.pc))
    case Acquire =>
      if s.f.queue == [] then s.(pc := if s.f.stopped then Finishing else Waiting(false))
      else
        var rec := s.f.queue[0];
        s.(f := s.f.(queue := s.f.queue[1..]), pc := Holding(rec))
    case SpuriousWakeup =>
      s.(pc := Waiting(true))
    case Advance(io) =>
      var (f, ok) := Advanced(s.f, s.pc.rec, io);
      var t := s.(f := f, ioError := s.ioError || !io);
      if ok then t.(pc := Top, received := s.received + [s.pc.rec]) else t.(pc := Failing)
    case Fail =>
      s.(f := Failed(s.f), pc := Done)
    case Finish(io) =>
      s.(f := Finished(s.f, io), pc := Done, ioError := s.ioError || !io)
  }

  predicate IsRun(s: State, actions: seq<Action>)
    decreases |actions|
  {
    actions == [] || (Enabled(s, actions[0]) && IsRun(Step(s, actions[0]), actions[1..]))
  }

  function Exec(s: State, actions: seq<Action>): State
    requires IsRun(s, actions)
    decreases |actions|
  {
    if actions == [] then s else Exec(Step(s, actions[0]), actions[1..])
  }

  // ---------- The invariant ----------

  /** Accepted packets the thread has yet to receive. */
  function Pending(s: State): seq<Packet> {
    (if s.pc.Holding? then [s.pc.rec] else []) + s.f.queue
  }

  /** A write failed when one more packet was received. */
  ghost predicate WriteFailed(s: State) {
    && s.received != [] && s.received < s.accepted
    && s.f.log == LogSoFar(s.received)
    && (!s.ioError ==> !s.received[0].IsConfig())
  }

  ghost predicate WrittenOut(s: State) {
    && s.f.stopped && s.f.queue == []
    && (s.f.log == FinalLog(s.received) || (s.ioError && s.f.log == LogSoFar(s.received)))
    && (|s.received| >= 2 ==> s.received[0].IsConfig())
  }

  ghost predicate ThreadInv(s: State) {
    match s.pc
    case Top => InProgress(s.f, s.received)
    case Waiting(signalled) =>
      InProgress(s.f, s.received) && (!signalled ==> s.f.queue == [] && !s.f.stopped)
    case Holding(_) => InProgress(s.f, s.received)
    case Failing => WriteFailed(s)
    case Finishing => s.f.stopped && s.f.queue == [] && InProgress(s.f, s.received)
    case Done => if s.f.failed then WriteFailed(s) else WrittenOut(s)
  }

  /** A push was refused for lack of memory, and has kept the mutex from a recorder thread still alive. */
  predicate KeepsMutex(s: State) {
    s.leaked && !s.f.failed
  }

  ghost predicate Inv(s: State) {
    && ThreadInv(s)
    && (!s.f.failed && !s.pc.Failing? ==> s.accepted == s.received + Pending(s))
    && (s.f.failed ==> s.f.queue == [] && s.pc.Done?)
    && (!s.leaked ==> s.refused == [])
    && (KeepsMutex(s) ==> !s.pc.Done? && !s.pc.Finishing?)
  }

  lemma PushKeepsInv(s: State, packet: Packet, memory: bool)
    requires Inv(s) && Enabled(s, Push(packet, memory))
    ensures Inv(Step(s, Push(packet, memory)))
  {
    var t := Step(s, Push(packet, memory));
    if memory && !s.f.failed && !s.pc.Failing? {
      assert Pending(t) == Pending(s) + [packet];
      Reassociate(s.received, Pending(s), [packet]);
    }
  }

  lemma AdvanceKeepsRest(f: Fields, rec: Packet, io: bool)
    ensures var g := Advanced(f, rec, io).0; g.queue == f.queue && g.stopped == f.stopped && g.failed == f.failed
  {
  }

  lemma SucceedingKeepsInv(s: State, io: bool)
    requires Inv(s) && Enabled(s, Advance(io)) && Advanced(s.f, s.pc.rec, io).1
    ensures Inv(Step(s, Advance(io)))
  {
    AdvanceKeepsRest(s.f, s.pc.rec, io);
    AdvanceKeepsProgress(s.f, s.received, s.pc.rec, io);
    Reassociate(s.received, [s.pc.rec], s.f.queue);
    var t := Step(s, Advance(io));
    assert ThreadInv(t) && Pending(t) == [] + s.f.queue == s.f.queue;
  }

  lemma FailingKeepsInv(s: State, io: bool)
    requires Inv(s) && Enabled(s, Advance(io)) && !Advanced(s.f, s.pc.rec, io).1
    ensures Inv(Step(s, Advance(io)))
  {
    AdvanceKeepsRest(s.f, s.pc.rec, io);
    AdvanceKeepsProgress(s.f, s.received, s.pc.rec, io);
    assert s.accepted == s.received + ([s.pc.rec] + s.f.queue);
    assert WriteFailed(Step(s, Advance(io)));
  }

  lemma StepKeepsInv(s: State, a: Action)
    requires Inv(s) && Enabled(s, a)
    ensures Inv(Step(s, a))
  {
    match a
    case Push(packet, memory) => PushKeepsInv(s, packet, memory);
    case Advance(io) => if Advanced(s.f, s.pc.rec, io).1 { SucceedingKeepsInv(s, io); } else { FailingKeepsInv(s, io); }
    case Finish(io) => FinishCompletes(s.f, s.received, io);
    case Acquire => assert Pending(Step(s, a)) == Pending(s);
    case Stop =>
    case SpuriousWakeup =>
    case Fail =>
  }

  lemma {:induction false} RunKeepsInv(s: State, actions: seq<Action>)
    requires Inv(s) && IsRun(s, actions)
    ensures Inv(Exec(s, actions))
    decreases |actions|
  {
    if actions == [] {
    } else {
      StepKeepsInv(s, actions[0]);
      RunKeepsInv(Step(s, actions[0]), actions[1..]);
    }
  }

  // ---------- What holds of every run ----------

  /**
   A recording without muxer errors: in every interleaving the file is a function of the packets
   accepted. The recording fails exactly when two packets were accepted and the first was not a
   config packet; otherwise no push was refused and every packet is received.
   */
  lemma RecordingIsFaithful(actions: seq<Action>)
    requires IsRun(START, actions)
    ensures var s := Exec(START, actions);
            s.pc.Done? && !s.ioError ==>
              && s.f.log == FinalLog(s.accepted)
              && (s.f.failed <==> |s.accepted| >= 2 && !s.accepted[0].IsConfig())
              && (!s.f.failed ==> s.refused == [] && s.received == s.accepted)
  {
    RunKeepsInv(START, actions);
    var s := Exec(START, actions);
    assert s.received + [] == s.received;
  }

  /** At any moment of any run, muxer errors or not, the file is a prefix of the faithful one. */
  lemma LogIsAlwaysAPrefix(actions: seq<Action>)
    requires IsRun(START, actions)
    ensures var s := Exec(START, actions); s.f.log <= FinalLog(s.accepted)
  {
    RunKeepsInv(START, actions);
    var s := Exec(START, actions);
    var rest := s.accepted[|s.received|..];
    assert s.accepted == s.received + rest;
    LogSoFarPrefix(s.received, rest);
    assert s.received + [] == s.received;
  }

  /** The packets pushed by a list of actions. */
  function PushedBy(actions: seq<Action>): seq<Packet> {
    if actions == [] then []
    else if actions[0].Push? then [actions[0].packet] + PushedBy(actions[1..])
    else PushedBy(actions[1..])
  }

  ghost predicate HasFailed(s: State) {
    s.f.failed && s.pc.Done? && s.f.queue == []
  }

  lemma FailedStep(s: State, a: Action)
    requires HasFailed(s) && Enabled(s, a)
    ensures var t := Step(s, a);
            && HasFailed(t) && t.f.log == s.f.log && t.accepted == s.accepted
            && t.refused == if a.Push? then s.refused + [a.packet] else s.refused
  {
  }

  /** A failed recording stays as it is, and refuses every push. */
  lemma {:induction false} FailureLasts(s: State, later: seq<Action>)
    requires HasFailed(s) && IsRun(s, later)
    ensures var t := Exec(s, later);
            && HasFailed(t) && t.f.log == s.f.log && t.accepted == s.accepted
            && t.refused == s.refused + PushedBy(later)
    decreases |later|
  {
    if later == [] {
    } else {
      FailedStep(s, later[0]);
      FailureLasts(Step(s, later[0]), later[1..]);
      if later[0].Push? {
        Reassociate(s.refused, [later[0].packet], PushedBy(later[1..]));
      }
    }
  }

  /**
   Once a run has failed, in all that follows the queue stays empty, the file stays as it is and every
   packet pushed is refused. The mutex such a push keeps is never wanted again by the recorder thread,
   which has ended.
   */
  lemma FailureIsFinal(actions: seq<Action>, later: seq<Action>)
    requires IsRun(START, actions)
    requires IsRun(Exec(START, actions), later)
    ensures var s := Exec(START, actions);
            var t := Exec(s, later);
            s.f.failed ==>
              && HasFailed(t) && t.f.log == s.f.log
              && t.accepted == s.accepted && t.refused == s.refused + PushedBy(later)
  {
    RunKeepsInv(START, actions);
    if Exec(START, actions).f.failed {
      FailureLasts(Exec(START, actions), later);
    }
  }

  predicate RanOutOfMemory(actions: seq<Action>) {
    actions != [] && ((actions[0].Push? && !actions[0].memory) || RanOutOfMemory(actions[1..]))
  }

  lemma {:induction false} MutexKeptFrom(s: State, actions: seq<Action>)
    requires Inv(s) && IsRun(s, actions)
    ensures var t := Exec(s, actions);
            !t.f.failed ==> (t.leaked <==> s.leaked || RanOutOfMemory(actions))
    decreases |actions|
  {
    if actions == [] {
    } else {
      var next := Step(s, actions[0]);
      StepKeepsInv(s, actions[0]);
      if next.f.failed {
        FailureLasts(next, actions[1..]);
      } else if s.f.failed {
        FailureLasts(s, actions);
      } else {
        MutexKeptFrom(next, actions[1..]);
      }
    }
  }

  /** In a run that has not failed, the mutex is kept exactly when some push found no memory. */
  lemma MutexKeptIffOutOfMemory(actions: seq<Action>)
    requires IsRun(START, actions)
    ensures var s := Exec(START, actions); !s.f.failed ==> (KeepsMutex(s) <==> RanOutOfMemory(actions))
  {
    MutexKeptFrom(START, actions);
  }

  /** Then the recorder thread never ends, whatever happens: joining it never returns. */
  lemma {:induction false} KeptMutexIsForever(s: State, actions: seq<Action>)
    requires Inv(s) && KeepsMutex(s) && IsRun(s, actions)
    ensures var t := Exec(s, actions); KeepsMutex(t) && !t.pc.Done?
    decreases |actions|
  {
    if actions == [] {
    } else {
      StepKeepsInv(s, actions[0]);
      KeptMutexIsForever(Step(s, actions[0]), actions[1..]);
    }
  }

  lemma Prepend(s: State, a: Action, rest: seq<Action>) returns (actions: seq<Action>)
    requires Enabled(s, a) && IsRun(Step(s, a), rest)
    ensures actions == [a] + rest && IsRun(s, actions) && Exec(s, actions) == Exec(Step(s, a), rest)
  {
    actions := [a] + rest;
    assert actions[1..] == rest;
  }

  /**
   Packets are written as they come: from any state a run can reach, unless stopped, failed or kept from the
   mutex, the thread alone receives everything that was accepted, in two steps a packet, one for the packet
   in its hands, and writes all but the last.
   */
  lemma {:induction false} EverythingIsReceived(s: State) returns (own: seq<Action>)
    requires Inv(s) && !s.f.stopped && !s.f.failed && !s.leaked && !s.pc.Failing?
    requires s.accepted != [] ==> s.accepted[0].IsConfig()
    ensures IsRun(s, own) && |own| == 2 * |s.f.queue| + (if s.pc.Holding? then 1 else 0)
    ensures forall a | a in own :: a.Acquire? || a == Advance(true)
    ensures var t := Exec(s, own);
            && t.received == s.accepted == t.accepted && t.f.queue == [] && t.f.log == LogSoFar(s.accepted)
            && (t.pc.Top? || t.pc.Waiting?) && !t.f.stopped && !t.f.failed && !t.leaked && t.ioError == s.ioError
    decreases 2 * |s.f.queue| + (if s.pc.Holding? then 1 else 0)
  {
    if s.pc.Holding? {
      AdvanceKeepsProgress(s.f, s.received, s.pc.rec, true);
      AdvanceKeepsRest(s.f, s.pc.rec, true);
      assert s.received != [] ==> s.received[0] == s.accepted[0];
      StepKeepsInv(s, Advance(true));
      own := EverythingIsReceived(Step(s, Advance(true)));
      own := Prepend(s, Advance(true), own);
    } else if s.f.queue == [] {
      own := [];
      assert s.received + [] == s.received;
    } else {
      StepKeepsInv(s, Acquire);
      own := EverythingIsReceived(Step(s, Acquire));
      own := Prepend(s, Acquire, own);
    }
  }

  lemma {:induction false} Concatenate(s: State, a: seq<Action>, b: seq<Action>)
    requires IsRun(s, a) && IsRun(Exec(s, a), b)
    ensures IsRun(s, a + b) && Exec(s, a + b) == Exec(Exec(s, a), b)
    decreases |a|
  {
    if a == [] {
      assert a + b == b;
    } else {
      assert (a + b)[1..] == a[1..] + b;
      Concatenate(Step(s, a[0]), a[1..], b);
    }
  }

  lemma {:induction false} PushAll(s: State, packets: seq<Packet>) returns (pushes: seq<Action>)
    requires Inv(s) && s.pc.Top? && !s.f.failed && !s.leaked && !s.f.stopped
    ensures IsRun(s, pushes)
    ensures var t := Exec(s, pushes);
            && Inv(t) && t.pc.Top? && !t.f.failed && !t.leaked && !t.f.stopped && t.ioError == s.ioError
            && t.accepted == s.accepted + packets
    decreases |packets|
  {
    if packets == [] {
      pushes := [];
      assert s.accepted + [] == s.accepted;
    } else {
      var a := Push(packets[0], true);
      StepKeepsInv(s, a);
      pushes := PushAll(Step(s, a), packets[1..]);
      pushes := Prepend(s, a, pushes);
      MoveHead(s.accepted, packets);
    }
  }

  /** Any packets that start with a config packet can be recorded: pushed, received, and written out after a stop. */
  lemma AnyPacketsCanBeRecorded(packets: seq<Packet>) returns (actions: seq<Action>)
    requires packets != [] && packets[0].IsConfig()
    ensures IsRun(START, actions)
    ensures var t := Exec(START, actions);
            t.pc.Done? && !t.f.failed && !t.ioError && t.accepted == packets && t.f.log == FinalLog(packets)
  {
    var pushes := PushAll(START, packets);
    assert [] + packets == packets;
    var pushed := Exec(START, pushes);
    var own := EverythingIsReceived(pushed);
    Concatenate(START, pushes, own);
    var received := Exec(START, pushes + own);
    RunKeepsInv(START, pushes + own);
    var stopped := Step(received, Stop);
    StepKeepsInv(received, Stop);
    var last := Step(stopped, Acquire);
    StepKeepsInv(stopped, Acquire);
    var end := Prepend(last, Action.Finish(true), []);
    end := Prepend(stopped, Acquire, end);
    end := Prepend(received, Stop, end);
    Concatenate(START, pushes + own, end);
    actions := pushes + own + end;
    RecordingIsFaithful(actions);
  }

  predicate MuxerRefused(actions: seq<Action>) {
    actions != [] && (((actions[0].Advance? || actions[0].Finish?) && !actions[0].io) || MuxerRefused(actions[1..]))
  }

  /** A stop is heard, nothing else stops the recording, and only the muxer's refusals count as its errors. */
  lemma {:induction false} StoppedIffToldTo(s: State, actions: seq<Action>)
    requires IsRun(s, actions)
    ensures var t := Exec(s, actions);
            && (t.f.stopped <==> s.f.stopped || Stop in actions)
            && (t.ioError <==> s.ioError || MuxerRefused(actions))
    decreases |actions|
  {
    if actions == [] {
    } else {
      assert Stop in actions <==> actions[0] == Stop || Stop in actions[1..];
      StoppedIffToldTo(Step(s, actions[0]), actions[1..]);
    }
  }

  lemma {:induction false} AcceptedFrom(s: State, actions: seq<Action>)
    requires Inv(s) && IsRun(s, actions) && !RanOutOfMemory(actions)
    ensures var t := Exec(s, actions); !t.f.failed ==> t.accepted == s.accepted + PushedBy(actions)
    decreases |actions|
  {
    if actions == [] {
    } else {
      var next := Step(s, actions[0]);
      StepKeepsInv(s, actions[0]);
      if next.f.failed {
        FailureLasts(next, actions[1..]);
      } else if s.f.failed {
        FailureLasts(s, actions);
      } else {
        AcceptedFrom(next, actions[1..]);
        if actions[0].Push? {
          Reassociate(s.accepted, [actions[0].packet], PushedBy(actions[1..]));
        }
      }
    }
  }

  /** In a run that has not failed and always finds memory, every packet pushed is accepted, in order. */
  lemma EveryPushIsAccepted(actions: seq<Action>)
    requires IsRun(START, actions) && !RanOutOfMemory(actions)
    ensures var s := Exec(START, actions); !s.f.failed ==> s.accepted == PushedBy(actions)
  {
    AcceptedFrom(START, actions);
    assert [] + PushedBy(actions) == PushedBy(actions);
  }

  /** No lost wakeup: a thread left asleep has received everything and has not been asked to stop. */
  lemma AsleepMeansIdle(actions: seq<Action>)
    requires IsRun(START, actions)
    ensures var s := Exec(START, actions);
            s.pc == Waiting(false) ==> s.f.queue == [] && !s.f.stopped && s.received == s.accepted
  {
    RunKeepsInv(START, actions);
  }

  /** An upper bound on what the recorder thread still does once stopped. */
  function Remaining(s: State): nat {
    3 * |s.f.queue|
    + match s.pc
      case Top => 2
      case Waiting(_) => 2
      case Holding(_) => 4
      case Failing => 1
      case Finishing => 1
      case Done => 0
  }

  /** The recorder thread's next step, with muxer outcome `io`. */
  function OwnStep(s: State, io: bool): Action
    requires !s.pc.Done?
  {
    match s.pc
    case Top => Acquire
    case Waiting(_) => Acquire
    case Holding(_) => Advance(io)
    case Failing => Fail
    case Finishing => Action.Finish(io)
  }

  /**
   Once stopped the thread is blocked only where it wants a mutex that a push has kept, and each of its
   steps brings its end nearer.
   */
  lemma StoppedThreadAdvances(s: State, io: bool)
    requires Inv(s) && s.f.stopped && !s.pc.Done?
    ensures Enabled(s, OwnStep(s, io)) <==> !KeepsMutex(s) || s.pc.Holding?
  {
  }

  predicate IsOwn(a: Action) {
    a.Acquire? || a.Advance? || a.Fail? || a.Finish?
  }

  lemma OwnStepsAdvance(s: State, a: Action)
    requires Inv(s) && s.f.stopped && Enabled(s, a) && IsOwn(a)
    ensures Remaining(Step(s, a)) < Remaining(s)
  {
  }

  /** A stop is final, and no step of the other thread moves the end away, nor keeps the mutex. */
  lemma OthersDoNotDelay(s: State, a: Action)
    requires Inv(s) && s.f.stopped && Enabled(s, a)
    ensures Remaining(Step(s, a)) <= Remaining(s)
    ensures Step(s, a).f.stopped && (KeepsMutex(Step(s, a)) ==> KeepsMutex(s))
  {
  }

  function OwnSteps(actions: seq<Action>): nat {
    if actions == [] then 0 else (if IsOwn(actions[0]) then 1 else 0) + OwnSteps(actions[1..])
  }

  /**
   Join returns, whatever the schedule and the muxer's answers: stopped in any state a run can reach, the
   thread has only so many steps left, and as long as it has not ended and no push has kept the mutex its
   next one is enabled.
   */
  lemma {:induction false} StopEndsTheThread(s: State, actions: seq<Action>, io: bool)
    requires Inv(s) && s.f.stopped && IsRun(s, actions)
    ensures var t := Exec(s, actions);
            && OwnSteps(actions) + Remaining(t) <= Remaining(s)
            && (Remaining(t) == 0 <==> t.pc.Done?)
            && (!KeepsMutex(s) ==> t.pc.Done? || Enabled(t, OwnStep(t, io)))
    decreases |actions|
  {
    if actions == [] {
      if !s.pc.Done? {
        StoppedThreadAdvances(s, io);
      }
    } else {
      StepKeepsInv(s, actions[0]);
      OthersDoNotDelay(s, actions[0]);
      if IsOwn(actions[0]) {
        OwnStepsAdvance(s, actions[0]);
      }
      StopEndsTheThread(Step(s, actions[0]), actions[1..], io);
    }
  }

  lemma OwnStepsKeepLock(s: State, a: Action)
    requires Inv(s) && Enabled(s, a) && IsOwn(a)
    ensures KeepsMutex(Step(s, a)) <==> KeepsMutex(s)
  {
  }

  /** The recorder thread running alone for up to `n` steps; it stops early if blocked or done. */
  function Alone(s: State, io: nat -> bool, n: nat): State
    decreases n
  {
    if n == 0 || s.pc.Done? || !Enabled(s, OwnStep(s, io(n))) then s
    else Alone(Step(s, OwnStep(s, io(n))), io, n - 1)
  }

  /** Exactly when no push has kept the mutex from it, the stopped thread running alone ends. */
  lemma {:induction false} AloneEndsIffMutexFree(s: State, io: nat -> bool, n: nat)
    requires Inv(s) && s.f.stopped && Remaining(s) <= n
    ensures Alone(s, io, n).pc.Done? <==> !KeepsMutex(s)
    decreases n
  {
    if s.pc.Done? {
    } else {
      var a := OwnStep(s, io(n));
      StoppedThreadAdvances(s, io(n));
      StopEndsTheThread(s, [], io(n));
      if Enabled(s, a) {
        StepKeepsInv(s, a);
        OthersDoNotDelay(s, a);
        OwnStepsAdvance(s, a);
        OwnStepsKeepLock(s, a);
        AloneEndsIffMutexFree(Step(s, a), io, n - 1);
      }
    }
  }
}
