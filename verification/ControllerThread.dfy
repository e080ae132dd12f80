/**
 The threads that push control messages and the controller thread that sends them
 (src/core/controller.cpp, src/core/actor.cpp). Each mutex-held section is one step.
 */
module ControllerThread {
  import opened Common
  import opened ControlMessages
  import opened Controlling
  import opened RingBuffers

  datatype Pc =
    | Top
    | Waiting(signalled: bool)
    | Sending(msg: ControlMessage)
    | Ended

  datatype State = State(
    queue: seq<ControlMessage>,
    stopped: bool,
    pc: Pc,
    wire: seq<byte>,
    // History: pushes accepted, messages sent whole, and the message the thread gave up on, if any.
    accepted: seq<ControlMessage>,
    sent: seq<ControlMessage>,
    abandoned: seq<ControlMessage>)

  datatype Action =
    | Push(msg: ControlMessage)
    | Stop
    | Acquire
    | SpuriousWakeup
    | Send(ok: bool, count: nat) // `count` bytes are put on the wire; all of them if ok

  const START := State([], false, Top, [], [], [], [])

  predicate Enabled(s: State, a: Action) {
    match a
    case Push(msg) => Encodable(msg)
    case Stop => true
    case Acquire => s.pc.Top? || s.pc == Waiting(true)
    case SpuriousWakeup => s.pc.Waiting?
    case Send(ok, count) =>
      && s.pc.Sending? && Encodable(s.pc.msg) && count <= |Encode(s.pc.msg)|
      && (ok ==> !s.pc.msg.Unserializable? && count == |Encode(s.pc.msg)|)
  }

  function Signal(pc: Pc): Pc {
    if pc.Waiting? then Waiting(true) else pc
  }

  function Step(s: State, a: Action): State
    requires Enabled(s, a)
  {
    match a
    case Push(msg) =>
      var (queue, reply) := FifoStep(QUEUE_CAPACITY, s.queue, Op.Push(msg));
      s.(queue := queue,
         pc := if s.queue == [] then Signal(s.pc) else s.pc,
         accepted := s.accepted + if reply.ok then [msg] else [])
    case Stop =>
      s.(stopped := true, pc := Signal(s.pc))
    case Acquire =>
      if s.stopped then s.(pc := Ended)
      else if s.queue == [] then s.(pc := Waiting(false))
      else s.(queue := s.queue[1..], pc := Sending(s.queue[0]))
    case SpuriousWakeup =>
      s.(pc := Waiting(true))
    case Send(ok, count) =>
      var t := s.(wire := s.wire + Encode(s.pc.msg)[..count]);
      if ok then t.(pc := Top, sent := s.sent + [s.pc.msg])
      else t.(pc := Ended, abandoned := [s.pc.msg])
  }

  predicate IsRun(s: State, actions: seq<Action>)
    decreases |actions|
  {
    actions == [] || (Enabled(s, actions[0]) && IsRun(Step(s, actions[0]), actions[1..]))
  }

  function Exec(s: State, actions: seq<Action>): State
    requires IsRun(s, actions)
    decreases |actions|
  {
    if actions == [] then s else Exec(Step(s, actions[0]), actions[1..])
  }

  // ---------- The invariant ----------

  function InFlight(s: State): seq<ControlMessage> {
    s.abandoned + if s.pc.Sending? then [s.pc.msg] else []
  }

  /** What an abandoned message may have left on the wire. */
  ghost predicate Fragment(s: State, part: seq<byte>) {
    if s.abandoned == [] then part == []
    else Encodable(s.abandoned[0]) && part <= Encode(s.abandoned[0])
  }

  ghost predicate QueueInv(s: State) {
    && s.accepted == s.sent + InFlight(s) + s.queue
    && |s.queue| <= QUEUE_CAPACITY
    && (s.abandoned != [] ==> s.pc.Ended? && |s.abandoned| == 1)
    && (s.pc.Ended? ==> s.stopped || s.abandoned != [])
    && (s.pc == Waiting(false) ==> s.queue == [] && !s.stopped)
    && (forall m | m in s.accepted :: Encodable(m))
  }

  ghost predicate WireInv(s: State, part: seq<byte>) {
    && AllSerializable(s.sent)
    && Fragment(s, part)
    && s.wire == EncodeAll(s.sent) + part
  }

  lemma StepKeepsQueue(s: State, a: Action)
    requires QueueInv(s) && Enabled(s, a)
    ensures QueueInv(Step(s, a))
  {
    match a
    case Push(msg) => Reassociate(s.sent + InFlight(s), s.queue, [msg]);
    case Acquire => if s.queue != [] { MoveHead(s.sent + InFlight(s), s.queue); Reassociate(s.sent, InFlight(s), [s.queue[0]]); }
    case Send(ok, _) => assert InFlight(s) == [s.pc.msg];
    case Stop =>
    case SpuriousWakeup =>
  }

  lemma {:induction false} EncodeAllPush(ms: seq<ControlMessage>, m: ControlMessage)
    requires AllSerializable(ms + [m])
    ensures AllSerializable(ms) && EncodeAll(ms + [m]) == EncodeAll(ms) + Encode(m)
  {
    assert forall x | x in ms :: x in ms + [m];
    if ms == [] {
      assert [m][1..] == [];
    } else {
      assert ms + [m] == [ms[0]] + (ms[1..] + [m]);
      EncodeAllPush(ms[1..], m);
      Reassociate(Encode(ms[0]), EncodeAll(ms[1..]), Encode(m));
    }
  }

  lemma SentWhole(s: State, part: seq<byte>)
    requires QueueInv(s) && WireInv(s, part) && s.pc.Sending? && Encodable(s.pc.msg) && !s.pc.msg.Unserializable?
    ensures var t := Step(s, Send(true, |Encode(s.pc.msg)|)); WireInv(t, [])
  {
    EncodeAllPush(s.sent, s.pc.msg);
    var bytes := Encode(s.pc.msg);
    assert bytes[..|bytes|] == bytes && s.wire == EncodeAll(s.sent);
  }

  lemma SentInPart(s: State, part: seq<byte>, count: nat)
    requires QueueInv(s) && WireInv(s, part) && s.pc.Sending? && Encodable(s.pc.msg) && count <= |Encode(s.pc.msg)|
    ensures var t := Step(s, Send(false, count)); WireInv(t, Encode(s.pc.msg)[..count])
  {
    assert s.wire == EncodeAll(s.sent);
  }

  lemma StepKeepsWire(s: State, part: seq<byte>, a: Action) returns (after: seq<byte>)
    requires QueueInv(s) && WireInv(s, part) && Enabled(s, a)
    ensures WireInv(Step(s, a), after)
  {
    after := part;
    if a.Send? {
      if a.ok {
        SentWhole(s, part);
        after := [];
      } else {
        SentInPart(s, part, a.count);
        after := Encode(s.pc.msg)[..a.count];
      }
    }
  }

  lemma {:induction false} RunKeepsInv(s: State, part: seq<byte>, actions: seq<Action>) returns (after: seq<byte>)
    requires QueueInv(s) && WireInv(s, part) && IsRun(s, actions)
    ensures QueueInv(Exec(s, actions)) && WireInv(Exec(s, actions), after)
    decreases |actions|
  {
    after := part;
    if actions == [] {
    } else {
      StepKeepsQueue(s, actions[0]);
      after := StepKeepsWire(s, part, actions[0]);
      after := RunKeepsInv(Step(s, actions[0]), after, actions[1..]);
    }
  }

  // ---------- What holds of every run ----------

  /**
   Messages are sent in the order accepted, none lost or repeated: at any moment the accepted ones are
   those sent, then the one in flight or abandoned, then the ring, which never holds more than 64.
   */
  lemma MessagesAreConserved(actions: seq<Action>)
    requires IsRun(START, actions)
    ensures var s := Exec(START, actions);
            && s.accepted == s.sent + InFlight(s) + s.queue
            && |s.queue| <= QUEUE_CAPACITY && |InFlight(s)| <= 1
  {
    var part := RunKeepsInv(START, [], actions);
  }

  /**
   The wire carries the encodings of a prefix of the accepted messages, then at most a fragment of the
   next one; as long as no send failed, the device decodes exactly the messages sent.
   */
  lemma WireCarriesAPrefix(actions: seq<Action>) returns (part: seq<byte>)
    requires IsRun(START, actions)
    ensures var s := Exec(START, actions);
            && s.sent <= s.accepted && AllSerializable(s.sent)
            && s.wire == EncodeAll(s.sent) + part && Fragment(s, part)
            && (s.abandoned == [] ==> DecodeAll(s.wire) == Some(CanonicalAll(s.sent)))
  {
    part := RunKeepsInv(START, [], actions);
    var s := Exec(START, actions);
    StreamRoundTrip(s.sent);
    if s.abandoned == [] {
      assert s.wire == EncodeAll(s.sent);
    }
  }

  lemma InFlightIsEncodable(s: State)
    requires QueueInv(s) && s.pc.Sending?
    ensures Encodable(s.pc.msg)
  {
    assert s.pc.msg in InFlight(s);
  }

  /** A push is accepted exactly while the ring holds fewer than 64 messages. */
  lemma AcceptedIffRoom(s: State, msg: ControlMessage)
    requires QueueInv(s) && Enabled(s, Action.Push(msg))
    ensures var t := Step(s, Action.Push(msg));
            if |s.queue| < 64 then t.accepted == s.accepted + [msg] && t.queue == s.queue + [msg]
            else t.accepted == s.accepted && t.queue == s.queue
  {
  }

  lemma Prepend(s: State, a: Action, rest: seq<Action>) returns (actions: seq<Action>)
    requires Enabled(s, a) && IsRun(Step(s, a), rest)
    ensures actions == [a] + rest && IsRun(s, actions) && Exec(s, actions) == Exec(Step(s, a), rest)
  {
    actions := [a] + rest;
    assert actions[1..] == rest;
  }

  /**
   Messages do not stay in the ring: from any state a run can reach, unless stopped, the thread alone sends
   everything that was accepted, in two steps a message, one for the message in flight.
   */
  lemma {:induction false} EverythingIsSent(s: State) returns (own: seq<Action>)
    requires QueueInv(s) && !s.stopped && !s.pc.Ended? && AllSerializable(s.accepted)
    ensures IsRun(s, own) && |own| == 2 * |s.queue| + (if s.pc.Sending? then 1 else 0)
    ensures forall a | a in own :: a.Acquire? || (a.Send? && a.ok)
    ensures var t := Exec(s, own);
            t.sent == s.accepted == t.accepted && t.queue == [] && !t.pc.Ended? && t.abandoned == []
    decreases 2 * |s.queue| + (if s.pc.Sending? then 1 else 0)
  {
    if s.pc.Sending? {
      InFlightIsEncodable(s);
      var a := Send(true, |Encode(s.pc.msg)|);
      assert s.pc.msg in s.accepted by {
        assert s.pc.msg in InFlight(s);
      }
      StepKeepsQueue(s, a);
      own := EverythingIsSent(Step(s, a));
      own := Prepend(s, a, own);
    } else if s.queue == [] {
      own := [];
      assert InFlight(s) == [];
    } else {
      StepKeepsQueue(s, Acquire);
      own := EverythingIsSent(Step(s, Acquire));
      own := Prepend(s, Acquire, own);
    }
  }

  lemma {:induction false} Concatenate(s: State, a: seq<Action>, b: seq<Action>)
    requires IsRun(s, a) && IsRun(Exec(s, a), b)
    ensures IsRun(s, a + b) && Exec(s, a + b) == Exec(Exec(s, a), b)
    decreases |a|
  {
    if a == [] {
      assert a + b == b;
    } else {
      assert (a + b)[1..] == a[1..] + b;
      Concatenate(Step(s, a[0]), a[1..], b);
    }
  }

  lemma {:induction false} PushAll(s: State, ms: seq<ControlMessage>) returns (pushes: seq<Action>)
    requires QueueInv(s) && AllSerializable(ms) && |s.queue| + |ms| <= 64
    ensures IsRun(s, pushes)
    ensures var t := Exec(s, pushes);
            && QueueInv(t) && t.accepted == s.accepted + ms && t.stopped == s.stopped
            && (t.pc.Ended? <==> s.pc.Ended?) && t.wire == s.wire && t.sent == s.sent && t.abandoned == s.abandoned
    decreases |ms|
  {
    if ms == [] {
      pushes := [];
      assert s.accepted + [] == s.accepted;
    } else {
      var a := Action.Push(ms[0]);
      assert ms[0] in ms && forall m | m in ms[1..] :: m in ms;
      StepKeepsQueue(s, a);
      AcceptedIffRoom(s, ms[0]);
      pushes := PushAll(Step(s, a), ms[1..]);
      pushes := Prepend(s, a, pushes);
      MoveHead(s.accepted, ms);
    }
  }

  lemma WireOfSent(actions: seq<Action>, ms: seq<ControlMessage>)
    requires IsRun(START, actions) && Exec(START, actions).sent == ms && Exec(START, actions).abandoned == []
    ensures AllSerializable(ms) && Exec(START, actions).wire == EncodeAll(ms)
    ensures DecodeAll(Exec(START, actions).wire) == Some(CanonicalAll(ms))
  {
    var part := WireCarriesAPrefix(actions);
    assert part == [];
  }

  /** Up to 64 messages can be pushed before the thread runs, and then are all sent, in order. */
  lemma AnyMessagesCanBeSent(ms: seq<ControlMessage>) returns (actions: seq<Action>)
    requires AllSerializable(ms) && |ms| <= 64
    ensures IsRun(START, actions)
    ensures Exec(START, actions).wire == EncodeAll(ms) && DecodeAll(Exec(START, actions).wire) == Some(CanonicalAll(ms))
  {
    var pushes := PushAll(START, ms);
    var pushed := Exec(START, pushes);
    assert pushed.accepted == [] + ms == ms;
    var own := EverythingIsSent(pushed);
    Concatenate(START, pushes, own);
    actions := pushes + own;
    WireOfSent(actions, ms);
  }

  /** A stop is heard, and nothing else stops the thread's loop. */
  lemma {:induction false} StoppedIffToldTo(s: State, actions: seq<Action>)
    requires IsRun(s, actions)
    ensures Exec(s, actions).stopped <==> s.stopped || Stop in actions
    decreases |actions|
  {
    if actions == [] {
    } else {
      assert Stop in actions <==> actions[0] == Stop || Stop in actions[1..];
      StoppedIffToldTo(Step(s, actions[0]), actions[1..]);
    }
  }

  /** No lost wakeup, although a push signals only when the ring was empty. */
  lemma AsleepMeansIdle(actions: seq<Action>)
    requires IsRun(START, actions)
    ensures var s := Exec(START, actions);
            s.pc == Waiting(false) ==> s.queue == [] && !s.stopped && s.sent == s.accepted
  {
    var part := RunKeepsInv(START, [], actions);
    var s := Exec(START, actions);
    if s.pc == Waiting(false) {
      assert InFlight(s) == [];
    }
  }

  /** Stopping is immediate: whatever happens afterwards, only the message being sent can still be sent. */
  lemma {:induction false} StopIsImmediate(s: State, actions: seq<Action>)
    requires s.stopped && IsRun(s, actions)
    ensures var t := Exec(s, actions);
            && t.stopped && (s.pc.Ended? ==> t.pc.Ended?) && (!s.pc.Sending? ==> !t.pc.Sending?)
            && (t.sent == s.sent || (s.pc.Sending? && t.sent == s.sent + [s.pc.msg] && !t.pc.Sending?))
    decreases |actions|
  {
    if actions == [] {
    } else {
      StopIsImmediate(Step(s, actions[0]), actions[1..]);
    }
  }

  /** The steps the thread has left once stopped, whatever the others do. */
  function Remaining(s: State): nat {
    match s.pc
    case Sending(_) => 2
    case Top => 1
    case Waiting(_) => 1
    case Ended => 0
  }

  /** The thread's next step; the network takes a message whole, or fails having taken up to `count` bytes. */
  function OwnStep(s: State, whole: bool, count: nat): Action
    requires QueueInv(s) && !s.pc.Ended?
  {
    if !s.pc.Sending? then Acquire
    else
      InFlightIsEncodable(s);
      var size := |Encode(s.pc.msg)|;
      if whole && !s.pc.msg.Unserializable? then Send(true, size) else Send(false, if count < size then count else size)
  }

  /** Stopped, the thread is never blocked. */
  lemma StoppedThreadAdvances(s: State, whole: bool, count: nat)
    requires QueueInv(s) && s.stopped && !s.pc.Ended?
    ensures Enabled(s, OwnStep(s, whole, count))
  {
    if s.pc.Sending? {
      InFlightIsEncodable(s);
    }
  }

  predicate IsOwn(a: Action) {
    a.Acquire? || a.Send?
  }

  function OwnSteps(actions: seq<Action>): nat {
    if actions == [] then 0 else (if IsOwn(actions[0]) then 1 else 0) + OwnSteps(actions[1..])
  }

  /** Each of its steps brings its end nearer, and no step of the other threads moves it away. */
  lemma OwnStepsAdvance(s: State, a: Action)
    requires s.stopped && Enabled(s, a)
    ensures Step(s, a).stopped
    ensures Remaining(Step(s, a)) + (if IsOwn(a) then 1 else 0) <= Remaining(s)
  {
  }

  /**
   Join returns, whatever the schedule and the network: stopped in any state a run can reach, the thread
   has at most two steps left, and as long as it has not ended its next one is enabled.
   */
  lemma {:induction false} StopEndsTheThread(s: State, actions: seq<Action>, whole: bool, count: nat)
    requires QueueInv(s) && s.stopped && IsRun(s, actions)
    ensures var t := Exec(s, actions);
            && OwnSteps(actions) + Remaining(t) <= Remaining(s) <= 2
            && (Remaining(t) == 0 <==> t.pc.Ended?)
            && QueueInv(t) && (t.pc.Ended? || Enabled(t, OwnStep(t, whole, count)))
    decreases |actions|
  {
    if actions == [] {
      if !s.pc.Ended? {
        StoppedThreadAdvances(s, whole, count);
      }
    } else {
      StepKeepsQueue(s, actions[0]);
      OwnStepsAdvance(s, actions[0]);
      StopEndsTheThread(Step(s, actions[0]), actions[1..], whole, count);
    }
  }
}
