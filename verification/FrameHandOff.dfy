/**
 The decoder thread, the UI thread and an interrupting thread sharing a video buffer
 (src/video/video_buffer.cpp, src/video/decoder.cpp), with the queue of EVENT_NEW_FRAME events.
 A mutex-held section is one step, except rendering, which keeps the mutex from consuming to unlocking.
 */
module FrameHandOff {
  import opened Common
  import opened VideoBuffering

  datatype DecoderPc =
    | Idle                     // about to decode a picture, without the lock
    | Offering                 // has decoded one, about to lock the mutex
    | Waiting(signalled: bool) // in cond_wait
    | Pushing                  // has offered, about to push the event

  datatype UiPc =
    | Polling
    | Popped                     // has taken an event, about to lock the mutex
    | Rendering(picture: Picture) // has consumed, holds the mutex

  datatype State = State(
    f: Fields,
    decoder: DecoderPc,
    ui: UiPc,
    // The interrupting thread has set the flag and is about to signal.
    signalDue: bool,
    events: nat,
    // History: pictures offered, consumed, dropped, and read while rendering; calls to the counter.
    offered: seq<Picture>,
    consumed: seq<Picture>,
    skipped: seq<Picture>,
    shown: seq<Picture>,
    countedSkips: nat)

  datatype Action =
    | Decode(picture: Picture)
    | Offer
    | SpuriousWakeup
    | PushEvent
    | PopEvent
    | Consume
    | Unlock
    | SetInterrupted
    | SignalInterrupted

  function Start(renderExpired: bool): State {
    State(Init(0, 0, renderExpired), Idle, Polling, false, 0, [], [], [], [], 0)
  }

  predicate MutexFree(s: State) {
    !s.ui.Rendering?
  }

  predicate Enabled(s: State, a: Action) {
    match a
    case Decode(_) => s.decoder.Idle?
    case Offer => MutexFree(s) && (s.decoder.Offering? || s.decoder == Waiting(true))
    case SpuriousWakeup => s.decoder.Waiting?
    case PushEvent => s.decoder.Pushing?
    case PopEvent => s.ui.Polling? && s.events > 0
    case Consume => s.ui.Popped?
    case Unlock => s.ui.Rendering?
    case SetInterrupted => MutexFree(s) && !s.signalDue
    case SignalInterrupted => s.signalDue
  }

  function Signal(pc: DecoderPc): DecoderPc {
    if pc.Waiting? then Waiting(true) else pc
  }

  function Step(s: State, a: Action): State
    requires Enabled(s, a)
  {
    match a
    case Decode(picture) =>
      s.(f := Decoded(s.f, picture), decoder := Offering)
    case Offer =>
      if MustWait(s.f) then s.(decoder := Waiting(false))
      else
        var t := s.(f := Offered(s.f), offered := s.offered + [Decoding(s.f)]);
        if s.f.consumed then t.(decoder := Pushing)
        else t.(decoder := Idle, skipped := s.skipped + [VideoBuffering.Rendering(s.f)],
                countedSkips := s.countedSkips + if s.f.renderExpired then 0 else 1)
    case SpuriousWakeup =>
      s.(decoder := Waiting(true))
    case PushEvent =>
      s.(events := s.events + 1, decoder := Idle)
    case PopEvent =>
      s.(events := s.events - 1, ui := Popped)
    case Consume =>
      var picture := VideoBuffering.Rendering(s.f);
      s.(f := Consumed(s.f), ui := UiPc.Rendering(picture), consumed := s.consumed + [picture],
         decoder := if s.f.renderExpired then Signal(s.decoder) else s.decoder)
    case Unlock =>
      // What was drawn is what the frame held while it was being drawn.
      s.(ui := Polling, shown := s.shown + [VideoBuffering.Rendering(s.f)])
    case SetInterrupted =>
      s.(f := Interrupted(s.f), signalDue := s.f.renderExpired)
    case SignalInterrupted =>
      s.(signalDue := false, decoder := Signal(s.decoder))
  }

  predicate IsRun(s: State, actions: seq<Action>)
    decreases |actions|
  {
    actions == [] || (Enabled(s, actions[0]) && IsRun(Step(s, actions[0]), actions[1..]))
  }

  function Exec(s: State, actions: seq<Action>): State
    requires IsRun(s, actions)
    decreases |actions|
  {
    if actions == [] then s else Exec(Step(s, actions[0]), actions[1..])
  }

  // ---------- The invariant ----------

  /** The right to consume: an event queued or popped, or a decoder about to push one. */
  function Tokens(s: State): nat {
    s.events + (if s.ui.Popped? then 1 else 0) + if s.decoder.Pushing? then 1 else 0
  }

  /** `all` is an interleaving of `xs` and `ys`, each in its own order. */
  predicate Interleaves<T(==)>(all: seq<T>, xs: seq<T>, ys: seq<T>)
    decreases |all|
  {
    if all == [] then xs == [] && ys == []
    else
      var last, rest := all[|all| - 1], all[..|all| - 1];
      || (xs != [] && xs[|xs| - 1] == last && Interleaves(rest, xs[..|xs| - 1], ys))
      || (ys != [] && ys[|ys| - 1] == last && Interleaves(rest, xs, ys[..|ys| - 1]))
  }

  lemma InterleavesGrows<T>(all: seq<T>, xs: seq<T>, ys: seq<T>, x: T)
    requires Interleaves(all, xs, ys)
    ensures Interleaves(all + [x], xs + [x], ys) && Interleaves(all + [x], xs, ys + [x])
  {
    assert (all + [x])[..|all|] == all && (xs + [x])[..|xs|] == xs && (ys + [x])[..|ys|] == ys;
  }

  lemma {:induction false} InterleavesLength<T>(all: seq<T>, xs: seq<T>, ys: seq<T>)
    requires Interleaves(all, xs, ys)
    ensures |all| == |xs| + |ys|
    ensures ys == [] ==> all == xs
    decreases |all|
  {
    if all == [] {
    } else {
      var last, rest := all[|all| - 1], all[..|all| - 1];
      if xs != [] && xs[|xs| - 1] == last && Interleaves(rest, xs[..|xs| - 1], ys) {
        InterleavesLength(rest, xs[..|xs| - 1], ys);
      } else {
        InterleavesLength(rest, xs, ys[..|ys| - 1]);
      }
    }
  }

  /** The offered pictures whose fate is known: all, but for one waiting to be consumed. */
  ghost predicate Settled(s: State, settled: seq<Picture>) {
    s.offered == settled + if s.f.consumed then [] else [VideoBuffering.Rendering(s.f)]
  }

  ghost predicate PicturesInv(s: State, settled: seq<Picture>) {
    && Settled(s, settled)
    && Interleaves(settled, s.consumed, s.skipped)
    && s.consumed == s.shown + (if s.ui.Rendering? then [s.ui.picture] else [])
    && (s.ui.Rendering? ==> s.ui.picture == VideoBuffering.Rendering(s.f))
    && s.countedSkips == (if s.f.renderExpired then 0 else |s.skipped|)
  }

  ghost predicate ControlInv(s: State) {
    && Tokens(s) == (if s.f.consumed then 0 else 1)
    && (s.ui.Rendering? ==> s.f.consumed)
    && (s.decoder.Waiting? ==> s.f.renderExpired)
    && (s.decoder == Waiting(false) ==> !s.f.consumed && (s.f.interrupted ==> s.signalDue))
    && (s.f.renderExpired && !s.f.interrupted ==> s.skipped == [])
  }

  lemma StepKeepsControl(s: State, a: Action)
    requires ControlInv(s) && Enabled(s, a)
    ensures ControlInv(Step(s, a))
    ensures Step(s, a).f.renderExpired == s.f.renderExpired
  {
  }

  lemma OfferKeepsPictures(s: State, settled: seq<Picture>) returns (after: seq<Picture>)
    requires ControlInv(s) && PicturesInv(s, settled) && Enabled(s, Offer)
    ensures PicturesInv(Step(s, Offer), after)
  {
    after := settled;
    if !MustWait(s.f) && !s.f.consumed {
      var picture := VideoBuffering.Rendering(s.f);
      after := settled + [picture];
      InterleavesGrows(settled, s.consumed, s.skipped, picture);
    }
  }

  lemma ConsumedIsSettled(s: State, settled: seq<Picture>)
    requires PicturesInv(s, settled) && !s.f.consumed
    ensures s.offered == settled + [VideoBuffering.Rendering(s.f)]
    ensures Interleaves(s.offered, s.consumed + [VideoBuffering.Rendering(s.f)], s.skipped)
  {
    InterleavesGrows(settled, s.consumed, s.skipped, VideoBuffering.Rendering(s.f));
  }

  lemma ConsumeKeepsPictures(s: State, settled: seq<Picture>) returns (after: seq<Picture>)
    requires ControlInv(s) && PicturesInv(s, settled) && Enabled(s, Consume)
    ensures PicturesInv(Step(s, Consume), after)
  {
    after := s.offered;
    ConsumedIsSettled(s, settled);
    assert after + [] == after && s.consumed == s.shown + [] == s.shown;
  }

  lemma StepKeepsPictures(s: State, settled: seq<Picture>, a: Action) returns (after: seq<Picture>)
    requires ControlInv(s) && PicturesInv(s, settled) && Enabled(s, a)
    ensures PicturesInv(Step(s, a), after)
  {
    after := settled;
    if a.Offer? {
      after := OfferKeepsPictures(s, settled);
    } else if a.Consume? {
      after := ConsumeKeepsPictures(s, settled);
    }
  }

  lemma {:induction false} RunKeepsInv(s: State, settled: seq<Picture>, actions: seq<Action>)
      returns (after: seq<Picture>)
    requires ControlInv(s) && PicturesInv(s, settled) && IsRun(s, actions)
    ensures ControlInv(Exec(s, actions)) && PicturesInv(Exec(s, actions), after)
    ensures Exec(s, actions).f.renderExpired == s.f.renderExpired
    decreases |actions|
  {
    after := settled;
    if actions == [] {
    } else {
      StepKeepsControl(s, actions[0]);
      after := StepKeepsPictures(s, settled, actions[0]);
      after := RunKeepsInv(Step(s, actions[0]), after, actions[1..]);
    }
  }

  // ---------- What holds of every run ----------

  /**
   In every interleaving a frame is unconsumed exactly when one token exists, and never more: the
   assertion of ConsumeRenderedFrame holds whenever it is called.
   */
  lemma OneTokenPerUnconsumedFrame(renderExpired: bool, actions: seq<Action>)
    requires IsRun(Start(renderExpired), actions)
    ensures var s := Exec(Start(renderExpired), actions);
            && Tokens(s) <= 1
            && (Tokens(s) == 1 <==> !s.f.consumed)
            && (Enabled(s, Consume) ==> !s.f.consumed)
  {
    var settled := RunKeepsInv(Start(renderExpired), [], actions);
  }

  /**
   Every picture offered is consumed once, skipped once, or waiting; both logs keep the order of
   offering; and in drop mode the frame counter hears of every skip.
   */
  lemma PicturesAreConserved(renderExpired: bool, actions: seq<Action>) returns (settled: seq<Picture>)
    requires IsRun(Start(renderExpired), actions)
    ensures var s := Exec(Start(renderExpired), actions);
            && Settled(s, settled) && Interleaves(settled, s.consumed, s.skipped)
            && |s.offered| == |s.consumed| + |s.skipped| + (if s.f.consumed then 0 else 1)
            && s.countedSkips == (if renderExpired then 0 else |s.skipped|)
  {
    settled := RunKeepsInv(Start(renderExpired), [], actions);
    var s := Exec(Start(renderExpired), actions);
    InterleavesLength(settled, s.consumed, s.skipped);
  }

  /** What is consumed is the latest picture offered, and it does not change while it is being drawn. */
  lemma LatestIsConsumedAndDrawn(renderExpired: bool, actions: seq<Action>)
    requires IsRun(Start(renderExpired), actions)
    ensures var s := Exec(Start(renderExpired), actions);
            && (Enabled(s, Consume) ==>
                  s.offered != [] && Step(s, Consume).consumed == s.consumed + [s.offered[|s.offered| - 1]])
            && s.shown <= s.consumed && |s.consumed| <= |s.shown| + 1
            && (MutexFree(s) ==> s.shown == s.consumed)
  {
    var settled := RunKeepsInv(Start(renderExpired), [], actions);
  }

  /** With render_expired_frames and no interrupt nothing is skipped: pictures are consumed one by one, in order. */
  lemma ExpiredFramesAreAllConsumed(actions: seq<Action>)
    requires IsRun(Start(true), actions)
    ensures var s := Exec(Start(true), actions);
            !s.f.interrupted ==>
              s.skipped == [] &&
              s.offered == s.consumed + if s.f.consumed then [] else [VideoBuffering.Rendering(s.f)]
  {
    var settled := RunKeepsInv(Start(true), [], actions);
    var s := Exec(Start(true), actions);
    InterleavesLength(settled, s.consumed, s.skipped);
  }

  /** The pictures decoded by a list of actions. */
  function DecodedBy(actions: seq<Action>): seq<Picture> {
    if actions == [] then []
    else if actions[0].Decode? then [actions[0].picture] + DecodedBy(actions[1..])
    else DecodedBy(actions[1..])
  }

  /** The picture decoded and not offered yet. */
  function Due(s: State): seq<Picture> {
    if s.decoder.Offering? || s.decoder.Waiting? then [Decoding(s.f)] else []
  }

  lemma OfferedIsDecodedStep(s: State, a: Action)
    requires Enabled(s, a)
    ensures var t := Step(s, a);
            t.offered + Due(t) == s.offered + Due(s) + if a.Decode? then [a.picture] else []
  {
  }

  /** What is offered is what was decoded: every picture once, in order, but for the one being offered. */
  lemma {:induction false} OfferedIsDecoded(s: State, actions: seq<Action>)
    requires IsRun(s, actions)
    ensures var t := Exec(s, actions); t.offered + Due(t) == s.offered + Due(s) + DecodedBy(actions)
    decreases |actions|
  {
    if actions == [] {
    } else {
      OfferedIsDecodedStep(s, actions[0]);
      OfferedIsDecoded(Step(s, actions[0]), actions[1..]);
      if actions[0].Decode? {
        Reassociate(s.offered + Due(s), [actions[0].picture], DecodedBy(actions[1..]));
      }
    }
  }

  lemma Prepend(s: State, a: Action, rest: seq<Action>) returns (actions: seq<Action>)
    requires Enabled(s, a) && IsRun(Step(s, a), rest)
    ensures actions == [a] + rest && IsRun(s, actions) && Exec(s, actions) == Exec(Step(s, a), rest)
  {
    actions := [a] + rest;
    assert actions[1..] == rest;
  }

  /** A picture decoded while nothing is on its way is drawn six steps later, none of them by the interrupting thread. */
  lemma PictureIsDrawn(s: State, picture: Picture) returns (actions: seq<Action>)
    requires ControlInv(s) && s.decoder.Idle? && s.ui.Polling? && s.events == 0
    ensures |actions| == 6 && actions[0] == Decode(picture) && IsRun(s, actions)
    ensures var t := Exec(s, actions);
            && t.shown == s.shown + [picture] && t.consumed == s.consumed + [picture]
            && t.decoder.Idle? && t.ui.Polling? && t.events == 0
  {
    var decoded := Step(s, Decode(picture));
    var offered := Step(decoded, Offer);
    var pushed := Step(offered, PushEvent);
    var popped := Step(pushed, PopEvent);
    var consumed := Step(popped, Consume);
    actions := Prepend(consumed, Unlock, []);
    actions := Prepend(popped, Consume, actions);
    actions := Prepend(pushed, PopEvent, actions);
    actions := Prepend(offered, PushEvent, actions);
    actions := Prepend(decoded, Offer, actions);
    actions := Prepend(s, Decode(picture), actions);
  }

  /** A decoder asleep and unsignalled waits for a frame not yet consumed, or is about to be signalled. */
  lemma AsleepMeansBlocked(renderExpired: bool, actions: seq<Action>)
    requires IsRun(Start(renderExpired), actions)
    ensures var s := Exec(Start(renderExpired), actions);
            s.decoder == Waiting(false) ==> !s.f.consumed && (s.f.interrupted ==> s.signalDue)
  {
    var settled := RunKeepsInv(Start(renderExpired), [], actions);
  }

  /** Offering blocks exactly while a frame's token is on its way, unless expired frames are dropped or the buffer is interrupted. */
  lemma OfferWaitsForTheToken(renderExpired: bool, actions: seq<Action>)
    requires IsRun(Start(renderExpired), actions)
    ensures var s := Exec(Start(renderExpired), actions);
            MustWait(s.f) <==> renderExpired && !s.f.interrupted && Tokens(s) == 1
  {
    var settled := RunKeepsInv(Start(renderExpired), [], actions);
  }

  predicate IsUiStep(a: Action) {
    a.PopEvent? || a.Consume? || a.Unlock?
  }

  function UiSteps(actions: seq<Action>): nat {
    if actions == [] then 0 else (if IsUiStep(actions[0]) then 1 else 0) + UiSteps(actions[1..])
  }

  /** The decoder is asleep and unsignalled all along. */
  predicate SleepsThrough(s: State, actions: seq<Action>)
    requires IsRun(s, actions)
    decreases |actions|
  {
    s.decoder == Waiting(false) && (actions == [] || SleepsThrough(Step(s, actions[0]), actions[1..]))
  }

  /**
   Whatever the schedule, a decoder sleeps through at most one step of the user interface thread, which
   always has a next one: consumption wakes it as soon as that thread runs.
   */
  lemma {:induction false} SleepIsShort(s: State, actions: seq<Action>)
    requires ControlInv(s) && IsRun(s, actions) && SleepsThrough(s, actions)
    ensures UiSteps(actions) <= if s.ui.Polling? then 1 else 0
    ensures var t := Exec(s, actions); Enabled(t, PopEvent) || Enabled(t, Consume)
    decreases |actions|
  {
    if actions == [] {
    } else {
      StepKeepsControl(s, actions[0]);
      SleepIsShort(Step(s, actions[0]), actions[1..]);
    }
  }

  /** A decoder woken by a consumption or an interrupt stays ready until it offers its picture, whatever the schedule. */
  lemma {:induction false} WokenDecoderOffers(s: State, actions: seq<Action>)
    requires IsRun(s, actions)
    requires s.decoder == Waiting(true) && !MustWait(s.f)
    ensures var t := Exec(s, actions);
            || (t.decoder == Waiting(true) && !MustWait(t.f))
            || s.offered + [Decoding(s.f)] <= t.offered
    decreases |actions|
  {
    if actions == [] {
    } else if actions[0].Offer? {
      OfferedGrows(Step(s, Offer), actions[1..]);
    } else {
      WokenDecoderOffers(Step(s, actions[0]), actions[1..]);
    }
  }

  lemma {:induction false} OfferedGrows(s: State, actions: seq<Action>)
    requires IsRun(s, actions)
    ensures s.offered <= Exec(s, actions).offered
    decreases |actions|
  {
    if actions == [] {
    } else {
      OfferedGrows(Step(s, actions[0]), actions[1..]);
    }
  }

  /**
   Such a decoder can always be released by the other threads alone, in at most three of their steps,
   after which it offers its picture.
   */
  lemma BlockedDecoderResumes(s: State) returns (others: seq<Action>)
    requires ControlInv(s) && s.decoder == Waiting(false)
    ensures |others| <= 3 && IsRun(s, others)
    ensures forall a | a in others :: a.PopEvent? || a.Consume? || a.Unlock? || a.SignalInterrupted?
    ensures var t := Exec(s, others); Enabled(t, Offer) && Step(t, Offer).offered == s.offered + [Decoding(s.f)]
  {
    if s.f.interrupted {
      others := [SignalInterrupted];
      assert others[1..] == [];
    } else {
      var fromPopped := [Consume, Unlock];
      var popped := if s.ui.Popped? then s else Step(s, PopEvent);
      assert fromPopped[1..] == [Unlock] && fromPopped[1..][1..] == [];
      assert IsRun(popped, fromPopped);
      others := if s.ui.Popped? then fromPopped else [PopEvent] + fromPopped;
      assert ([PopEvent] + fromPopped)[1..] == fromPopped;
    }
  }

  /**
   An interrupt is heard, and final: from then on offering never blocks, and once it has been signalled the
   decoder is not asleep any more.
   */
  lemma {:induction false} InterruptReleases(s: State, actions: seq<Action>)
    requires ControlInv(s) && s.f.renderExpired && IsRun(s, actions)
    requires s.f.interrupted || SetInterrupted in actions
    ensures var t := Exec(s, actions);
            t.f.interrupted && !MustWait(t.f) && (!t.signalDue ==> t.decoder != Waiting(false))
    decreases |actions|
  {
    if actions == [] {
    } else {
      StepKeepsControl(s, actions[0]);
      assert SetInterrupted in actions <==> actions[0] == SetInterrupted || SetInterrupted in actions[1..];
      InterruptReleases(Step(s, actions[0]), actions[1..]);
    }
  }

  /** A blocked decoder can be interrupted at any time, and then offers its picture over the unconsumed one. */
  lemma InterruptedDecoderOffers(s: State) returns (actions: seq<Action>)
    requires ControlInv(s) && s.decoder == Waiting(false) && !s.signalDue
    ensures actions == [SetInterrupted, SignalInterrupted, Offer] && IsRun(s, actions)
    ensures Exec(s, actions).offered == s.offered + [Decoding(s.f)] && Exec(s, actions).decoder.Idle?
  {
    var heard := Step(s, SetInterrupted);
    var woken := Step(heard, SignalInterrupted);
    actions := Prepend(woken, Offer, []);
    actions := Prepend(heard, SignalInterrupted, actions);
    actions := Prepend(s, SetInterrupted, actions);
  }

  // ---------- When SDL_PushEvent fails ----------

  /** A frame is unconsumed and no token is left. */
  predicate Frozen(s: State) {
    !s.f.consumed && Tokens(s) == 0 && !s.ui.Rendering?
  }

  /** PushFrame ignores the result of SDL_PushEvent; this is its step when the event is not queued. */
  function LoseEvent(s: State): State {
    s.(decoder := Idle)
  }

  /** Losing the event is what freezes the hand-off: no run that queues its events ever is frozen. */
  lemma OnlyALostEventFreezes(s: State)
    requires ControlInv(s)
    ensures !Frozen(s)
    ensures s.decoder.Pushing? ==> Frozen(LoseEvent(s))
  {
  }

  /** Once frozen, whatever happens, no picture is consumed any more. */
  lemma {:induction false} FrozenForever(s: State, actions: seq<Action>)
    requires Frozen(s) && IsRun(s, actions)
    ensures Frozen(Exec(s, actions)) && Exec(s, actions).consumed == s.consumed
    decreases |actions|
  {
    if actions == [] {
    } else {
      FrozenForever(Step(s, actions[0]), actions[1..]);
    }
  }
}
