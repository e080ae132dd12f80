/** The frame rate counter (src/video/fps_counter.cpp), with its 32-bit clock and counters. */
module FpsCounting {
  import opened Common

  const INTERVAL_MS := 1000
  const WRAP := 0x1_0000_0000

  datatype Counters = Counters(rendered: uint32, skipped: uint32, next: uint32)

  /** One displayed line: the counts it is about, and the rate printed. */
  datatype Shown = Shown(rendered: uint32, skipped: uint32, fps: uint32)

  function PrintedRate(rendered: uint32): uint32 {
    rendered * 1000 % WRAP / INTERVAL_MS
  }

  /** The first point after `now` on the grid of interval ends that goes through `next`. */
  function GridPointAfter(next: uint32, now: uint32): nat
    requires next <= now
  {
    next + INTERVAL_MS * ((now - next) / INTERVAL_MS + 1)
  }

  function Checked(c: Counters, now: uint32): (Counters, seq<Shown>) {
    if now < c.next then (c, [])
    else (Counters(0, 0, GridPointAfter(c.next, now) % WRAP),
          [Shown(c.rendered, c.skipped, PrintedRate(c.rendered))])
  }

  function StartedAt(now: uint32): Counters {
    Counters(0, 0, (now + INTERVAL_MS) % WRAP)
  }

  /** One call made while the counter is started, with the clock it reads. */
  datatype Call = Rendered(now: uint32) | Skipped(now: uint32) | Check(now: uint32)

  function Called(c: Counters, call: Call): (Counters, seq<Shown>) {
    var (d, shown) := Checked(c, call.now);
    match call
    case Rendered(_) => (d.(rendered := (d.rendered + 1) % WRAP), shown)
    case Skipped(_) => (d.(skipped := (d.skipped + 1) % WRAP), shown)
    case Check(_) => (d, shown)
  }

  function Run(c: Counters, calls: seq<Call>): (Counters, seq<Shown>) {
    if calls == [] then (c, [])
    else
      var (before, shown) := Run(c, calls[..|calls| - 1]);
      var (after, more) := Called(before, calls[|calls| - 1]);
      (after, shown + more)
  }

  // ---------- Interval arithmetic ----------

  /**
   The thread's assertion after a check is met exactly when the next interval end does not pass 2^32;
   then it is on the same grid and at most one interval away, unless it was already further.
   */
  lemma CheckLooksAhead(c: Counters, now: uint32)
    ensures var next := Checked(c, now).0.next;
            && (next > now <==> now < c.next || GridPointAfter(c.next, now) < WRAP)
            && (next > now ==>
                  && (next - c.next) % INTERVAL_MS == 0
                  && (next - now <= INTERVAL_MS || next == c.next))
  {
    if c.next <= now {
      var end := GridPointAfter(c.next, now);
      assert now < end <= now + INTERVAL_MS;
      assert end - c.next == INTERVAL_MS * ((now - c.next) / INTERVAL_MS + 1);
      if end >= WRAP {
        assert end % WRAP == end - WRAP;
      }
    }
  }

  /** The rate printed is the number of frames exactly when the multiplication does not overflow. */
  lemma PrintedRateIsCount(rendered: uint32)
    ensures PrintedRate(rendered) == rendered <==> rendered * 1000 < WRAP
  {
  }

  function Clock(start: uint32, calls: seq<Call>): uint32 {
    if calls == [] then start else calls[|calls| - 1].now
  }

  predicate NonDecreasing(start: uint32, calls: seq<Call>)
    ensures NonDecreasing(start, calls) ==> start <= Clock(start, calls)
  {
    calls == [] ||
    (var before := calls[..|calls| - 1]; NonDecreasing(start, before) && Clock(start, before) <= Clock(start, calls))
  }

  lemma GridPointsGrow(start: uint32, before: uint32, now: uint32)
    requires start <= before <= now
    ensures GridPointAfter(start, before) <= GridPointAfter(start, now)
  {
    assert (before - start) / INTERVAL_MS <= (now - start) / INTERVAL_MS;
  }

  lemma OnTheGrid(start: uint32, now: uint32)
    requires start <= now
    ensures (GridPointAfter(start, now) - start) % 1000 == 0
    ensures now < GridPointAfter(start, now) <= now + 1000
  {
    assert GridPointAfter(start, now) - start == INTERVAL_MS * ((now - start) / INTERVAL_MS + 1);
  }

  /** A later point of a grid sets the same grid. */
  lemma SameGrid(start: uint32, slices: nat, end: uint32, now: uint32)
    requires end == start + INTERVAL_MS * slices && end <= now
    ensures GridPointAfter(end, now) == GridPointAfter(start, now)
  {
    assert now - start == (now - end) + INTERVAL_MS * slices;
    assert (now - start) / INTERVAL_MS == (now - end) / INTERVAL_MS + slices;
  }

  lemma NoneBetween(start: uint32, slices: nat, now: uint32)
    requires start + INTERVAL_MS * slices <= now < start + INTERVAL_MS * (slices + 1)
    ensures GridPointAfter(start, now) == start + INTERVAL_MS * (slices + 1)
  {
    assert (now - start) / INTERVAL_MS == slices;
  }

  /** A check moves the interval end from the first grid point after the clock to the first after the new clock, or wraps. */
  lemma CheckFollowsGrid(start: uint32, clock: uint32, c: Counters, now: uint32)
    requires start <= clock <= now && c.next == GridPointAfter(start, clock)
    ensures var next, end := Checked(c, now).0.next, GridPointAfter(start, now);
            if end < WRAP then next == end else next <= now
  {
    var slices := (clock - start) / INTERVAL_MS;
    if now < c.next {
      NoneBetween(start, slices, now);
    } else {
      SameGrid(start, slices + 1, c.next, now);
      var end := GridPointAfter(start, now);
      assert end <= now + INTERVAL_MS;
      if end >= WRAP {
        assert end % WRAP == end - WRAP;
      }
    }
  }

  /**
   Over a non-decreasing clock: as long as the ends of the intervals before did not pass 2^32, the next
   interval end is ahead of the clock, as the thread asserts, exactly when it does not pass 2^32 either.
   Then it is the first point after the clock on the grid set by Start, so at most one interval away.
   */
  lemma {:induction false} EndStaysAhead(start: uint32, calls: seq<Call>)
    requires NonDecreasing(start, calls)
    requires calls != [] ==> GridPointAfter(start, Clock(start, calls[..|calls| - 1])) < WRAP
    ensures var next, clock := Run(StartedAt(start), calls).0.next, Clock(start, calls);
            && (next > clock <==> GridPointAfter(start, clock) < WRAP)
            && (next > clock ==>
                  next == GridPointAfter(start, clock) <= clock + 1000 && (next - start) % 1000 == 0)
  {
    OnTheGrid(start, Clock(start, calls));
    if calls == [] {
      assert GridPointAfter(start, start) == start + INTERVAL_MS;
      if start + INTERVAL_MS >= WRAP {
        assert (start + INTERVAL_MS) % WRAP == start + INTERVAL_MS - WRAP;
      }
    } else {
      var before := calls[..|calls| - 1];
      if before != [] {
        GridPointsGrow(start, Clock(start, before[..|before| - 1]), Clock(start, before));
      }
      EndStaysAhead(start, before);
      CheckFollowsGrid(start, Clock(start, before), Run(StartedAt(start), before).0, Clock(start, calls));
    }
  }

  // ---------- What is displayed ----------

  function CountRendered(calls: seq<Call>): nat {
    if calls == [] then 0
    else CountRendered(calls[..|calls| - 1]) + if calls[|calls| - 1].Rendered? then 1 else 0
  }

  function CountSkipped(calls: seq<Call>): nat {
    if calls == [] then 0
    else CountSkipped(calls[..|calls| - 1]) + if calls[|calls| - 1].Skipped? then 1 else 0
  }

  /** The interval end that a clock reading comes before. */
  predicate InInterval(start: uint32, now: uint32, end: nat) {
    start <= now && GridPointAfter(start, now) == end
  }

  /** How many frames were rendered, and how many skipped, in the interval that ends at `end`. */
  function RenderedIn(start: uint32, calls: seq<Call>, end: nat): nat {
    if calls == [] then 0
    else
      var call := calls[|calls| - 1];
      RenderedIn(start, calls[..|calls| - 1], end) + if call.Rendered? && InInterval(start, call.now, end) then 1 else 0
  }

  function SkippedIn(start: uint32, calls: seq<Call>, end: nat): nat {
    if calls == [] then 0
    else
      var call := calls[|calls| - 1];
      SkippedIn(start, calls[..|calls| - 1], end) + if call.Skipped? && InInterval(start, call.now, end) then 1 else 0
  }

  lemma {:induction false} CountsAreBounded(start: uint32, calls: seq<Call>, end: nat)
    ensures RenderedIn(start, calls, end) <= CountRendered(calls)
    ensures SkippedIn(start, calls, end) <= CountSkipped(calls)
  {
    if calls == [] {
    } else {
      CountsAreBounded(start, calls[..|calls| - 1], end);
    }
  }

  lemma {:induction false} NothingAhead(start: uint32, calls: seq<Call>, end: nat)
    requires NonDecreasing(start, calls) && GridPointAfter(start, Clock(start, calls)) < end
    ensures RenderedIn(start, calls, end) == 0 && SkippedIn(start, calls, end) == 0
  {
    if calls == [] {
    } else {
      var before := calls[..|calls| - 1];
      GridPointsGrow(start, Clock(start, before), Clock(start, calls));
      NothingAhead(start, before, end);
    }
  }

  /** A line about the interval that ends at `end`. */
  function Line(start: uint32, calls: seq<Call>, end: nat): (int, int, int)
  {
    var rendered := RenderedIn(start, calls, end);
    (rendered, SkippedIn(start, calls, end), rendered * 1000 % 0x1_0000_0000 / 1000)
  }

  /** What must be displayed: a line about each interval in which the clock was read, at the first call after its end. */
  function Lines(start: uint32, calls: seq<Call>): seq<(int, int, int)>
    requires NonDecreasing(start, calls)
  {
    if calls == [] then []
    else
      var before := calls[..|calls| - 1];
      var end := GridPointAfter(start, Clock(start, before));
      Lines(start, before) + if Clock(start, calls) < end then [] else [Line(start, before, end)]
  }

  function Columns(shown: seq<Shown>): (lines: seq<(int, int, int)>)
    ensures |lines| == |shown|
  {
    if shown == [] then []
    else
      var last := shown[|shown| - 1];
      Columns(shown[..|shown| - 1]) + [(last.rendered, last.skipped, last.fps)]
  }

  lemma ColumnsPush(shown: seq<Shown>, line: Shown)
    ensures Columns(shown + [line]) == Columns(shown) + [(line.rendered, line.skipped, line.fps)]
  {
    assert (shown + [line])[..|shown|] == shown;
  }

  /** What is held is what the current interval counted. */
  ghost predicate HoldsInterval(start: uint32, calls: seq<Call>, c: Counters)
    requires NonDecreasing(start, calls)
  {
    var end := GridPointAfter(start, Clock(start, calls));
    c.next == end && c.rendered == RenderedIn(start, calls, end) && c.skipped == SkippedIn(start, calls, end)
  }

  /** A call in the same interval, or after its end: what is kept of the counts is what is in the call's interval. */
  lemma KeptCounts(start: uint32, before: seq<Call>, c: Counters, now: uint32)
    requires NonDecreasing(start, before) && HoldsInterval(start, before, c) && Clock(start, before) <= now
    requires GridPointAfter(start, now) < WRAP
    ensures var d, end := Checked(c, now).0, GridPointAfter(start, now);
            d.next == end && d.rendered == RenderedIn(start, before, end) && d.skipped == SkippedIn(start, before, end)
  {
    var clock, end := Clock(start, before), GridPointAfter(start, now);
    CheckFollowsGrid(start, clock, c, now);
    OnTheGrid(start, clock);
    OnTheGrid(start, now);
    if c.next <= now {
      NothingAhead(start, before, end);
    } else {
      NoneBetween(start, (clock - start) / INTERVAL_MS, now);
    }
  }

  lemma CountsOneMore(start: uint32, calls: seq<Call>, end: nat)
    requires calls != [] && InInterval(start, calls[|calls| - 1].now, end)
    ensures var before, call := calls[..|calls| - 1], calls[|calls| - 1];
            && RenderedIn(start, calls, end) == RenderedIn(start, before, end) + (if call.Rendered? then 1 else 0)
            && SkippedIn(start, calls, end) == SkippedIn(start, before, end) + (if call.Skipped? then 1 else 0)
  {
  }

  lemma CountedByCall(c: Counters, call: Call)
    requires c.rendered + (if call.Rendered? then 1 else 0) < WRAP
    requires c.skipped + (if call.Skipped? then 1 else 0) < WRAP
    requires call.now < c.next
    ensures Called(c, call) ==
            (Counters(c.rendered + (if call.Rendered? then 1 else 0), c.skipped + (if call.Skipped? then 1 else 0), c.next), [])
  {
  }

  lemma CalledOnChecked(c: Counters, call: Call)
    requires call.now < Checked(c, call.now).0.next
    ensures Called(c, call).0 == Called(Checked(c, call.now).0, call).0
  {
  }

  lemma HoldsAfterCall(start: uint32, calls: seq<Call>, c: Counters)
    requires calls != [] && NonDecreasing(start, calls) && HoldsInterval(start, calls[..|calls| - 1], c)
    requires GridPointAfter(start, Clock(start, calls)) < WRAP
    requires CountRendered(calls) < WRAP && CountSkipped(calls) < WRAP
    ensures HoldsInterval(start, calls, Called(c, calls[|calls| - 1]).0)
  {
    var before, call := calls[..|calls| - 1], calls[|calls| - 1];
    var d, end := Checked(c, call.now).0, GridPointAfter(start, call.now);
    KeptCounts(start, before, c, call.now);
    OnTheGrid(start, call.now);
    CountsOneMore(start, calls, end);
    CountsAreBounded(start, calls, end);
    CalledOnChecked(c, call);
    CountedByCall(d, call);
  }

  lemma ShownByCall(start: uint32, calls: seq<Call>, c: Counters, shown: seq<Shown>)
    requires calls != [] && NonDecreasing(start, calls) && HoldsInterval(start, calls[..|calls| - 1], c)
    requires Columns(shown) == Lines(start, calls[..|calls| - 1])
    ensures Columns(shown + Called(c, calls[|calls| - 1]).1) == Lines(start, calls)
  {
    var before, call := calls[..|calls| - 1], calls[|calls| - 1];
    if call.now < c.next {
      assert shown + [] == shown;
    } else {
      ColumnsPush(shown, Called(c, call).1[0]);
    }
  }

  /**
   Over a non-decreasing clock that does not wrap: one line is displayed for every interval in which the
   clock was read, by Start or by a call, and after whose end there was a call, with what that interval
   counted and the rate; what is held is what the current interval counted.
   */
  lemma {:induction false} EachIntervalIsDisplayed(start: uint32, calls: seq<Call>)
    requires NonDecreasing(start, calls) && GridPointAfter(start, Clock(start, calls)) < WRAP
    requires CountRendered(calls) < WRAP && CountSkipped(calls) < WRAP
    ensures var (c, shown) := Run(StartedAt(start), calls);
            HoldsInterval(start, calls, c) && Columns(shown) == Lines(start, calls)
  {
    if calls == [] {
      OnTheGrid(start, start);
    } else {
      var before := calls[..|calls| - 1];
      GridPointsGrow(start, Clock(start, before), Clock(start, calls));
      EachIntervalIsDisplayed(start, before);
      var (c, shown) := Run(StartedAt(start), before);
      HoldsAfterCall(start, calls, c);
      ShownByCall(start, calls, c, shown);
    }
  }

  // ---------- Conservation ----------

  function SumRendered(shown: seq<Shown>): nat {
    if shown == [] then 0 else SumRendered(shown[..|shown| - 1]) + shown[|shown| - 1].rendered
  }

  function SumSkipped(shown: seq<Shown>): nat {
    if shown == [] then 0 else SumSkipped(shown[..|shown| - 1]) + shown[|shown| - 1].skipped
  }

  lemma SumOneMore(shown: seq<Shown>, more: seq<Shown>)
    requires |more| <= 1
    ensures SumRendered(shown + more) == SumRendered(shown) + SumRendered(more)
    ensures SumSkipped(shown + more) == SumSkipped(shown) + SumSkipped(more)
  {
    if more == [] {
      assert shown + more == shown;
    } else {
      assert (shown + more)[..|shown|] == shown && more[..0] == [];
    }
  }

  /** One call shows what was counted, or keeps it, and counts itself. */
  lemma CallConserves(c: Counters, call: Call)
    requires c.rendered + (if call.Rendered? then 1 else 0) < WRAP
    requires c.skipped + (if call.Skipped? then 1 else 0) < WRAP
    ensures var (d, more) := Called(c, call);
            && |more| <= 1
            && SumRendered(more) + d.rendered == c.rendered + (if call.Rendered? then 1 else 0)
            && SumSkipped(more) + d.skipped == c.skipped + (if call.Skipped? then 1 else 0)
  {
    var more := Checked(c, call.now).1;
    assert more != [] ==> more[..|more| - 1] == [];
  }

  /** Frames are neither lost nor counted twice, whatever the clock does, until a 32-bit counter could wrap. */
  lemma {:induction false} FramesAreConserved(start: uint32, calls: seq<Call>)
    requires CountRendered(calls) < WRAP && CountSkipped(calls) < WRAP
    ensures var (c, shown) := Run(StartedAt(start), calls);
            && SumRendered(shown) + c.rendered == CountRendered(calls)
            && SumSkipped(shown) + c.skipped == CountSkipped(calls)
  {
    if calls == [] {
    } else {
      var before, call := calls[..|calls| - 1], calls[|calls| - 1];
      FramesAreConserved(start, before);
      var (c, shown) := Run(StartedAt(start), before);
      CallConserves(c, call);
      SumOneMore(shown, Called(c, call).1);
    }
  }

  // ---------- The object ----------

  class FpsCounter {
    var started: bool
    var nrRendered: uint32
    var nrSkipped: uint32
    var nextTimestamp: uint32
    // The lines displayed.
    var shown: seq<Shown>

    ghost function View(): Counters
      reads this
    {
      Counters(nrRendered, nrSkipped, nextTimestamp)
    }

    constructor ()
      ensures !started && shown == []
    {
      started, nrRendered, nrSkipped, nextTimestamp, shown := false, 0, 0, 0, [];
    }

    method Start(now: uint32)
      modifies this
      ensures started && View() == StartedAt(now) && shown == old(shown)
    {
      nextTimestamp := (now + INTERVAL_MS) % WRAP;
      nrRendered, nrSkipped := 0, 0;
      started := true;
    }

    method CheckIntervalExpired(now: uint32)
      modifies this
      ensures started == old(started)
      ensures View() == Checked(old(View()), now).0
      ensures shown == old(shown) + Checked(old(View()), now).1
    {
      if now < nextTimestamp {
        return;
      }
      shown := shown + [Shown(nrRendered, nrSkipped, PrintedRate(nrRendered))];
      nrRendered, nrSkipped := 0, 0;
      var elapsedSlices := (now - nextTimestamp) / INTERVAL_MS + 1;
      nextTimestamp := (nextTimestamp + INTERVAL_MS * elapsedSlices) % WRAP;
    }

    method AddRenderedFrame(now: uint32)
      modifies this
      ensures started == old(started)
      ensures !old(started) ==> View() == old(View()) && shown == old(shown)
      ensures old(started) ==> View() == Called(old(View()), Rendered(now)).0
      ensures old(started) ==> shown == old(shown) + Called(old(View()), Rendered(now)).1
    {
      if !started {
        return;
      }
      CheckIntervalExpired(now);
      nrRendered := (nrRendered + 1) % WRAP;
    }

    method AddSkippedFrame(now: uint32)
      modifies this
      ensures started == old(started)
      ensures !old(started) ==> View() == old(View()) && shown == old(shown)
      ensures old(started) ==> View() == Called(old(View()), Skipped(now)).0
      ensures old(started) ==> shown == old(shown) + Called(old(View()), Skipped(now)).1
    {
      if !started {
        return;
      }
      CheckIntervalExpired(now);
      nrSkipped := (nrSkipped + 1) % WRAP;
    }

    /** One turn of the thread's inner loop: how long it goes to sleep for. None is where its assertion fails. */
    method WaitTime(now: uint32) returns (remaining: Option<uint32>)
      modifies this
      ensures View() == Checked(old(View()), now).0
      ensures remaining.None? <==> old(nextTimestamp) <= now && GridPointAfter(old(nextTimestamp), now) >= WRAP
      ensures remaining.Some? ==>
                && 0 < remaining.value && now + remaining.value == nextTimestamp
                && (remaining.value <= INTERVAL_MS || nextTimestamp == old(nextTimestamp))
    {
      CheckLooksAhead(View(), now);
      CheckIntervalExpired(now);
      if nextTimestamp <= now {
        return None;
      }
      remaining := Some(nextTimestamp - now);
    }
  }
}
