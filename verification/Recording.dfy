/**
 The recorder (src/video/recorder.cpp): what its critical sections do to its fields, and what a
 whole recording writes. The thread protocol is in RecorderThread.dfy.
 */
module Recording {
  import opened Common
  import opened Packets
  import opened IntrusiveQueue

  // Given to the last packet, whose successor is never known.
  const LAST_DURATION := 100000

  /** What reaches the muxer: the file header, made of the first packet, then frames. */
  datatype Entry = Header(extradata: seq<byte>) | Frame(pts: int, duration: int, data: seq<byte>)

  datatype Fields = Fields(
    queue: seq<Packet>,
    stopped: bool,
    failed: bool,
    previous: Option<Packet>,
    headerWritten: bool,
    log: seq<Entry>)

  const INITIAL := Fields([], false, false, None, false, [])

  // ---------- What each section does to the fields ----------

  /** `io` is the outcome of the muxer call, where one is made. */
  function Written(f: Fields, packet: Packet, io: bool): (Fields, bool) {
    if !f.headerWritten then
      if !packet.IsConfig() || !io then (f, false)
      else (f.(headerWritten := true, log := f.log + [Header(packet.data)]), true)
    else if packet.IsConfig() then (f, true)
    else if !io then (f, false)
    else (f.(log := f.log + [Frame(packet.pts, packet.duration, packet.data)]), true)
  }

  /** `memory` is whether a record of the packet can be allocated. */
  function Pushed(f: Fields, packet: Packet, memory: bool): (Fields, bool) {
    if f.failed || !memory then (f, false) else (f.(queue := f.queue + [packet]), true)
  }

  function Timed(previous: Packet, rec: Packet): Packet {
    if rec.IsConfig() || previous.IsConfig() then previous
    else previous.(duration := rec.pts - previous.pts)
  }

  /** The received packet is held back and the one held before it is written. */
  function Advanced(f: Fields, rec: Packet, io: bool): (Fields, bool) {
    var g := f.(previous := Some(rec));
    match f.previous
    case None => (g, true)
    case Some(previous) => Written(g, Timed(previous, rec), io)
  }

  function Finished(f: Fields, io: bool): Fields {
    match f.previous
    case None => f
    case Some(last) => Written(f, last.(duration := LAST_DURATION), io).0
  }

  function Failed(f: Fields): Fields {
    f.(failed := true, queue := [])
  }

  // ---------- What a recording of a list of packets is ----------

  /** How long the i-th packet lasts in a recording of `packets`. */
  function Duration(packets: seq<Packet>, i: nat): int
    requires i < |packets|
  {
    if i + 1 == |packets| then LAST_DURATION
    else if packets[i].IsConfig() || packets[i + 1].IsConfig() then packets[i].duration
    else packets[i + 1].pts - packets[i].pts
  }

  /** What the first `n` packets of a recording of `packets` put in the file. */
  function Entries(packets: seq<Packet>, n: nat): seq<Entry>
    requires n <= |packets|
  {
    if n == 0 || !packets[0].IsConfig() then []
    else if n == 1 then [Header(packets[0].data)]
    else
      var p := packets[n - 1];
      Entries(packets, n - 1)
      + if p.IsConfig() then [] else [Frame(p.pts, Duration(packets, n - 1), p.data)]
  }

  function FinalLog(packets: seq<Packet>): seq<Entry> {
    Entries(packets, |packets|)
  }

  /** Of a recording in progress, all is written but the packet held back. */
  function LogSoFar(packets: seq<Packet>): seq<Entry> {
    Entries(packets, if packets == [] then 0 else |packets| - 1)
  }

  /** What the first n packets write is settled by the packet after them. */
  lemma {:induction false} EntriesLocal(a: seq<Packet>, b: seq<Packet>, n: nat)
    requires n < |a| && n < |b| && a[..n + 1] == b[..n + 1]
    ensures Entries(a, n) == Entries(b, n)
  {
    assert forall i | 0 <= i <= n :: a[i] == a[..n + 1][i] && b[i] == b[..n + 1][i];
    if n <= 1 {
    } else {
      assert a[..n] == a[..n + 1][..n] && b[..n] == b[..n + 1][..n];
      EntriesLocal(a, b, n - 1);
    }
  }

  lemma {:induction false} EntriesPrefix(packets: seq<Packet>, m: nat, n: nat)
    requires m <= n <= |packets|
    ensures Entries(packets, m) <= Entries(packets, n)
    decreases n
  {
    if m == n {
    } else {
      EntriesPrefix(packets, m, n - 1);
    }
  }

  /** A recording in progress is a prefix of the whole one, whatever is pushed later. */
  lemma LogSoFarPrefix(packets: seq<Packet>, later: seq<Packet>)
    ensures LogSoFar(packets) <= FinalLog(packets + later)
  {
    if packets != [] {
      var all := packets + later;
      assert all[..|packets|] == packets[..|packets|];
      EntriesLocal(packets, all, |packets| - 1);
      EntriesPrefix(all, |packets| - 1, |all|);
    }
  }

  /** One more packet received: the one held back is written, with its duration now known. */
  lemma LogSoFarAdvances(packets: seq<Packet>, rec: Packet)
    requires packets != []
    ensures var held := Timed(packets[|packets| - 1], rec);
            LogSoFar(packets + [rec]) ==
            if !packets[0].IsConfig() then []
            else if |packets| == 1 then [Header(held.data)]
            else LogSoFar(packets) + if held.IsConfig() then [] else [Frame(held.pts, held.duration, held.data)]
  {
    var more := packets + [rec];
    assert more[..|packets|] == packets[..|packets|];
    EntriesLocal(packets, more, |packets| - 1);
  }

  // ---------- What the final log means ----------

  function DataPackets(packets: seq<Packet>): seq<Packet> {
    if packets == [] then []
    else
      var last := packets[|packets| - 1];
      DataPackets(packets[..|packets| - 1]) + if last.IsConfig() then [] else [last]
  }

  predicate IsFrameOf(e: Entry, p: Packet) {
    e.Frame? && e.pts == p.pts && e.data == p.data
  }

  /** `log` is the header, then one frame per packet of `data`, in order, with its timestamp and its payload. */
  ghost predicate IsRecordingOf(log: seq<Entry>, header: Packet, data: seq<Packet>) {
    && |log| == 1 + |data| && log[0] == Header(header.data)
    && forall k | 0 <= k < |data| :: IsFrameOf(log[k + 1], data[k])
  }

  lemma OneMoreFrame(log: seq<Entry>, header: Packet, data: seq<Packet>, p: Packet, duration: int)
    requires IsRecordingOf(log, header, data)
    ensures IsRecordingOf(log + [Frame(p.pts, duration, p.data)], header, data + [p])
  {
    var longer, more := log + [Frame(p.pts, duration, p.data)], data + [p];
    forall k | 0 <= k < |more|
      ensures IsFrameOf(longer[k + 1], more[k])
    {
      if k < |data| {
        assert IsFrameOf(log[k + 1], data[k]);
        assert longer[k + 1] == log[k + 1] && more[k] == data[k];
      } else {
        assert longer[k + 1] == Frame(p.pts, duration, p.data) && more[k] == p;
      }
    }
  }

  /** A file that starts with a config packet holds every data packet once, in order, and nothing else. */
  lemma {:induction false} EntriesKeepData(packets: seq<Packet>, n: nat)
    requires 0 < n <= |packets| && packets[0].IsConfig()
    ensures IsRecordingOf(Entries(packets, n), packets[0], DataPackets(packets[..n]))
  {
    assert packets[..n][..n - 1] == packets[..n - 1];
    if n == 1 {
      assert packets[..1] == [packets[0]];
      assert DataPackets(packets[..0]) == [];
    } else {
      EntriesKeepData(packets, n - 1);
      var log, data, p := Entries(packets, n - 1), DataPackets(packets[..n - 1]), packets[n - 1];
      assert packets[..n][n - 1] == p;
      if p.IsConfig() {
        assert log + [] == log && data + [] == data;
      } else {
        OneMoreFrame(log, packets[0], data, p, Duration(packets, n - 1));
      }
    }
  }

  /** Where no config packet intervenes the frames tile time: each ends where the next begins. */
  lemma FramesTileTime(packets: seq<Packet>, i: nat)
    requires 0 < i && i + 1 < |packets| && packets[0].IsConfig()
    requires !packets[i].IsConfig() && !packets[i + 1].IsConfig()
    ensures var log, at := FinalLog(packets), |Entries(packets, i)|;
            && at + 1 < |log| && log[at].Frame? && log[at + 1].Frame?
            && log[at].data == packets[i].data && log[at + 1].data == packets[i + 1].data
            && log[at].pts + log[at].duration == log[at + 1].pts
  {
    EntriesPrefix(packets, i + 2, |packets|);
    assert Entries(packets, i + 1) == Entries(packets, i)
                                      + [Frame(packets[i].pts, Duration(packets, i), packets[i].data)];
    assert Entries(packets, i + 2) == Entries(packets, i + 1)
                                      + [Frame(packets[i + 1].pts, Duration(packets, i + 1), packets[i + 1].data)];
    assert forall k | 0 <= k < |Entries(packets, i + 2)| :: FinalLog(packets)[k] == Entries(packets, i + 2)[k];
  }

  /**
   How long each frame lasts: up to the next packet when that is a data packet, 100000 for the last packet,
   and otherwise what the packet came with.
   */
  lemma FrameDurations(packets: seq<Packet>, i: nat)
    requires 0 < i < |packets| && packets[0].IsConfig() && !packets[i].IsConfig()
    ensures var log, at := FinalLog(packets), |Entries(packets, i)|;
            && at < |log| && log[at].Frame? && log[at].data == packets[i].data
            && log[at].duration ==
               if i + 1 == |packets| then 100000
               else if packets[i + 1].IsConfig() then packets[i].duration
               else packets[i + 1].pts - packets[i].pts
  {
    EntriesPrefix(packets, i + 1, |packets|);
    var upTo := Entries(packets, i + 1);
    assert upTo == Entries(packets, i) + [Frame(packets[i].pts, Duration(packets, i), packets[i].data)];
    assert FinalLog(packets)[..|upTo|] == upTo;
    assert upTo[|Entries(packets, i)|] == FinalLog(packets)[|Entries(packets, i)|];
  }

  // ---------- A recording in progress ----------

  /** The fields once `packets` have been received: the last is held back, the others are written. */
  ghost predicate InProgress(f: Fields, packets: seq<Packet>) {
    && f.previous == (if packets == [] then None else Some(packets[|packets| - 1]))
    && f.log == LogSoFar(packets)
    && (f.headerWritten <==> |packets| >= 2)
    && (|packets| >= 2 ==> packets[0].IsConfig())
  }

  /** Receiving one more packet fails only on a muxer error, or when the first packet is not a config packet. */
  lemma AdvanceKeepsProgress(f: Fields, packets: seq<Packet>, rec: Packet, io: bool)
    requires InProgress(f, packets)
    ensures var (g, ok) := Advanced(f, rec, io);
            && (ok ==> InProgress(g, packets + [rec]))
            && (!ok ==> packets != [] && g.log == LogSoFar(packets) && (io ==> !packets[0].IsConfig()))
            && (packets != [] && !packets[0].IsConfig() ==> !ok)
  {
    if packets != [] {
      LogSoFarAdvances(packets, rec);
    }
  }

  lemma FinishCompletes(f: Fields, packets: seq<Packet>, io: bool)
    requires InProgress(f, packets)
    ensures var log := Finished(f, io).log;
            if io then log == FinalLog(packets) else log == FinalLog(packets) || log == LogSoFar(packets)
  {
  }

  // ---------- The object ----------

  datatype Outcome = Wait | Finish | Took(rec: Node<Packet>)

  class Recorder {
    const queue: Queue<Packet>
    var previous: Node?<Packet>
    var stopped: bool
    var failed: bool
    var headerWritten: bool
    // What the muxer has been given; stands for the file.
    var log: seq<Entry>

    ghost predicate Valid()
      reads this, queue, queue.nodes
    {
      queue.Valid() && (previous != null ==> previous !in queue.nodes)
    }

    ghost function View(): Fields
      reads this, queue, queue.nodes, previous
    {
      Fields(Values(queue.nodes), stopped, failed,
             if previous == null then None else Some(previous.value), headerWritten, log)
    }

    constructor ()
      ensures Valid() && View() == INITIAL && fresh(queue)
    {
      queue := new Queue<Packet>();
      previous, stopped, failed, headerWritten, log := null, false, false, false, [];
    }

    /** `locked` is whether the mutex is still held on return: neither refusal unlocks it. */
    method Push(packet: Packet, memory: bool) returns (ok: bool, locked: bool)
      requires Valid() && !stopped
      modifies queue, (if queue.nodes == [] then {} else {queue.nodes[|queue.nodes| - 1]})`next
      ensures Valid()
      ensures (View(), ok) == Pushed(old(View()), packet, memory) && locked == !ok
    {
      ok, locked := false, true;
      if failed {
        return;
      }
      if !memory {
        return;
      }
      var rec := new Node<Packet>(packet);
      SameValues(queue.nodes);
      queue.Push(rec);
      ok, locked := true, false;
    }

    method Stop()
      requires Valid()
      modifies this`stopped
      ensures Valid() && View() == old(View()).(stopped := true)
    {
      stopped := true;
    }

    /** One evaluation of the wait loop's guard and, unless it says to wait, the rest of the section. */
    method Acquire() returns (outcome: Outcome)
      requires Valid()
      modifies queue
      ensures Valid()
      ensures outcome.Wait? <==> !stopped && old(queue.nodes) == []
      ensures outcome.Finish? <==> stopped && old(queue.nodes) == []
      ensures !outcome.Took? ==> View() == old(View())
      ensures outcome.Took? ==>
                && outcome.rec == old(queue.nodes[0]) && outcome.rec !in queue.nodes
                && queue.nodes == old(queue.nodes[1..])
                && outcome.rec.value == old(View()).queue[0]
                && View() == old(View()).(queue := old(View()).queue[1..])
    {
      if !stopped && queue.IsEmpty() {
        return Wait;
      }
      if stopped && queue.IsEmpty() {
        return Finish;
      }
      var rec := queue.Take();
      return Took(rec);
    }

    method Write(packet: Packet, io: bool) returns (ok: bool)
      requires Valid()
      modifies this`headerWritten, this`log
      ensures Valid()
      ensures (View(), ok) == Written(old(View()), packet, io)
    {
      if !headerWritten {
        if !packet.IsConfig() {
          return false;
        }
        if !io {
          return false;
        }
        log := log + [Header(packet.data)];
        headerWritten := true;
        return true;
      }
      if packet.IsConfig() {
        return true;
      }
      if io {
        log := log + [Frame(packet.pts, packet.duration, packet.data)];
      }
      return io;
    }

    /** What follows the section that took `rec`: no lock is held. */
    method Advance(rec: Node<Packet>, io: bool) returns (ok: bool)
      requires Valid() && rec !in queue.nodes && rec != previous
      modifies this`previous, this`headerWritten, this`log, previous
      ensures Valid() && previous == rec
      ensures (View(), ok) == Advanced(old(View()), old(rec.value), io)
    {
      var held := previous;
      previous := rec;
      if held == null {
        return true;
      }
      if !rec.value.IsConfig() && !held.value.IsConfig() {
        held.value := held.value.(duration := rec.value.pts - held.value.pts);
      }
      SameValues(queue.nodes);
      ok := Write(held.value, io);
    }

    /** The failure section: the loop is RecorderQueueClear. */
    method Fail()
      requires Valid()
      modifies this`failed, queue
      ensures Valid() && View() == Failed(old(View()))
    {
      failed := true;
      while !queue.IsEmpty()
        invariant Valid() && failed
        invariant forall node | node in queue.nodes :: node in old(queue.nodes)
        decreases |queue.nodes|
      {
        var rec := queue.Take();
      }
    }

    method WriteLast(io: bool)
      requires Valid()
      modifies this`headerWritten, this`log, previous
      ensures Valid() && View().log == Finished(old(View()), io).log
      ensures View().headerWritten == Finished(old(View()), io).headerWritten
      ensures queue.nodes == old(queue.nodes)
    {
      var last := previous;
      if last != null {
        last.value := last.value.(duration := LAST_DURATION);
        SameValues(queue.nodes);
        var ok := Write(last.value, io);
      }
    }

    /** What the thread does with a packet it took: a muxer error ends the recording and drops the queue. */
    method Handle(ghost taken: seq<Packet>, rec: Node<Packet>, io: bool) returns (ok: bool)
      requires Valid() && !failed && InProgress(View(), taken) && rec !in queue.nodes && rec != previous
      modifies this`previous, this`failed, this`headerWritten, this`log, queue, previous
      ensures Valid() && previous == rec && failed == !ok
      ensures ok ==>
                && queue.nodes == old(queue.nodes) && View().queue == old(View()).queue
                && InProgress(View(), taken + [old(rec.value)])
      ensures !ok ==>
                && queue.nodes == [] && taken != [] && log == LogSoFar(taken)
                && (io ==> !taken[0].IsConfig())
    {
      AdvanceKeepsProgress(View(), taken, rec.value, io);
      ok := Advance(rec, io);
      if !ok {
        Fail();
      }
    }

    /** One turn of the thread's loop once the recorder is stopped. `taken` are the packets received so far. */
    method HandleNext(ghost taken: seq<Packet>, io: bool) returns (ended: bool)
      requires Valid() && stopped && !failed && InProgress(View(), taken)
      modifies this`previous, this`failed, this`headerWritten, this`log, queue, previous
      ensures Valid() && stopped
      ensures !ended ==>
                && !failed && old(queue.nodes) != [] && queue.nodes == old(queue.nodes[1..])
                && View().queue == old(View()).queue[1..]
                && InProgress(View(), taken + [old(View()).queue[0]])
      ensures ended ==> queue.nodes == []
      ensures previous == old(previous) || previous in old(queue.nodes)
      ensures ended ==> log <= FinalLog(taken + old(View()).queue)
      ensures ended && io ==> log == FinalLog(taken + old(View()).queue)
    {
      ghost var f := View();
      LogSoFarPrefix(taken, f.queue);
      var outcome := Acquire();
      if outcome.Finish? {
        assert taken + f.queue == taken;
        FinishCompletes(f, taken, io);
        WriteLast(io);
        return true;
      }
      var ok := Handle(taken, outcome.rec, io);
      return !ok;
    }

    /**
     The thread's loop once the recorder is stopped, when nothing is pushed any more. `before` are the
     packets already received; the i-th packet handled has the muxer outcome io(i).
     */
    method RunRecorder(ghost before: seq<Packet>, io: nat -> bool)
      requires Valid() && stopped && !failed && InProgress(View(), before)
      modifies this`previous, this`failed, this`headerWritten, this`log, queue, queue.nodes, previous
      ensures Valid() && queue.nodes == []
      ensures log <= FinalLog(before + old(View()).queue)
      ensures (forall i :: io(i)) ==> log == FinalLog(before + old(View()).queue)
    {
      ghost var all, taken := before + View().queue, before;
      var ended, handled := false, 0;
      while !ended
        invariant Valid() && stopped
        invariant forall node | node in queue.nodes :: node in old(queue.nodes)
        invariant previous == old(previous) || previous in old(queue.nodes)
        invariant !ended ==> !failed && InProgress(View(), taken) && taken + View().queue == all
        invariant ended ==> queue.nodes == [] && log <= FinalLog(all)
        invariant ended && (forall i :: io(i)) ==> log == FinalLog(all)
        decreases !ended, |queue.nodes|
      {
        ghost var rest := View().queue;
        ended := HandleNext(taken, io(handled));
        if !ended {
          MoveHead(taken, rest);
          taken := taken + [rest[0]];
        }
        handled := handled + 1;
      }
    }
  }
}
