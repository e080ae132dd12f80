/** The video stream: framing, and merging of config packets (src/video/stream.cpp). */
module Streaming {
  import opened Common
  import opened BufferUtil
  import opened Packets

  const HEADER_SIZE := 12
  const NO_PTS: uint64 := 0xFFFF_FFFF_FFFF_FFFF

  // av_new_packet refuses to make packets of this size or more: INT_MAX less the padding of input buffers.
  const PACKET_LIMIT := 0x7FFF_FFFF - 64

  // ---------- Framing ----------

  /** What the assertions allow in a header: a timestamp without its top bit, or none, and a size, not zero. */
  predicate Headed(p: Packet) {
    (p.IsConfig() || 0 <= p.pts < 0x8000_0000_0000_0000) && p.duration == 0 && 1 <= |p.data| < 0x1_0000_0000
  }

  predicate Sendable(p: Packet) {
    Headed(p) && |p.data| < PACKET_LIMIT
  }

  function EncodePacket(p: Packet): seq<byte>
    requires Headed(p)
  {
    Be64(if p.IsConfig() then NO_PTS else p.pts) + Be32(|p.data|) + p.data
  }

  predicate AllSendable(packets: seq<Packet>) {
    forall i | 0 <= i < |packets| :: Sendable(packets[i])
  }

  function EncodePackets(packets: seq<Packet>): seq<byte>
    requires AllSendable(packets)
  {
    if packets == [] then [] else EncodePacket(packets[0]) + EncodePackets(packets[1..])
  }

  /** The outcome of ReceivePacket on what the socket still delivers. */
  datatype Received = Got(packet: Packet, rest: seq<byte>) | EndOfStream | AssertionFails

  function ReceiveOne(s: seq<byte>): Received {
    if |s| < HEADER_SIZE then EndOfStream
    else
      var pts, len := Read64be(s), Read32be(s[8..]);
      if (pts != NO_PTS && pts >= 0x8000_0000_0000_0000) || len == 0 then AssertionFails
      else if len >= PACKET_LIMIT || |s| < HEADER_SIZE + len then EndOfStream
      else
        Got(Packet(if pts == NO_PTS then AV_NOPTS_VALUE else pts, 0, s[HEADER_SIZE..HEADER_SIZE + len]),
            s[HEADER_SIZE + len..])
  }

  function ReceiveAll(s: seq<byte>): seq<Packet>
    decreases |s|
  {
    var r := ReceiveOne(s);
    if r.Got? then [r.packet] + ReceiveAll(r.rest) else []
  }

  lemma HeaderOf(p: Packet, rest: seq<byte>)
    requires Headed(p)
    ensures var s := EncodePacket(p) + rest;
            && |EncodePacket(p)| == HEADER_SIZE + |p.data|
            && Read64be(s) == (if p.IsConfig() then NO_PTS else p.pts)
            && Read32be(s[8..]) == |p.data|
  {
    var pts: uint64 := if p.IsConfig() then NO_PTS else p.pts;
    var s := EncodePacket(p) + rest;
    var afterPts := Be32(|p.data|) + (p.data + rest);
    assert s == Be64(pts) + afterPts && s[8..] == afterPts;
    RoundTrip64(pts, afterPts);
    RoundTrip32(|p.data|, p.data + rest);
  }

  /**
   A packet is received as it was sent, whatever follows, exactly when it is not too large; a larger one
   ends the stream. No valid timestamp is mistaken for a config packet.
   */
  lemma PacketRoundTrip(p: Packet, rest: seq<byte>)
    requires Headed(p)
    ensures ReceiveOne(EncodePacket(p) + rest) == if |p.data| < 0x7FFF_FFBF then Got(p, rest) else EndOfStream
  {
    HeaderOf(p, rest);
    var s := EncodePacket(p) + rest;
    var n := HEADER_SIZE + |p.data|;
    assert s[HEADER_SIZE..n] == p.data && s[n..] == rest;
  }

  lemma HeaderReadBack(s: seq<byte>)
    requires |s| >= HEADER_SIZE
    ensures s[..HEADER_SIZE] == Be64(Read64be(s)) + Be32(Read32be(s[8..]))
  {
    var first, second := s[..8], s[8..12];
    SameReads(s, first);
    SameReads(s[8..], second);
    WriteReadBack64(first);
    WriteReadBack32(second);
    assert s[..HEADER_SIZE] == first + second;
  }

  /** The header: eight bytes of timestamp, all ones for a config packet, and four of size, most significant first. */
  lemma WireFormat(p: Packet, pts: seq<byte>, size: seq<byte>)
    requires Headed(p) && |pts| == 8 && |size| == 4
    requires p.IsConfig() ==> forall i | 0 <= i < 8 :: pts[i] == 0xFF
    requires !p.IsConfig() ==> Be64(p.pts) == pts
    requires Be32(|p.data|) == size
    ensures EncodePacket(p) == pts + size + p.data
  {
    if p.IsConfig() {
      BigEndian64(0xFFFF_FFFF, 0xFFFF_FFFF);
      BigEndian32(0xFF, 0xFF, 0xFF, 0xFF);
      var ones := Be32(0xFFFF_FFFF);
      assert ones == [0xFF, 0xFF, 0xFF, 0xFF] && Be64(NO_PTS) == ones + ones;
      assert pts == Be64(NO_PTS);
    }
  }

  /** Nothing else is received: what was read is the encoding of the packet. */
  lemma ReceivedIsEncoded(s: seq<byte>)
    requires ReceiveOne(s).Got?
    ensures var p := ReceiveOne(s).packet; Sendable(p) && s == EncodePacket(p) + ReceiveOne(s).rest
  {
    var Got(p, rest) := ReceiveOne(s);
    HeaderReadBack(s);
    var n := HEADER_SIZE + |p.data|;
    assert s == s[..HEADER_SIZE] + s[HEADER_SIZE..n] + s[n..];
  }

  /** A packet cut anywhere is the end of the stream. */
  lemma CutPacketEndsStream(p: Packet, k: nat)
    requires Headed(p) && k < |EncodePacket(p)|
    ensures ReceiveOne(EncodePacket(p)[..k]) == EndOfStream
  {
    HeaderOf(p, []);
    var whole := EncodePacket(p);
    assert whole + [] == whole;
    if HEADER_SIZE <= k {
      var s := whole[..k];
      assert s[8..][..4] == whole[8..][..4];
      SameReads(s, whole);
      SameReads(s[8..], whole[8..]);
    }
  }

  /** Reading depends on the bytes read only. */
  lemma SameReads(a: seq<byte>, b: seq<byte>)
    requires |a| >= 4 && |b| >= 4 && a[..4] == b[..4]
    ensures Read32be(a) == Read32be(b)
    ensures |a| >= 8 && |b| >= 8 && a[..8] == b[..8] ==> Read64be(a) == Read64be(b)
  {
    assert forall i | 0 <= i < 4 :: a[i] == a[..4][i] && b[i] == b[..4][i];
    if |a| >= 8 && |b| >= 8 && a[..8] == b[..8] {
      assert forall i | 0 <= i < 8 :: a[i] == a[..8][i] && b[i] == b[..8][i];
    }
  }

  /** How many of the packets are whole in the first `k` bytes of their encoding. */
  function WholeBy(packets: seq<Packet>, k: nat): (whole: nat)
    ensures whole <= |packets|
  {
    if packets == [] || k < HEADER_SIZE + |packets[0].data| then 0
    else 1 + WholeBy(packets[1..], k - HEADER_SIZE - |packets[0].data|)
  }

  /** The number of bytes the packets take on the wire. */
  function WireLength(packets: seq<Packet>): nat {
    if packets == [] then 0 else HEADER_SIZE + |packets[0].data| + WireLength(packets[1..])
  }

  lemma {:induction false} EncodedLength(packets: seq<Packet>)
    requires AllSendable(packets)
    ensures |EncodePackets(packets)| == WireLength(packets)
  {
    if packets == [] {
    } else {
      HeaderOf(packets[0], []);
      EncodedLength(packets[1..]);
    }
  }

  lemma {:induction false} WholeByIsTheMost(packets: seq<Packet>, k: nat)
    ensures var whole := WholeBy(packets, k);
            && WireLength(packets[..whole]) <= k
            && (whole < |packets| ==> k < WireLength(packets[..whole + 1]))
    ensures WireLength(packets) <= k ==> WholeBy(packets, k) == |packets|
  {
    if packets == [] {
    } else {
      var size := HEADER_SIZE + |packets[0].data|;
      if k < size {
        assert packets[..1][1..] == [];
      } else {
        WholeByIsTheMost(packets[1..], k - size);
        var whole := WholeBy(packets[1..], k - size);
        assert packets[..whole + 1][1..] == packets[1..][..whole];
        if whole + 1 < |packets| {
          assert packets[..whole + 2][1..] == packets[1..][..whole + 1];
        }
      }
    }
  }

  /** Whole packets are received as they are, up to where no packet can be received. */
  lemma {:induction false} ReceivesUpTo(packets: seq<Packet>, end: seq<byte>)
    requires AllSendable(packets) && ReceiveOne(end).EndOfStream?
    ensures ReceiveAll(EncodePackets(packets) + end) == packets
  {
    if packets == [] {
      assert EncodePackets(packets) + end == end;
    } else {
      var head, tail := EncodePacket(packets[0]), EncodePackets(packets[1..]);
      Reassociate(head, tail, end);
      ReceiveAllStep(packets[0], tail + end);
      ReceivesUpTo(packets[1..], end);
    }
  }

  lemma ReceiveAllStep(p: Packet, rest: seq<byte>)
    requires Sendable(p)
    ensures ReceiveAll(EncodePacket(p) + rest) == [p] + ReceiveAll(rest)
  {
    PacketRoundTrip(p, rest);
  }

  /** The first k bytes are those of the whole packets, then nothing or a packet cut short. */
  lemma {:induction false} CutAt(packets: seq<Packet>, k: nat) returns (end: seq<byte>)
    requires AllSendable(packets) && k <= |EncodePackets(packets)|
    ensures EncodePackets(packets)[..k] == EncodePackets(packets[..WholeBy(packets, k)]) + end
    ensures ReceiveOne(end).EndOfStream?
  {
    if packets == [] {
      end := [];
    } else {
      var head, tail := EncodePacket(packets[0]), EncodePackets(packets[1..]);
      HeaderOf(packets[0], []);
      TakeOfConcat(head, tail, k);
      if k < |head| {
        CutPacketEndsStream(packets[0], k);
        end := head[..k];
      } else {
        end := CutAt(packets[1..], k - |head|);
        var whole := packets[1..][..WholeBy(packets[1..], k - |head|)];
        assert packets[..1 + |whole|][1..] == whole;
        Reassociate(head, EncodePackets(whole), end);
      }
    }
  }

  /** Cutting the stream at any byte keeps exactly the packets that were whole by then. */
  lemma ReceivesWholePackets(packets: seq<Packet>, k: nat)
    requires AllSendable(packets) && k <= |EncodePackets(packets)|
    ensures ReceiveAll(EncodePackets(packets)[..k]) == packets[..WholeBy(packets, k)]
  {
    var end := CutAt(packets, k);
    ReceivesUpTo(packets[..WholeBy(packets, k)], end);
  }

  lemma FramingRoundTrip(packets: seq<Packet>)
    requires AllSendable(packets)
    ensures ReceiveAll(EncodePackets(packets)) == packets
  {
    var s := EncodePackets(packets);
    EncodedLength(packets);
    WholeByIsTheMost(packets, |s|);
    ReceivesWholePackets(packets, |s|);
    assert s[..|s|] == s && packets[..|packets|] == packets;
  }

  /** No assertion of ReceivePacket fails on the stream. */
  predicate WellFramed(s: seq<byte>)
    decreases |s|
  {
    var r := ReceiveOne(s);
    !r.AssertionFails? && (r.Got? ==> WellFramed(r.rest))
  }

  lemma WellFramedStep(p: Packet, rest: seq<byte>)
    requires Sendable(p) && WellFramed(rest)
    ensures WellFramed(EncodePacket(p) + rest)
  {
    PacketRoundTrip(p, rest);
  }

  lemma {:induction false} WellFramedUpTo(packets: seq<Packet>, end: seq<byte>)
    requires AllSendable(packets) && ReceiveOne(end).EndOfStream?
    ensures WellFramed(EncodePackets(packets) + end)
  {
    if packets == [] {
      assert EncodePackets(packets) + end == end;
    } else {
      var head, tail := EncodePacket(packets[0]), EncodePackets(packets[1..]);
      Reassociate(head, tail, end);
      WellFramedUpTo(packets[1..], end);
      WellFramedStep(packets[0], tail + end);
    }
  }

  /** What the server sends meets the assertions, wherever the connection is cut. */
  lemma EncodedIsWellFramed(packets: seq<Packet>, k: nat)
    requires AllSendable(packets) && k <= |EncodePackets(packets)|
    ensures WellFramed(EncodePackets(packets)[..k]) && WellFramed(EncodePackets(packets))
  {
    var end := CutAt(packets, k);
    WellFramedUpTo(packets[..WholeBy(packets, k)], end);
    WellFramedUpTo(packets, []);
    assert EncodePackets(packets) + [] == EncodePackets(packets);
  }

  // ---------- Merging ----------

  /** What the world answers while a packet is handled: memory for it, memory to merge it, and the peers. */
  datatype Answers = Answers(memory: bool, growth: bool, decoder: bool, recorder: bool)

  const ALL_YES := Answers(true, true, true, true)

  /** The stream's pending config bytes, and what it has handed to the decoder and the recorder. */
  datatype Fields = Fields(
    hasDecoder: bool,
    hasRecorder: bool,
    pending: Option<seq<byte>>,
    toDecoder: seq<Packet>,
    toRecorder: seq<Packet>)

  function Init(hasDecoder: bool, hasRecorder: bool): Fields {
    Fields(hasDecoder, hasRecorder, None, [], [])
  }

  function Concatenated(f: Fields, p: Packet): seq<byte> {
    if f.pending.Some? then f.pending.value + p.data else p.data
  }

  /** PushPacket. */
  function Pushed(f: Fields, p: Packet, a: Answers): (Fields, bool) {
    if (f.pending.Some? || p.IsConfig()) && !a.growth then (f, false)
    else if p.IsConfig() then
      var g := f.(pending := Some(Concatenated(f, p)));
      if f.hasRecorder then (g.(toRecorder := f.toRecorder + [p]), a.recorder) else (g, true)
    else
      var merged := if f.pending.Some? then Packet(p.pts, 0, Concatenated(f, p)) else p;
      var g := f.(pending := None);
      var h := if f.hasDecoder then g.(toDecoder := f.toDecoder + [merged]) else g;
      if f.hasDecoder && !a.decoder then (h, false)
      else if f.hasRecorder then (h.(toRecorder := f.toRecorder + [merged]), a.recorder)
      else (h, true)
  }

  /** The fields after a list of packets was pushed without error. */
  function Fed(hasDecoder: bool, hasRecorder: bool, packets: seq<Packet>): Fields {
    if packets == [] then Init(hasDecoder, hasRecorder)
    else Pushed(Fed(hasDecoder, hasRecorder, packets[..|packets| - 1]), packets[|packets| - 1], ALL_YES).0
  }

  /** The position after the last data packet. */
  function AfterLastData(packets: seq<Packet>): (n: nat)
    ensures n <= |packets|
    ensures forall i | n <= i < |packets| :: packets[i].IsConfig()
    ensures n > 0 ==> !packets[n - 1].IsConfig()
  {
    if packets == [] then 0
    else if packets[|packets| - 1].IsConfig() then AfterLastData(packets[..|packets| - 1])
    else |packets|
  }

  /** The payloads of packets[from..to], concatenated. */
  function Joined(packets: seq<Packet>, from: nat, to: nat): seq<byte>
    requires from <= to <= |packets|
  {
    Flatten(Payloads(packets[from..to]))
  }

  /** The j-th packet, a data packet, as the decoder must get it: led by the configs since the data packet before it. */
  function Merged(packets: seq<Packet>, j: nat): Packet
    requires j < |packets|
  {
    var from := AfterLastData(packets[..j]);
    if from == j then packets[j] else Packet(packets[j].pts, 0, Joined(packets, from, j + 1))
  }

  function MergedAll(packets: seq<Packet>): seq<Packet> {
    if packets == [] then []
    else
      var n := |packets| - 1;
      MergedAll(packets[..n]) + if packets[n].IsConfig() then [] else [Merged(packets, n)]
  }

  /** What the recorder must get: config packets verbatim and the merged data packets. */
  function RecorderPackets(packets: seq<Packet>): seq<Packet> {
    if packets == [] then []
    else
      var n := |packets| - 1;
      RecorderPackets(packets[..n]) + [if packets[n].IsConfig() then packets[n] else Merged(packets, n)]
  }

  lemma JoinedGrows(packets: seq<Packet>, from: nat)
    requires from < |packets|
    ensures var n := |packets| - 1;
            Joined(packets, from, n + 1) == Joined(packets[..n], from, n) + packets[n].data
  {
    var n := |packets| - 1;
    assert packets[from..n + 1] == packets[..n][from..n] + [packets[n]];
    assert Payloads(packets[from..n + 1]) == Payloads(packets[..n][from..n]) + [packets[n].data];
    FlattenPush(Payloads(packets[..n][from..n]), packets[n].data);
  }

  /**
   The decoder has got exactly the merged data packets, the recorder those and the configs verbatim, and
   pending holds the configs since the last data packet.
   */
  ghost predicate IsMerged(f: Fields, packets: seq<Packet>) {
    var from := AfterLastData(packets);
    && f.toDecoder == (if f.hasDecoder then MergedAll(packets) else [])
    && f.toRecorder == (if f.hasRecorder then RecorderPackets(packets) else [])
    && f.pending == (if from == |packets| then None else Some(Joined(packets, from, |packets|)))
  }

  lemma ConcatenatedIsJoined(f: Fields, packets: seq<Packet>)
    requires packets != [] && IsMerged(f, packets[..|packets| - 1])
    ensures Concatenated(f, packets[|packets| - 1]) == Joined(packets, AfterLastData(packets[..|packets| - 1]), |packets|)
  {
    var n := |packets| - 1;
    var from := AfterLastData(packets[..n]);
    JoinedGrows(packets, from);
    if from == n {
      assert Joined(packets[..n], n, n) == [];
    }
  }

  lemma PushMerges(f: Fields, packets: seq<Packet>)
    requires packets != [] && IsMerged(f, packets[..|packets| - 1])
    ensures IsMerged(Pushed(f, packets[|packets| - 1], ALL_YES).0, packets)
  {
    ConcatenatedIsJoined(f, packets);
    var n := |packets| - 1;
    if packets[n].IsConfig() {
      assert MergedAll(packets) == MergedAll(packets[..n]);
    } else {
      assert Merged(packets, n) == if f.pending.Some? then Packet(packets[n].pts, 0, Concatenated(f, packets[n])) else packets[n];
    }
  }

  lemma {:induction false} FedIsMerged(hasDecoder: bool, hasRecorder: bool, packets: seq<Packet>)
    ensures var f := Fed(hasDecoder, hasRecorder, packets);
            f.hasDecoder == hasDecoder && f.hasRecorder == hasRecorder && IsMerged(f, packets)
  {
    if packets == [] {
    } else {
      var n := |packets| - 1;
      FedIsMerged(hasDecoder, hasRecorder, packets[..n]);
      PushMerges(Fed(hasDecoder, hasRecorder, packets[..n]), packets);
    }
  }

  function PendingBytes(f: Fields): seq<byte> {
    if f.pending.Some? then f.pending.value else []
  }

  lemma PayloadsPush(packets: seq<Packet>, p: Packet)
    ensures Flatten(Payloads(packets + [p])) == Flatten(Payloads(packets)) + p.data
  {
    assert Payloads(packets + [p]) == Payloads(packets) + [p.data];
    FlattenPush(Payloads(packets), p.data);
  }

  lemma PushConservesBytes(f: Fields, p: Packet)
    requires f.hasDecoder
    ensures var g := Pushed(f, p, ALL_YES).0;
            && g.hasDecoder
            && Flatten(Payloads(g.toDecoder)) + PendingBytes(g)
               == Flatten(Payloads(f.toDecoder)) + PendingBytes(f) + p.data
  {
    var given := Flatten(Payloads(f.toDecoder));
    Reassociate(given, PendingBytes(f), p.data);
    assert PendingBytes(f) + p.data == Concatenated(f, p);
    if !p.IsConfig() {
      var merged := if f.pending.Some? then Packet(p.pts, 0, Concatenated(f, p)) else p;
      PayloadsPush(f.toDecoder, merged);
    }
  }

  /** No byte is lost, added or moved: what the decoder was given and what is pending make up what was received. */
  lemma {:induction false} BytesAreConserved(hasRecorder: bool, packets: seq<Packet>)
    ensures var f := Fed(true, hasRecorder, packets);
            && f.hasDecoder
            && Flatten(Payloads(f.toDecoder)) + PendingBytes(f) == Flatten(Payloads(packets))
  {
    if packets == [] {
    } else {
      var n := |packets| - 1;
      BytesAreConserved(hasRecorder, packets[..n]);
      PushConservesBytes(Fed(true, hasRecorder, packets[..n]), packets[n]);
      PayloadsPush(packets[..n], packets[n]);
      assert packets[..n] + [packets[n]] == packets;
    }
  }

  /** When a push succeeds: every answer it asks for is yes. A decoder that refuses keeps the packet from the recorder. */
  lemma PushSucceedsIff(f: Fields, p: Packet, a: Answers)
    ensures var (g, ok) := Pushed(f, p, a);
            && (ok <==>
                  && (f.pending.Some? || p.IsConfig() ==> a.growth)
                  && (f.hasDecoder && !p.IsConfig() ==> a.decoder)
                  && (f.hasRecorder ==> a.recorder))
            && (f.hasDecoder && !p.IsConfig() && !a.decoder ==> g.toRecorder == f.toRecorder)
  {
  }

  /** A push answered by errors hands over no more than one answered by none; one that succeeds, exactly as much. */
  lemma ErrorsOnlyShorten(f: Fields, p: Packet, a: Answers)
    ensures var (g, ok) := Pushed(f, p, a);
            var best := Pushed(f, p, ALL_YES).0;
            && (ok ==> g == best) && (a == ALL_YES ==> ok)
            && g.toDecoder <= best.toDecoder && g.toRecorder <= best.toRecorder
  {
  }

  lemma {:induction false} FedGrows(hasDecoder: bool, hasRecorder: bool, packets: seq<Packet>, n: nat)
    requires n <= |packets|
    ensures var f, g := Fed(hasDecoder, hasRecorder, packets[..n]), Fed(hasDecoder, hasRecorder, packets);
            f.toDecoder <= g.toDecoder && f.toRecorder <= g.toRecorder
    decreases |packets|
  {
    if n == |packets| {
      assert packets[..n] == packets;
    } else {
      assert packets[..|packets| - 1][..n] == packets[..n];
      FedGrows(hasDecoder, hasRecorder, packets[..|packets| - 1], n);
    }
  }

  /** One more packet pushed: on success the merging goes on; in any case the peers have prefixes of what they get in the end. */
  lemma FedOneMore(f: Fields, packets: seq<Packet>, p: Packet, later: seq<Packet>, a: Answers)
    requires f == Fed(f.hasDecoder, f.hasRecorder, packets)
    ensures var (g, ok) := Pushed(f, p, a);
            var all := Fed(f.hasDecoder, f.hasRecorder, packets + [p] + later);
            && (ok ==> g == Fed(f.hasDecoder, f.hasRecorder, packets + [p])) && (a == ALL_YES ==> ok)
            && g.toDecoder <= all.toDecoder && g.toRecorder <= all.toRecorder
  {
    var next := packets + [p];
    assert next[..|packets|] == packets;
    assert (next + later)[..|next|] == next;
    ErrorsOnlyShorten(f, p, a);
    FedGrows(f.hasDecoder, f.hasRecorder, next + later, |next|);
  }

  // ---------- The object ----------

  class VideoStream {
    const hasDecoder: bool
    const hasRecorder: bool
    // What the socket will still deliver.
    var incoming: seq<byte>
    var hasPending: bool
    var pending: seq<byte>
    // What was handed to the peers.
    var toDecoder: seq<Packet>
    var toRecorder: seq<Packet>

    ghost function View(): Fields
      reads this
    {
      Fields(hasDecoder, hasRecorder, if hasPending then Some(pending) else None, toDecoder, toRecorder)
    }

    constructor (incoming: seq<byte>, hasDecoder: bool, hasRecorder: bool)
      ensures this.incoming == incoming && View() == Init(hasDecoder, hasRecorder)
      ensures this.hasDecoder == hasDecoder && this.hasRecorder == hasRecorder
    {
      this.incoming, this.hasDecoder, this.hasRecorder := incoming, hasDecoder, hasRecorder;
      hasPending, pending, toDecoder, toRecorder := false, [], [], [];
    }

    /** net_recv_all: fewer bytes than asked for only at the end of the stream. */
    method Receive(len: nat) returns (bytes: seq<byte>)
      modifies this`incoming
      ensures bytes == old(incoming)[..if len <= |old(incoming)| then len else |old(incoming)|]
      ensures old(incoming) == bytes + incoming
    {
      var n := if len <= |incoming| then len else |incoming|;
      bytes := incoming[..n];
      incoming := incoming[n..];
    }

    /** `memory` is whether the packet can be allocated; `aborted`, whether an assertion on the header fails. */
    method ReceivePacket(memory: bool) returns (ok: bool, aborted: bool, packet: Packet)
      modifies this`incoming
      ensures ok <==> ReceiveOne(old(incoming)).Got? && memory
      ensures ok ==> Got(packet, incoming) == ReceiveOne(old(incoming))
      ensures aborted <==> ReceiveOne(old(incoming)).AssertionFails?
    {
      ok, aborted, packet := false, false, Packet(0, 0, []);
      ghost var s := incoming;
      var header := Receive(HEADER_SIZE);
      if |header| < HEADER_SIZE {
        return;
      }
      SameReads(header, s);
      SameReads(header[8..], s[8..]);
      var pts := Read64be(header);
      var len := Read32be(header[8..]);
      if (pts != NO_PTS && pts >= 0x8000_0000_0000_0000) || len == 0 {
        aborted := true;
        return;
      }
      if len >= PACKET_LIMIT || !memory {
        return;
      }
      var data := Receive(len);
      if |data| < len {
        return;
      }
      packet := Packet(if pts == NO_PTS then AV_NOPTS_VALUE else pts, 0, data);
      assert s[HEADER_SIZE..HEADER_SIZE + len] == data && s[HEADER_SIZE + len..] == incoming;
      ok := true;
    }

    method ProcessConfigPacket(packet: Packet, recorderOk: bool) returns (ok: bool)
      modifies this`toRecorder
      ensures toRecorder == if hasRecorder then old(toRecorder) + [packet] else old(toRecorder)
      ensures ok == (hasRecorder ==> recorderOk)
    {
      if hasRecorder {
        toRecorder := toRecorder + [packet];
        return recorderOk;
      }
      ok := true;
    }

    method ProcessFrame(packet: Packet, decoderOk: bool, recorderOk: bool) returns (ok: bool)
      modifies this`toDecoder, this`toRecorder
      ensures toDecoder == if hasDecoder then old(toDecoder) + [packet] else old(toDecoder)
      ensures toRecorder ==
              if hasRecorder && (hasDecoder ==> decoderOk) then old(toRecorder) + [packet] else old(toRecorder)
      ensures ok == ((hasDecoder ==> decoderOk) && (hasRecorder ==> recorderOk))
    {
      if hasDecoder {
        toDecoder := toDecoder + [packet];
        if !decoderOk {
          return false;
        }
      }
      if hasRecorder {
        toRecorder := toRecorder + [packet];
        return recorderOk;
      }
      ok := true;
    }

    method PushPacket(packet: Packet, a: Answers) returns (ok: bool)
      modifies this`hasPending, this`pending, this`toDecoder, this`toRecorder
      ensures (View(), ok) == Pushed(old(View()), packet, a)
    {
      var isConfig := packet.IsConfig();
      var toSend := packet;
      if hasPending || isConfig {
        if hasPending {
          if !a.growth {
            return false;
          }
          pending := pending + packet.data;
        } else {
          if !a.growth {
            return false;
          }
          pending := packet.data;
          hasPending := true;
        }
        if !isConfig {
          toSend := Packet(packet.pts, 0, pending);
        }
      }
      if isConfig {
        ok := ProcessConfigPacket(toSend, a.recorder);
      } else {
        ok := ProcessFrame(toSend, a.decoder, a.recorder);
        hasPending := false;
      }
    }

    /** One turn of the receive loop on `stream`, of which `packets` were received. */
    method Turn(ghost stream: seq<Packet>, ghost packets: seq<Packet>, a: Answers)
        returns (more: bool, aborted: bool, ghost received: seq<Packet>)
      requires View() == Fed(hasDecoder, hasRecorder, packets)
      requires packets + ReceiveAll(incoming) == stream
      modifies this
      ensures more ==>
                && !aborted && |incoming| < |old(incoming)| && (WellFramed(incoming) <==> WellFramed(old(incoming)))
                && View() == Fed(hasDecoder, hasRecorder, received)
                && received + ReceiveAll(incoming) == stream
      ensures !more ==>
                var all := Fed(hasDecoder, hasRecorder, stream);
                && toDecoder <= all.toDecoder && toRecorder <= all.toRecorder
                && (aborted ==> !WellFramed(old(incoming)))
                && (a == ALL_YES ==> View() == all && (aborted <==> !WellFramed(old(incoming))))
    {
      received := packets;
      ghost var rest := ReceiveAll(incoming);
      var ok, packet;
      ok, aborted, packet := ReceivePacket(a.memory);
      if !ok {
        if a == ALL_YES {
          assert packets + [] == packets;
        } else {
          assert stream[..|packets|] == packets;
          FedGrows(hasDecoder, hasRecorder, stream, |packets|);
        }
        return false, aborted, received;
      }
      ghost var later := ReceiveAll(incoming);
      assert rest == [packet] + later;
      received := packets + [packet];
      Reassociate(packets, [packet], later);
      FedOneMore(View(), packets, packet, later, a);
      more := PushPacket(packet, a);
    }

    /**
     The receive loop; answers(i) are those the i-th packet meets. It ends, and does not abort, on what
     EncodedIsWellFramed is about.
     */
    method RunStream(answers: nat -> Answers) returns (aborted: bool)
      requires View() == Init(hasDecoder, hasRecorder)
      modifies this
      ensures var all := Fed(hasDecoder, hasRecorder, ReceiveAll(old(incoming)));
              && toDecoder <= all.toDecoder && toRecorder <= all.toRecorder
              && ((forall i :: answers(i) == ALL_YES) ==> View() == all)
      ensures aborted ==> !WellFramed(old(incoming))
      ensures (forall i :: answers(i) == ALL_YES) ==> (aborted <==> !WellFramed(old(incoming)))
    {
      ghost var stream, framed := ReceiveAll(incoming), WellFramed(incoming);
      ghost var packets := [];
      var more, n := true, 0;
      aborted := false;
      while more
        invariant more ==>
                    && View() == Fed(hasDecoder, hasRecorder, packets)
                    && packets + ReceiveAll(incoming) == stream && (WellFramed(incoming) <==> framed)
        invariant !more ==>
                    var all := Fed(hasDecoder, hasRecorder, stream);
                    && toDecoder <= all.toDecoder && toRecorder <= all.toRecorder
                    && (aborted ==> !framed)
                    && ((forall i :: answers(i) == ALL_YES) ==> View() == all && (aborted <==> !framed))
        decreases more, |incoming|
      {
        more, aborted, packets := Turn(stream, packets, answers(n));
        n := n + 1;
      }
    }
  }
}
