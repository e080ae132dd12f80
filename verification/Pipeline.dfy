/** The stream feeding the recorder: from the bytes on the socket to the frames in the file. */
module Pipeline {
  import opened Common
  import opened Packets
  import opened Recording
  import RecorderThread
  import Streaming

  /** The data packets the recorder gets are the merged ones, in order, with the timestamps of the data packets received. */
  lemma {:induction false} RecorderGetsMergedPackets(packets: seq<Packet>)
    ensures |Streaming.RecorderPackets(packets)| == |packets|
    ensures DataPackets(Streaming.RecorderPackets(packets)) == Streaming.MergedAll(packets)
    ensures var merged, data := Streaming.MergedAll(packets), DataPackets(packets);
            |merged| == |data| && forall k | 0 <= k < |data| :: merged[k].pts == data[k].pts
    ensures packets != [] && packets[0].IsConfig() ==> Streaming.RecorderPackets(packets)[0] == packets[0]
  {
    if packets == [] {
    } else {
      var n := |packets| - 1;
      RecorderGetsMergedPackets(packets[..n]);
      var recorded := Streaming.RecorderPackets(packets);
      assert recorded[..n] == Streaming.RecorderPackets(packets[..n]);
      assert n > 0 ==> packets[..n][0] == packets[0];
    }
  }

  /** The recorder gets a packet for each one received, with its timestamp; config packets as they are. */
  lemma {:induction false} RecorderGetsEachPacket(packets: seq<Packet>, k: nat)
    requires k < |packets|
    ensures |Streaming.RecorderPackets(packets)| == |packets|
    ensures var p := Streaming.RecorderPackets(packets)[k];
            p.pts == packets[k].pts && (packets[k].IsConfig() ==> p == packets[k])
    decreases |packets|
  {
    var front, last := packets[..|packets| - 1], packets[|packets| - 1];
    var before := Streaming.RecorderPackets(front);
    if front == [] {
      assert before == [];
    } else {
      RecorderGetsEachPacket(front, if k < |front| then k else 0);
    }
    assert |before| == |front| && Streaming.RecorderPackets(packets)[..|front|] == before;
  }

  lemma MergedIsRecorded(packets: seq<Packet>)
    requires packets != [] && packets[0].IsConfig()
    ensures IsRecordingOf(FinalLog(Streaming.RecorderPackets(packets)), packets[0], Streaming.MergedAll(packets))
  {
    RecorderGetsMergedPackets(packets);
    var recorded := Streaming.RecorderPackets(packets);
    EntriesKeepData(recorded, |recorded|);
    assert recorded[..|recorded|] == recorded;
  }

  /**
   A stream that starts with a config packet, recorded without errors: the file's header is that
   packet, and after it come the frames the decoder got, in order: one per data packet of the stream,
   with its timestamp.
   */
  lemma RecordingKeepsEveryFrame(packets: seq<Packet>)
    requires Streaming.AllSendable(packets) && packets != [] && packets[0].IsConfig()
    ensures var fed := Streaming.Fed(true, true, Streaming.ReceiveAll(Streaming.EncodePackets(packets)));
            && IsRecordingOf(FinalLog(fed.toRecorder), packets[0], fed.toDecoder)
            && |fed.toDecoder| == |DataPackets(packets)|
            && forall k | 0 <= k < |fed.toDecoder| :: fed.toDecoder[k].pts == DataPackets(packets)[k].pts
  {
    RecorderGetsMergedPackets(packets);
    Streaming.FramingRoundTrip(packets);
    Streaming.FedIsMerged(true, true, packets);
    MergedIsRecorded(packets);
  }

  /**
   The same down to the threads: in any interleaving in which the recorder accepts what the stream hands
   it, and ends without a muxer error, that recording is what the file holds.
   */
  lemma FileHoldsEveryFrame(packets: seq<Packet>, actions: seq<RecorderThread.Action>)
    requires Streaming.AllSendable(packets) && packets != [] && packets[0].IsConfig()
    requires RecorderThread.IsRun(RecorderThread.START, actions)
    ensures var fed := Streaming.Fed(true, true, Streaming.ReceiveAll(Streaming.EncodePackets(packets)));
            var s := RecorderThread.Exec(RecorderThread.START, actions);
            s.accepted == fed.toRecorder && s.pc.Done? && !s.ioError ==>
              && IsRecordingOf(s.f.log, packets[0], fed.toDecoder)
              && !s.f.failed && s.refused == []
  {
    RecordingKeepsEveryFrame(packets);
    RecorderGetsMergedPackets(packets);
    Streaming.FramingRoundTrip(packets);
    Streaming.FedIsMerged(true, true, packets);
    RecorderThread.RecordingIsFaithful(actions);
  }
}
