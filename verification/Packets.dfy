/** Packets as the stream, the decoder and the recorder exchange them. */
module Packets {
  import opened Common

  // FFmpeg's marker for "no presentation timestamp".
  const AV_NOPTS_VALUE := -0x8000_0000_0000_0000

  datatype Packet = Packet(pts: int, duration: int, data: seq<byte>) {
    // Config packets are the ones without a timestamp.
    predicate IsConfig() {
      pts == AV_NOPTS_VALUE
    }
  }

  function Payloads(packets: seq<Packet>): (parts: seq<seq<byte>>)
    ensures |parts| == |packets|
    ensures forall i | 0 <= i < |packets| :: parts[i] == packets[i].data
  {
    seq(|packets|, i requires 0 <= i < |packets| => packets[i].data)
  }
}
