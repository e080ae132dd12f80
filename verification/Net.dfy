/** A connected socket as the senders see it (src/platform/net.cpp). */
module Net {
  import opened Common

  class Socket {
    // Every byte handed to the network so far.
    var wire: seq<byte>

    constructor ()
      ensures wire == []
    {
      wire := [];
    }

    /** `accepted` is how much the socket is ready to take: nothing means an error. */
    method Send(bytes: seq<byte>, accepted: int) returns (w: int)
      requires bytes != []
      modifies this
      ensures w == if accepted <= 0 then -1 else if accepted < |bytes| then accepted else |bytes|
      ensures wire == old(wire) + bytes[..if w == -1 then 0 else w]
    {
      if accepted <= 0 {
        assert bytes[..0] == [];
        return -1;
      }
      w := if accepted < |bytes| then accepted else |bytes|;
      wire := wire + bytes[..w];
    }

    /**
     The i-th call to Send is ready for `accepted(i)` bytes. What is returned is the size of the last
     chunk: it is `len` exactly when one call took everything, although all the bytes may have been sent
     in several.
     */
    method SendAll(buf: array<byte>, len: nat, accepted: nat -> int) returns (w: int, ghost sent: nat)
      requires len <= buf.Length
      modifies this
      ensures sent <= len && wire == old(wire) + buf[..sent]
      ensures len > 0 ==> (w == len <==> accepted(0) >= len)
      ensures w == len ==> sent == len
      ensures (forall i :: accepted(i) > 0) ==> sent == len && w >= 0
    {
      ghost var bytes := buf[..len];
      w := 0;
      sent := 0;
      var calls := 0;
      var remaining: nat := len;
      while remaining > 0
        invariant sent + remaining == len && wire == old(wire) + bytes[..sent]
        invariant calls == 0 ==> sent == 0 && w == 0
        invariant calls > 0 ==> sent > 0 && w > 0 && (w == len <==> accepted(0) >= len) && (w == len ==> remaining == 0)
      {
        ghost var chunk, done := bytes[sent..], bytes[..sent];
        assert buf[len - remaining..len] == chunk;
        w := Send(buf[len - remaining..len], accepted(calls));
        if w == -1 {
          assert chunk[..0] == [] && buf[..sent] == done;
          return;
        }
        SplitTwice(bytes, sent, w);
        Reassociate(old(wire), done, chunk[..w]);
        remaining := remaining - w;
        sent := sent + w;
        calls := calls + 1;
      }
      assert buf[..sent] == bytes[..sent];
    }
  }
}
