/** The controller's critical sections and its sending of one message (src/core/controller.cpp). */
module Controlling {
  import opened Common
  import opened ControlMessages
  import opened RingBuffers
  import opened Net

  const QUEUE_CAPACITY := 64

  class Controller {
    const queue: CBuf<ControlMessage>
    const socket: Socket
    var stopped: bool
    // Whether the receiver was told to stop.
    var receiverStopped: bool

    ghost predicate Valid()
      reads this, queue
    {
      queue.Valid() && queue.Capacity() == QUEUE_CAPACITY
    }

    constructor (socket: Socket)
      ensures Valid() && queue.Contents() == [] && !stopped && !receiverStopped && this.socket == socket
      ensures fresh(queue) && fresh(queue.data)
    {
      queue := new CBuf<ControlMessage>(QUEUE_CAPACITY, Unserializable(13));
      this.socket := socket;
      stopped, receiverStopped := false, false;
    }

    /** `signalled` tells whether the consumer is signalled: only when the ring was empty. */
    method PushMessage(msg: ControlMessage) returns (res: bool, signalled: bool)
      requires Valid()
      modifies queue, queue.data
      ensures Valid()
      ensures (queue.Contents(), Pushed(res)) == FifoStep(QUEUE_CAPACITY, old(queue.Contents()), Op.Push(msg))
      ensures signalled <==> old(queue.Contents()) == []
    {
      var wasEmpty := queue.IsEmpty();
      res := queue.Push(msg);
      signalled := wasEmpty;
    }

    /** Unlike a push, a stop always signals. */
    method Stop() returns (signalled: bool)
      modifies this
      ensures stopped && receiverStopped && signalled
    {
      stopped := true;
      signalled := true;
      receiverStopped := true;
    }

    /** One evaluation of the wait loop's guard and, unless it says to wait, the rest of the section. */
    method Acquire() returns (wait: bool, msg: Option<ControlMessage>)
      requires Valid()
      modifies queue
      ensures Valid()
      ensures wait <==> !stopped && old(queue.Contents()) == []
      ensures msg.Some? <==> !stopped && old(queue.Contents()) != []
      ensures msg.Some? ==> old(queue.Contents()) == [msg.value] + queue.Contents()
      ensures msg.None? ==> queue.Contents() == old(queue.Contents())
    {
      var empty := queue.IsEmpty();
      if !stopped && empty {
        return true, None;
      }
      if stopped {
        return false, None;
      }
      msg := queue.Take();
      wait := false;
    }

    /** A false result may be that of a message sent whole, in more than one chunk. */
    method ProcessMessage(msg: ControlMessage, accepted: nat -> int) returns (ok: bool, ghost sent: nat)
      requires Encodable(msg)
      modifies socket
      ensures sent <= |Encode(msg)| && socket.wire == old(socket.wire) + Encode(msg)[..sent]
      ensures ok <==> !msg.Unserializable? && accepted(0) >= |Encode(msg)|
      ensures ok || (forall i :: accepted(i) > 0) ==> sent == |Encode(msg)|
    {
      var serialized := new byte[SERIALIZED_MAX_SIZE];
      var length := Serialize(msg, serialized);
      RoundTripLength(msg);
      if length == 0 {
        ok, sent := false, 0;
        return;
      }
      var w;
      w, sent := socket.SendAll(serialized, length, accepted);
      assert serialized[..sent] == serialized[..length][..sent];
      ok := w == length;
    }
  }

  lemma RoundTripLength(msg: ControlMessage)
    requires Encodable(msg)
    ensures Encode(msg) == [] <==> msg.Unserializable?
  {
    if !msg.Unserializable? {
      RoundTrip(msg, []);
    }
  }
}
