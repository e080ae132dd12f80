/**
 The receiver thread's loop (src/android/receiver.cpp). It means to keep the unconsumed tail of a read
 for the next one, but each read overwrites the buffer from its start and only the bytes of that read
 are parsed: what it delivers depends on where the network cuts the stream.
 */
module ReceiverLoop {
  import opened Common
  import opened BufferUtil
  import opened DeviceMessages

  datatype Delivery = Delivery(texts: seq<Text>, running: bool)

  /** What a series of reads delivers; an empty read is the end of the stream. */
  function Delivered(chunks: seq<seq<byte>>): Delivery {
    if chunks == [] then Delivery([], true)
    else
      var before, read := Delivered(chunks[..|chunks| - 1]), chunks[|chunks| - 1];
      if !before.running then before
      else if read == [] then Delivery(before.texts, false)
      else Delivery(before.texts + Process(read).texts, !Process(read).error)
  }

  predicate Good(read: seq<byte>) {
    read != [] && !Process(read).error
  }

  /** The texts of each read taken by itself. */
  function EachRead(chunks: seq<seq<byte>>): seq<Text> {
    if chunks == [] then []
    else EachRead(chunks[..|chunks| - 1]) + Process(chunks[|chunks| - 1]).texts
  }

  /** The loop goes on exactly as long as every read delivers bytes and no error; it delivers what each contains. */
  lemma {:induction false} RunsWhileReadsAreGood(chunks: seq<seq<byte>>)
    ensures Delivered(chunks).running <==> forall k | 0 <= k < |chunks| :: Good(chunks[k])
    ensures Delivered(chunks).running ==> Delivered(chunks).texts == EachRead(chunks)
  {
    if chunks == [] {
    } else {
      RunsWhileReadsAreGood(chunks[..|chunks| - 1]);
    }
  }

  lemma EndsOnBadRead(good: seq<seq<byte>>, bad: seq<byte>)
    requires Delivered(good).running && !Good(bad)
    ensures Delivered(good + [bad]) == Delivery(EachRead(good + [bad]), false)
  {
    assert (good + [bad])[..|good|] == good;
    RunsWhileReadsAreGood(good);
    assert bad == [] ==> Process(bad).texts == [];
    assert EachRead(good) + [] == EachRead(good);
  }

  lemma SameWithoutTheRest(chunks: seq<seq<byte>>, upTo: seq<seq<byte>>)
    requires upTo <= chunks && !Delivered(upTo).running
    ensures Delivered(chunks) == Delivered(upTo)
  {
    assert chunks[..|upTo|] == upTo;
    StaysEnded(chunks, |upTo|);
  }

  /** It ends on the first other read, whose complete messages are still delivered; what follows is not read. */
  lemma EndsOnFirstBadRead(good: seq<seq<byte>>, bad: seq<byte>, rest: seq<seq<byte>>)
    requires !Good(bad) && forall k | 0 <= k < |good| :: Good(good[k])
    ensures Delivered(good + [bad] + rest) == Delivery(EachRead(good + [bad]), false)
  {
    RunsWhileReadsAreGood(good);
    EndsOnBadRead(good, bad);
    SameWithoutTheRest(good + [bad] + rest, good + [bad]);
  }

  /** What the stream read so far contains. */
  function Contained(chunks: seq<seq<byte>>): Outcome {
    Process(Flatten(chunks))
  }

  predicate OnBoundary(chunks: seq<seq<byte>>) {
    Contained(chunks).consumed == |Flatten(chunks)|
  }

  /** One more read: the loop starts afresh on it, the stream continues. */
  lemma OneMoreRead(chunks: seq<seq<byte>>, read: seq<byte>)
    ensures Delivered(chunks).running ==> Delivered(chunks + [read]).texts == Delivered(chunks).texts + Process(read).texts
    ensures var o := Contained(chunks);
            !o.error ==>
              Contained(chunks + [read]) == After(o.texts, o.consumed, Process(Flatten(chunks)[o.consumed..] + read))
  {
    assert (chunks + [read])[..|chunks|] == chunks;
    FlattenPush(chunks, read);
    SplitIndependent(Flatten(chunks), read);
  }

  lemma WholeRead(before: seq<seq<byte>>, read: seq<byte>)
    requires read != [] && !Process(read).error && Process(read).consumed == |read|
    requires Delivered(before) == Delivery(Contained(before).texts, true)
    requires OnBoundary(before) && !Contained(before).error
    ensures Delivered(before + [read]) == Delivery(Contained(before + [read]).texts, true)
    ensures OnBoundary(before + [read]) && !Contained(before + [read]).error
  {
    assert (before + [read])[..|before|] == before;
    OneMoreRead(before, read);
    FlattenPush(before, read);
    var bytes := Flatten(before);
    assert bytes[|bytes|..] + read == read;
  }

  /** Where every read ends on a message boundary nothing goes wrong. */
  lemma {:induction false} WholeMessagesPerRead(chunks: seq<seq<byte>>)
    requires forall k | 0 <= k < |chunks| ::
               chunks[k] != [] && !Process(chunks[k]).error && Process(chunks[k]).consumed == |chunks[k]|
    ensures Delivered(chunks) == Delivery(Contained(chunks).texts, true)
    ensures OnBoundary(chunks) && !Contained(chunks).error
  {
    if chunks == [] {
    } else {
      var before, read := chunks[..|chunks| - 1], chunks[|chunks| - 1];
      WholeMessagesPerRead(before);
      WholeRead(before, read);
      assert before + [read] == chunks;
    }
  }

  // ---------- The room asked for ----------

  function HeadAfter(read: seq<byte>, head: nat): nat {
    var o := Process(read);
    if !o.error && o.consumed > 0 then |read| - o.consumed else head
  }

  /** The loop's `head` after a series of reads. */
  function Head(chunks: seq<seq<byte>>): nat {
    if chunks == [] then 0
    else HeadAfter(chunks[|chunks| - 1], Head(chunks[..|chunks| - 1]))
  }

  /** How much the next read asks for. */
  function Room(chunks: seq<seq<byte>>): int {
    SERIALIZED_MAX_SIZE - Head(chunks)
  }

  /** Each read fits the room the loop asked for. */
  predicate Fits(chunks: seq<seq<byte>>) {
    forall k | 0 <= k < |chunks| :: |chunks[k]| <= Room(chunks[..k])
  }

  lemma FitsPrefix(chunks: seq<seq<byte>>, m: nat)
    requires Fits(chunks) && m <= |chunks|
    ensures Fits(chunks[..m])
  {
    forall k | 0 <= k < m
      ensures |chunks[..m][k]| <= Room(chunks[..m][..k])
    {
      assert chunks[..m][..k] == chunks[..k];
    }
  }

  /** There always is room for an empty message: the loop's assertion on `head` holds. */
  lemma {:induction false} RoomForAMessage(chunks: seq<seq<byte>>)
    requires Fits(chunks)
    ensures Room(chunks) >= 3
  {
    if chunks == [] {
    } else {
      FitsPrefix(chunks, |chunks| - 1);
      RoomForAMessage(chunks[..|chunks| - 1]);
    }
  }

  /** The buffer is of 4096 bytes; once something is consumed of a read, room is kept for the rest of it. */
  lemma RoomAfterRead(chunks: seq<seq<byte>>, read: seq<byte>)
    ensures Room([]) == 4096
    ensures var o := Process(read);
            Room(chunks + [read]) == if !o.error && o.consumed > 0 then 4096 - |read[o.consumed..]| else Room(chunks)
  {
    assert (chunks + [read])[..|chunks|] == chunks;
  }

  // ---------- When the loop is right ----------

  predicate Right(chunks: seq<seq<byte>>) {
    Delivered(chunks).texts == Contained(chunks).texts
  }

  /** Right whatever the network delivers next of what is asked for. */
  ghost predicate RightNext(chunks: seq<seq<byte>>) {
    forall read | 0 < |read| <= Room(chunks) :: Right(chunks + [read])
  }

  lemma ThreeZeros()
    ensures Parse([0, 0, 0]) == Message([], 3) && Process([0, 0, 0]).texts == [[]]
  {
    var s: seq<byte> := [0, 0, 0];
    assert s[1..] == [0, 0] && s[3..] == [];
  }

  /** Bytes of value 1 start no message. */
  lemma OnesDeliverNothing(n: nat)
    ensures Process(seq(n, _ => 1)).texts == []
  {
  }

  /** Any incomplete tail can be continued, by one read, so that losing it shows. */
  lemma TailMatters(tail: seq<byte>, room: nat) returns (read: seq<byte>)
    requires tail != [] && Parse(tail).NeedMore? && room >= 3
    ensures 0 < |read| <= room && Process(tail + read).texts != Process(read).texts
  {
    if tail[0] != TYPE_CLIPBOARD {
      read := [0, 0, 0];
      ThreeZeros();
      assert Parse(tail + read).Error?;
    } else if |tail| == 1 {
      read := [0, 0];
      assert (tail + read)[1..] == [0, 0];
      assert Parse(tail + read).Message?;
    } else {
      // Bytes of value 1 complete the message if there is room for them; if not, it stays incomplete.
      var size := if |tail| == 2 then 0x100 * (tail[1] as int) + 1 else Read16be(tail[1..]);
      var missing: nat := 3 + size - |tail|;
      if missing <= room {
        read := seq(missing, _ => 1);
        OnesDeliverNothing(missing);
        assert Read16be((tail + read)[1..]) == size;
        assert Parse(tail + read).Message?;
      } else {
        read := [0, 0, 0];
        ThreeZeros();
        assert Parse(tail + read).NeedMore?;
      }
    }
  }

  lemma OneByteMore(tail: seq<byte>)
    requires Parse(tail).NeedMore?
    ensures Process([0]).texts == [] && Process([1]).texts == []
    ensures Process(tail + [1]).texts == [] || Process(tail + [1]).texts != Process(tail + [0]).texts
  {
    if |tail| >= 3 && tail[0] == TYPE_CLIPBOARD && Read16be(tail[1..]) == |tail| - 2 {
      forall last: byte
        ensures Process(tail + [last]).texts == [tail[3..] + [last]]
      {
        var s := tail + [last];
        assert Read16be(s[1..]) == Read16be(tail[1..]);
        assert s[3..3 + Read16be(s[1..])] == tail[3..] + [last] && s[|s|..] == [];
        assert Parse(s) == Message(tail[3..] + [last], |s|);
      }
      assert (tail[3..] + [1])[|tail| - 3] != (tail[3..] + [0])[|tail| - 3];
    } else if |tail| >= 3 {
      assert Read16be((tail + [1])[1..]) == Read16be(tail[1..]);
      assert !Parse(tail + [1]).Message?;
    } else {
      assert !Parse(tail + [1]).Message?;
    }
  }

  /** What tells whether the loop is right after one more read. */
  lemma RightAfter(chunks: seq<seq<byte>>, read: seq<byte>, tail: seq<byte>)
    requires Delivered(chunks).running && !Contained(chunks).error
    requires tail == Flatten(chunks)[Contained(chunks).consumed..]
    ensures Right(chunks + [read]) <==>
            Delivered(chunks).texts + Process(read).texts == Contained(chunks).texts + Process(tail + read).texts
  {
    OneMoreRead(chunks, read);
  }

  lemma WrongStaysWrong(chunks: seq<seq<byte>>, tail: seq<byte>) returns (read: seq<byte>)
    requires Delivered(chunks).running && !Contained(chunks).error && !Right(chunks)
    requires tail == Flatten(chunks)[Contained(chunks).consumed..] && Parse(tail).NeedMore?
    ensures |read| == 1 && !Right(chunks + [read])
  {
    OneByteMore(tail);
    RightAfter(chunks, [0], tail);
    RightAfter(chunks, [1], tail);
    read := if Right(chunks + [[1]]) then [0] else [1];
    assert Delivered(chunks).texts + [] == Delivered(chunks).texts;
    assert Contained(chunks).texts + [] == Contained(chunks).texts;
    if Right(chunks + [read]) {
      CancelLeft(Contained(chunks).texts, Process(tail + [0]).texts, Process(tail + [1]).texts);
    }
  }

  lemma GoesWrongOtherwise(chunks: seq<seq<byte>>) returns (read: seq<byte>)
    requires Fits(chunks) && Delivered(chunks).running && !Contained(chunks).error
    requires !Right(chunks) || !OnBoundary(chunks)
    ensures 0 < |read| <= Room(chunks) && !Right(chunks + [read])
  {
    var tail := Flatten(chunks)[Contained(chunks).consumed..];
    ProcessIsMaximal(Flatten(chunks));
    RoomForAMessage(chunks);
    if Right(chunks) {
      read := TailMatters(tail, Room(chunks));
      RightAfter(chunks, read, tail);
      if Right(chunks + [read]) {
        CancelLeft(Contained(chunks).texts, Process(read).texts, Process(tail + read).texts);
      }
    } else {
      read := WrongStaysWrong(chunks, tail);
    }
  }

  /**
   As long as no error was met: the loop is right whatever is read next exactly when it has been right
   so far and the stream stands on a message boundary.
   */
  lemma RightForEveryNextRead(chunks: seq<seq<byte>>)
    requires Fits(chunks) && Delivered(chunks).running && !Contained(chunks).error
    ensures RightNext(chunks) <==> Right(chunks) && OnBoundary(chunks)
  {
    if Right(chunks) && OnBoundary(chunks) {
      forall read | 0 < |read| <= Room(chunks)
        ensures Right(chunks + [read])
      {
        OneMoreRead(chunks, read);
        assert Flatten(chunks)[|Flatten(chunks)|..] + read == read;
      }
    } else {
      var read := GoesWrongOtherwise(chunks);
      assert !Right(chunks + [read]);
    }
  }

  lemma ContainedErrorStays(chunks: seq<seq<byte>>, m: nat)
    requires m <= |chunks| && Contained(chunks[..m]).error
    ensures Contained(chunks).error
  {
    var before, after := Flatten(chunks[..m]), Flatten(chunks[m..]);
    assert chunks == chunks[..m] + chunks[m..];
    FlattenAppend(chunks[..m], chunks[m..]);
    SplitIndependent(before, after);
  }

  lemma NoErrorBefore(chunks: seq<seq<byte>>, m: nat)
    requires m <= |chunks| && Delivered(chunks).running && !Contained(chunks).error
    ensures Delivered(chunks[..m]).running && !Contained(chunks[..m]).error
  {
    if !Delivered(chunks[..m]).running {
      StaysEnded(chunks, m);
    } else if Contained(chunks[..m]).error {
      ContainedErrorStays(chunks, m);
    }
  }

  /** Between two boundaries there are only whole messages. */
  lemma WholeBetweenBoundaries(chunks: seq<seq<byte>>, k: nat)
    requires k < |chunks| && !Contained(chunks[..k]).error
    requires OnBoundary(chunks[..k]) && OnBoundary(chunks[..k + 1])
    ensures Process(chunks[k]).consumed == |chunks[k]|
  {
    assert chunks[..k] + [chunks[k]] == chunks[..k + 1];
    OneMoreRead(chunks[..k], chunks[k]);
    FlattenPush(chunks[..k], chunks[k]);
    var before := Flatten(chunks[..k]);
    assert before[|before|..] + chunks[k] == chunks[k];
  }

  lemma WholeMessagesUpTo(chunks: seq<seq<byte>>, m: nat)
    requires m <= |chunks| && Delivered(chunks).running && !Contained(chunks).error
    requires forall k | 0 <= k < |chunks| :: chunks[k] != [] && Process(chunks[k]).consumed == |chunks[k]|
    ensures Right(chunks[..m]) && OnBoundary(chunks[..m])
  {
    forall k | 0 <= k < m
      ensures !Process(chunks[k]).error
    {
      NoErrorBefore(chunks, k + 1);
      assert chunks[..k + 1][..k] == chunks[..k];
    }
    WholeMessagesPerRead(chunks[..m]);
  }

  /**
   Along a series of reads without error, the loop is right at each of them whatever the network delivers
   there exactly when every read is made of whole messages.
   */
  lemma RightThroughoutIffWholeReads(chunks: seq<seq<byte>>)
    requires Fits(chunks) && Delivered(chunks).running && !Contained(chunks).error
    requires forall k | 0 <= k < |chunks| :: chunks[k] != []
    ensures (forall m | 0 <= m <= |chunks| :: RightNext(chunks[..m])) <==>
            (forall k | 0 <= k < |chunks| :: Process(chunks[k]).consumed == |chunks[k]|)
  {
    forall m | 0 <= m <= |chunks|
      ensures !Contained(chunks[..m]).error
      ensures RightNext(chunks[..m]) <==> Right(chunks[..m]) && OnBoundary(chunks[..m])
    {
      FitsPrefix(chunks, m);
      NoErrorBefore(chunks, m);
      RightForEveryNextRead(chunks[..m]);
    }
    if forall m | 0 <= m <= |chunks| :: RightNext(chunks[..m]) {
      forall k | 0 <= k < |chunks|
        ensures Process(chunks[k]).consumed == |chunks[k]|
      {
        assert RightNext(chunks[..k]) && RightNext(chunks[..k + 1]);
        WholeBetweenBoundaries(chunks, k);
      }
    }
    if forall k | 0 <= k < |chunks| :: Process(chunks[k]).consumed == |chunks[k]| {
      forall m | 0 <= m <= |chunks|
        ensures RightNext(chunks[..m])
      {
        WholeMessagesUpTo(chunks, m);
      }
    }
  }

  /** A four-byte message read in two halves is not delivered. */
  lemma SplitMessageIsLost()
    ensures Contained([[0, 0], [1, 97]]).texts == [[97]] && Delivered([[0, 0], [1, 97]]) == Delivery([], true)
  {
    var chunks: seq<seq<byte>> := [[0, 0], [1, 97]];
    assert chunks[..1] == [[0, 0]] && chunks[..1][..0] == [];
    assert chunks[1..] == [[1, 97]] && chunks[1..][1..] == [];
    assert Flatten(chunks) == [0, 0, 1, 97];
    var s: seq<byte> := [0, 0, 1, 97];
    assert s[1..][1] == 1 && s[3..4] == [97] && s[4..] == [];
    assert Parse(s) == Message([97], 4);
  }

  // ---------- The loop ----------

  /** What the loop does with one read of at least a byte; its assertion on `head` holds before and after. */
  method HandleRead(receiver: Receiver, buf: array<byte>, read: seq<byte>, head: nat) returns (running: bool, newHead: nat)
    requires buf.Length == SERIALIZED_MAX_SIZE && read != [] && head + |read| <= SERIALIZED_MAX_SIZE
    modifies receiver, buf
    ensures receiver.delivered == old(receiver.delivered) + Process(read).texts
    ensures running <==> !Process(read).error
    ensures newHead == HeadAfter(read, head) < SERIALIZED_MAX_SIZE
  {
    assert head < SERIALIZED_MAX_SIZE;
    newHead := head;
    forall k | 0 <= k < |read| {
      buf[k] := read[k];
    }
    assert buf[..|read|] == read;
    var consumed := receiver.ProcessMessages(buf, |read|);
    if consumed == -1 {
      return false, newHead;
    }
    if consumed != 0 {
      var kept := buf[consumed..|read|];
      forall k | 0 <= k < |kept| {
        buf[k] := kept[k];
      }
      newHead := |read| - consumed;
    }
    running := true;
  }

  /** The loop delivers what Delivered says, over any reads the network may make of the room it is given. */
  method RunReceiver(receiver: Receiver, chunks: seq<seq<byte>>)
    requires Fits(chunks)
    modifies receiver
    ensures receiver.delivered == old(receiver.delivered) + Delivered(chunks).texts
  {
    var buf := new byte[SERIALIZED_MAX_SIZE](_ => 0);
    var head: nat, i := 0, 0;
    var running := true;
    assert old(receiver.delivered) + [] == old(receiver.delivered);
    while i < |chunks| && running
      invariant i <= |chunks| && head < SERIALIZED_MAX_SIZE
      invariant running ==> head == Head(chunks[..i]) && Delivered(chunks[..i]).running
      invariant !running ==> Delivered(chunks) == Delivered(chunks[..i])
      invariant receiver.delivered == old(receiver.delivered) + Delivered(chunks[..i]).texts
    {
      var read := chunks[i];
      assert chunks[..i + 1][..i] == chunks[..i];
      if read == [] {
        running := false;
      } else {
        Reassociate(old(receiver.delivered), Delivered(chunks[..i]).texts, Process(read).texts);
        running, head := HandleRead(receiver, buf, read, head);
      }
      i := i + 1;
      if !running {
        StaysEnded(chunks, i);
      }
    }
    assert chunks[..|chunks|] == chunks;
  }

  lemma {:induction false} StaysEnded(chunks: seq<seq<byte>>, n: nat)
    requires n <= |chunks| && !Delivered(chunks[..n]).running
    ensures Delivered(chunks) == Delivered(chunks[..n])
  {
    if n == |chunks| {
      assert chunks[..n] == chunks;
    } else {
      assert chunks[..|chunks| - 1][..n] == chunks[..n];
      StaysEnded(chunks[..|chunks| - 1], n);
    }
  }
}
