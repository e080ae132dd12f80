/** The circular buffer of capacity CAP in CAP + 1 slots (src/util/cbuf.hpp). */
module RingBuffers {
  import opened Common

  datatype Ring<T> = Ring(data: seq<T>, head: nat, tail: nat)

  predicate Wellformed<T>(r: Ring<T>) {
    r.head < |r.data| && r.tail < |r.data|
  }

  /** The items held, oldest first. */
  function Items<T>(r: Ring<T>): seq<T>
    requires Wellformed(r)
  {
    if r.tail <= r.head then r.data[r.tail..r.head] else r.data[r.tail..] + r.data[..r.head]
  }

  predicate IsEmpty<T>(r: Ring<T>) {
    r.head == r.tail
  }

  predicate IsFull<T>(r: Ring<T>)
    requires Wellformed(r)
  {
    (r.head + 1) % |r.data| == r.tail
  }

  datatype Op<T> = Push(item: T) | Take

  /** What a caller sees of an operation: whether it succeeded, and the item taken. */
  datatype Reply<T> = Pushed(ok: bool) | Took(item: Option<T>)

  function RingStep<T>(r: Ring<T>, op: Op<T>): (result: (Ring<T>, Reply<T>))
    requires Wellformed(r)
    ensures Wellformed(result.0) && |result.0.data| == |r.data|
  {
    match op
    case Push(item) =>
      if IsFull(r) then (r, Pushed(false))
      else (Ring(r.data[r.head := item], (r.head + 1) % |r.data|, r.tail), Pushed(true))
    case Take =>
      if IsEmpty(r) then (r, Took(None))
      else (r.(tail := (r.tail + 1) % |r.data|), Took(Some(r.data[r.tail])))
  }

  function FifoStep<T>(capacity: nat, items: seq<T>, op: Op<T>): (seq<T>, Reply<T>) {
    match op
    case Push(item) =>
      if |items| == capacity then (items, Pushed(false)) else (items + [item], Pushed(true))
    case Take =>
      if items == [] then (items, Took(None)) else (items[1..], Took(Some(items[0])))
  }

  lemma ItemsFacts<T>(r: Ring<T>)
    requires Wellformed(r)
    ensures |Items(r)| < |r.data|
    ensures IsEmpty(r) <==> Items(r) == []
    ensures IsFull(r) <==> |Items(r)| == |r.data| - 1
    ensures !IsEmpty(r) ==> Items(r)[0] == r.data[r.tail]
  {
    if r.head + 1 == |r.data| {
      assert (r.head + 1) % |r.data| == 0;
    } else {
      assert (r.head + 1) % |r.data| == r.head + 1;
    }
  }

  lemma ItemsWithOneMore<T>(r: Ring<T>, item: T, next: nat)
    requires Wellformed(r) && next != r.tail
    requires next == if r.head + 1 == |r.data| then 0 else r.head + 1
    ensures Items(Ring(r.data[r.head := item], next, r.tail)) == Items(r) + [item]
  {
    if r.tail <= r.head {
      assert Items(r) == r.data[r.tail..r.head];
    }
  }

  lemma NextSlot(slot: nat, slots: nat)
    requires slot < slots
    ensures (slot + 1) % slots == if slot + 1 == slots then 0 else slot + 1
  {
  }

  lemma PushAppends<T>(r: Ring<T>, item: T)
    requires Wellformed(r) && !IsFull(r)
    ensures var after := Ring(r.data[r.head := item], (r.head + 1) % |r.data|, r.tail);
            Wellformed(after) && Items(after) == Items(r) + [item]
  {
    NextSlot(r.head, |r.data|);
    ItemsWithOneMore(r, item, (r.head + 1) % |r.data|);
  }

  lemma ItemsWithoutFirst<T>(r: Ring<T>, next: nat)
    requires Wellformed(r) && r.head != r.tail
    requires next == if r.tail + 1 == |r.data| then 0 else r.tail + 1
    ensures Items(r) != [] && Items(r.(tail := next)) == Items(r)[1..]
  {
    if r.tail < r.head {
    } else if r.tail + 1 == |r.data| {
      assert r.data[r.tail..] == [r.data[r.tail]];
    } else {
      assert r.data[r.tail..][1..] == r.data[next..];
    }
  }

  lemma TakeDropsFirst<T>(r: Ring<T>)
    requires Wellformed(r) && !IsEmpty(r)
    ensures var after := r.(tail := (r.tail + 1) % |r.data|);
            Wellformed(after) && Items(r) != [] && Items(after) == Items(r)[1..]
  {
    NextSlot(r.tail, |r.data|);
    ItemsWithoutFirst(r, (r.tail + 1) % |r.data|);
  }

  /** One operation on the ring is that operation on a FIFO of capacity one less than its slots. */
  lemma StepRefinesFifo<T>(r: Ring<T>, op: Op<T>)
    requires Wellformed(r)
    ensures var (after, reply) := RingStep(r, op);
            (Items(after), reply) == FifoStep(|r.data| - 1, Items(r), op)
  {
    ItemsFacts(r);
    match op
    case Push(item) => if !IsFull(r) { PushAppends(r, item); }
    case Take => if !IsEmpty(r) { TakeDropsFirst(r); }
  }

  /** A push fails exactly on a ring with one free slot left, a take exactly on an empty one; what is taken is the oldest item. */
  lemma FailsOnlyWhenItMust<T>(r: Ring<T>, op: Op<T>)
    requires Wellformed(r)
    ensures var (after, reply) := RingStep(r, op);
            match op
            case Push(item) =>
              && (reply == Pushed(true) <==> |Items(r)| + 1 < |r.data|)
              && (reply == Pushed(false) <==> |Items(r)| + 1 == |r.data|)
              && Items(after) == Items(r) + (if reply == Pushed(true) then [item] else [])
            case Take =>
              && (Items(r) == [] ==> reply == Took(None) && Items(after) == [])
              && (Items(r) != [] ==> reply.Took? && reply.item.Some? && Items(r) == [reply.item.value] + Items(after))
  {
    StepRefinesFifo(r, op);
    ItemsFacts(r);
  }

  function RingRun<T>(r: Ring<T>, ops: seq<Op<T>>): seq<Reply<T>>
    requires Wellformed(r)
    decreases |ops|
  {
    if ops == [] then [] else [RingStep(r, ops[0]).1] + RingRun(RingStep(r, ops[0]).0, ops[1..])
  }

  function FifoRun<T>(capacity: nat, items: seq<T>, ops: seq<Op<T>>): seq<Reply<T>>
    decreases |ops|
  {
    if ops == [] then []
    else [FifoStep(capacity, items, ops[0]).1] + FifoRun(capacity, FifoStep(capacity, items, ops[0]).0, ops[1..])
  }

  /** Over every history, wrapping around any number of times, callers cannot tell the two apart. */
  lemma {:induction false} RunRefinesFifo<T>(r: Ring<T>, ops: seq<Op<T>>)
    requires Wellformed(r)
    ensures RingRun(r, ops) == FifoRun(|r.data| - 1, Items(r), ops)
    decreases |ops|
  {
    if ops == [] {
    } else {
      StepRefinesFifo(r, ops[0]);
      RunRefinesFifo(RingStep(r, ops[0]).0, ops[1..]);
    }
  }

  class CBuf<T> {
    const data: array<T>
    var head: nat
    var tail: nat

    ghost predicate Valid()
      reads this
    {
      head < data.Length && tail < data.Length
    }

    ghost function View(): Ring<T>
      reads this, data
    {
      Ring(data[..], head, tail)
    }

    ghost function Capacity(): nat
      requires Valid()
      reads this
    {
      data.Length - 1
    }

    /** The sequence this buffer refines. */
    ghost function Contents(): seq<T>
      requires Valid()
      reads this, data
    {
      Items(View())
    }

    /** `blank` is the value-initialised item. */
    constructor (capacity: nat, blank: T)
      ensures Valid() && Contents() == [] && Capacity() == capacity && fresh(data)
    {
      data := new T[capacity + 1](_ => blank);
      head, tail := 0, 0;
    }

    method IsEmpty() returns (empty: bool)
      requires Valid()
      ensures empty <==> Contents() == []
    {
      ItemsFacts(View());
      empty := head == tail;
    }

    method IsFull() returns (full: bool)
      requires Valid()
      ensures full <==> |Contents()| == Capacity()
    {
      ItemsFacts(View());
      full := (head + 1) % data.Length == tail;
    }

    method Push(item: T) returns (ok: bool)
      requires Valid()
      modifies this`head, data
      ensures Valid()
      ensures (Contents(), Pushed(ok)) == FifoStep(Capacity(), old(Contents()), Op.Push(item))
    {
      StepRefinesFifo(View(), Op.Push(item));
      var full := IsFull();
      ok := !full;
      if ok {
        data[head] := item;
        head := (head + 1) % data.Length;
      }
      assert View() == RingStep(old(View()), Op.Push(item)).0;
    }

    method Take() returns (item: Option<T>)
      requires Valid()
      modifies this`tail
      ensures Valid()
      ensures (Contents(), Took(item)) == FifoStep(Capacity(), old(Contents()), Op.Take)
    {
      StepRefinesFifo(View(), Op.Take);
      var empty := IsEmpty();
      if empty {
        item := None;
      } else {
        item := Some(data[tail]);
        tail := (tail + 1) % data.Length;
      }
      assert View() == RingStep(old(View()), Op.Take).0;
    }
  }
}
