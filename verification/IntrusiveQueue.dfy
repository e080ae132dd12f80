/** The intrusive singly linked queue with a tail pointer (src/util/queue.hpp). */
module IntrusiveQueue {

  class Node<T> {
    var value: T
    var next: Node?<T>

    constructor (value: T)
      ensures this.value == value
    {
      this.value := value;
    }
  }

  /** The values carried by a list of nodes. */
  ghost function Values<T>(nodes: seq<Node<T>>): (values: seq<T>)
    reads nodes
    ensures |values| == |nodes|
    ensures forall i | 0 <= i < |nodes| :: values[i] == nodes[i].value
  {
    seq(|nodes|, i requires 0 <= i < |nodes| reads nodes => nodes[i].value)
  }

  /** The values of a list depend on its own nodes only. */
  twostate lemma SameValues<T>(nodes: seq<Node<T>>)
    requires forall node | node in nodes :: node.value == old(node.value)
    ensures Values(nodes) == old(Values(nodes))
  {
  }

  class Queue<T> {
    var first: Node?<T>
    // Meaningless while `first` is null: taking the last node leaves it stale.
    var last: Node?<T>
    // The queued nodes, oldest first: the sequence this queue refines.
    ghost var nodes: seq<Node<T>>

    /** The chain from `first` is exactly `nodes`: no cycle, no sharing, ended by null. */
    ghost predicate Valid()
      reads this, nodes
    {
      && (forall i, j | 0 <= i < j < |nodes| :: nodes[i] != nodes[j])
      && (first == if nodes == [] then null else nodes[0])
      && (nodes != [] ==> last == nodes[|nodes| - 1] && last.next == null)
      && (forall i | 0 <= i < |nodes| - 1 :: nodes[i].next == nodes[i + 1])
    }

    constructor ()
      ensures Valid() && nodes == []
    {
      first, last, nodes := null, null, [];
    }

    predicate IsEmpty()
      requires Valid()
      reads this, nodes
      ensures IsEmpty() <==> nodes == []
    {
      first == null
    }

    method Push(item: Node<T>)
      requires Valid() && item !in nodes
      modifies this, item`next, (if nodes == [] then {} else {nodes[|nodes| - 1]})`next
      ensures Valid() && nodes == old(nodes) + [item]
      ensures Values(nodes) == old(Values(nodes)) + [item.value]
    {
      item.next := null;
      if IsEmpty() {
        first, last := item, item;
      } else {
        last.next := item;
        last := item;
      }
      nodes := nodes + [item];
    }

    /** The node leaves with its link still pointing into the queue, as in the source. */
    method Take() returns (item: Node<T>)
      requires Valid() && nodes != []
      modifies this
      ensures Valid() && item == old(nodes[0]) && nodes == old(nodes[1..])
      ensures Values(nodes) == old(Values(nodes))[1..] && last == old(last)
    {
      item := first;
      first := first.next;
      nodes := nodes[1..];
    }
  }

  /** A client's view: the second push meets the stale `last` left by the take, and does not write through it. */
  method PushAfterEmptying<T>(a: Node<T>, b: Node<T>) returns (queue: Queue<T>)
    requires a != b
    modifies a, b
    ensures fresh(queue) && queue.Valid() && queue.nodes == [b]
    ensures a.next == null
  {
    queue := new Queue<T>();
    queue.Push(a);
    var x := queue.Take();
    assert x == a && queue.last == a;
    queue.Push(b);
  }
}
