/** The linked FIFO queue: values leave from `head` and join at `tail`. */
module Queues {
  import opened Common

  class Node {
    const data: int
    var next: Node?

    constructor (data: int)
      ensures this.data == data && next == null
    {
      this.data := data;
      next := null;
    }
  }

  class Queue {
    var head: Node?
    /** Only meaningful while the queue is non-empty: popping the last value
        leaves it pointing at the deleted node. */
    var tail: Node?
    /** The nodes from the head to the tail. */
    ghost var spine: seq<Node>

    ghost predicate Valid()
      reads this, spine
    {
      (head == null <==> spine == []) &&
      (spine != [] ==> head == spine[0] && tail == spine[|spine| - 1] && tail.next == null) &&
      (forall i :: 0 <= i < |spine| - 1 ==> spine[i].next == spine[i + 1])
    }

    /** The stored values, the oldest first. */
    ghost function Contents(): seq<int>
      reads this
    {
      Values(spine)
    }

    constructor ()
      ensures Valid() && Contents() == []
    {
      head := null;
      tail := null;
      spine := [];
    }

    method IsEmpty() returns (r: bool)
      requires Valid()
      ensures r <==> Contents() == []
    {
      r := head == null;
    }

    method Push(x: int)
      requires Valid()
      modifies this, spine
      ensures Valid()
      ensures Contents() == old(Contents()) + [x]
      ensures |spine| == |old(spine)| + 1 && spine[..|old(spine)|] == old(spine)
      ensures fresh(spine[|old(spine)|])
    {
      var n := new Node(x);
      if head == null {
        head := n;
        tail := n;
        spine := [n];
      } else {
        tail.next := n;
        tail := n;
        spine := spine + [n];
      }
    }

    /** Removing from an empty queue does nothing. */
    method Pop()
      requires Valid()
      modifies this
      ensures Valid()
      ensures Contents() == if old(Contents()) == [] then [] else old(Contents())[1..]
      ensures spine == if old(spine) == [] then [] else old(spine)[1..]
    {
      if head == null {
        return;
      }
      assert |spine| > 1 ==> head.next == spine[1];
      head := head.next;
      spine := spine[1..];
    }

    /** The oldest value; a runtime_error on an empty queue. */
    method Top() returns (r: Result<int>)
      requires Valid()
      ensures Contents() == [] ==> r == Err(RuntimeError)
      ensures Contents() != [] ==> r == Ok(Contents()[0])
    {
      if head == null {
        return Err(RuntimeError);
      }
      return Ok(head.data);
    }
  }

  /** Pops every value off `q`, reading each with Top first: the values come
      out in the order they were pushed. */
  method Drain(q: Queue) returns (out: seq<int>)
    requires q.Valid()
    modifies q
    ensures q.Valid() && q.Contents() == []
    ensures out == old(q.Contents())
    ensures q.spine == []
  {
    ghost var orig := q.Contents();
    out := [];
    var empty := q.IsEmpty();
    while !empty
      invariant q.Valid()
      invariant |out| <= |orig| && out == orig[..|out|] && q.Contents() == orig[|out|..]
      invariant empty <==> q.Contents() == []
      decreases |q.Contents()|
    {
      var t := q.Top();
      out := out + [t.value];
      q.Pop();
      assert out == orig[..|out|];
      empty := q.IsEmpty();
    }
  }

  /** A queue emptied completely and then refilled starts from its new first
      value, although its tail still referred to a deleted node in between. */
  method PushDrainPush() returns (out: seq<int>)
    ensures out == [3]
  {
    var q := new Queue();
    q.Push(1);
    q.Push(2);
    var first := Drain(q);
    q.Push(3);
    out := Drain(q);
  }

  /** The values held by a sequence of nodes. */
  ghost function Values(sp: seq<Node>): seq<int>
  {
    seq(|sp|, i requires 0 <= i < |sp| => sp[i].data)
  }
}
