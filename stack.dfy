/** The linked LIFO stack: a chain of nodes from the top through `prev`
    links down to the bottom node, whose `prev` is null. */
module Stacks {
  import opened Common

  class Node {
    const data: int
    var prev: Node?

    constructor (data: int)
      ensures this.data == data && prev == null
    {
      this.data := data;
      prev := null;
    }
  }

  class Stack {
    var top: Node?
    /** The nodes from the top down to the bottom. */
    ghost var spine: seq<Node>

    ghost predicate Valid()
      reads this, spine
    {
      (top == null <==> spine == []) &&
      (spine != [] ==> top == spine[0] && spine[|spine| - 1].prev == null) &&
      (forall i :: 0 <= i < |spine| - 1 ==> spine[i].prev == spine[i + 1])
    }

    /** The stored values, the most recently pushed first. */
    ghost function Contents(): seq<int>
      reads this
    {
      Values(spine)
    }

    constructor ()
      ensures Valid() && Contents() == []
    {
      top := null;
      spine := [];
    }

    method IsEmpty() returns (r: bool)
      requires Valid()
      ensures r <==> Contents() == []
    {
      r := top == null;
    }

    method Push(x: int)
      requires Valid()
      modifies this
      ensures Valid()
      ensures Contents() == [x] + old(Contents())
    {
      var n := new Node(x);
      if top == null {
        top := n;
      } else {
        n.prev := top;
        top := n;
      }
      spine := [n] + spine;
    }

    /** Removing from an empty stack does nothing. */
    method Pop()
      requires Valid()
      modifies this
      ensures Valid()
      ensures Contents() == if old(Contents()) == [] then [] else old(Contents())[1..]
    {
      if top == null {
        return;
      }
      assert |spine| > 1 ==> top.prev == spine[1];
      top := top.prev;
      spine := spine[1..];
    }

    /** The most recently pushed value; a runtime_error on an empty stack. */
    method Top() returns (r: Result<int>)
      requires Valid()
      ensures Contents() == [] ==> r == Err(RuntimeError)
      ensures Contents() != [] ==> r == Ok(Contents()[0])
    {
      if top == null {
        return Err(RuntimeError);
      }
      return Ok(top.data);
    }
  }

  /** Pops every value off `s`, reading each with Top first: the values come
      out in the reverse order of their pushes. */
  method Drain(s: Stack) returns (out: seq<int>)
    requires s.Valid()
    modifies s
    ensures s.Valid() && s.Contents() == []
    ensures out == old(s.Contents())
  {
    ghost var orig := s.Contents();
    out := [];
    var empty := s.IsEmpty();
    while !empty
      invariant s.Valid()
      invariant |out| <= |orig| && out == orig[..|out|] && s.Contents() == orig[|out|..]
      invariant empty <==> s.Contents() == []
      decreases |s.Contents()|
    {
      var t := s.Top();
      out := out + [t.value];
      s.Pop();
      assert out == orig[..|out|];
      empty := s.IsEmpty();
    }
  }

  /** Pushing 5, 7, 9, 2, 1 and draining yields 1, 2, 9, 7, 5. */
  method PushThenDrain() returns (out: seq<int>)
    ensures out == [1, 2, 9, 7, 5]
  {
    var s := new Stack();
    s.Push(5);
    s.Push(7);
    s.Push(9);
    s.Push(2);
    s.Push(1);
    out := Drain(s);
  }

  /** The values held by a sequence of nodes. */
  ghost function Values(sp: seq<Node>): seq<int>
  {
    seq(|sp|, i requires 0 <= i < |sp| => sp[i].data)
  }
}
