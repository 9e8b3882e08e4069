/** The sorted doubly linked list: the sorted list of SimpleLists with a
    `prev` link in each node. Every node but the first has `prev` at the node
    before it. The first node's `prev` is null when it became the first node
    by an insertion, but still refers to the deleted node when it became first
    because the old first node was removed. */
module DoubleLists {
  import opened Common
  import opened Sorted

  class Node {
    const data: int
    var prev: Node?
    var next: Node?

    /** A node placed between `prev` and `next`; add's writes to the links
        of its fresh node are folded into this construction. */
    constructor Between(data: int, prev: Node?, next: Node?)
      ensures this.data == data && this.prev == prev && this.next == next
    {
      this.data := data;
      this.prev := prev;
      this.next := next;
    }
  }

  class DoubleList {
    var head: Node?
    /** The nodes from the head to the last one. */
    ghost var spine: seq<Node>
    ghost var Repr: set<object>

    ghost predicate Valid()
      reads this, Repr
    {
      Linked() && Ascending(Values(spine))
    }

    /** The links agree with the spine: `next` walks it forwards from `head`
        to null, and every node but the first has `prev` at its predecessor. */
    ghost predicate Linked()
      reads this, Repr
    {
      this in Repr && (forall i :: 0 <= i < |spine| ==> spine[i] in Repr) &&
      (head == null <==> spine == []) &&
      (spine != [] ==> head == spine[0] && spine[|spine| - 1].next == null) &&
      (forall i :: 0 <= i < |spine| - 1 ==> spine[i].next == spine[i + 1]) &&
      (forall i :: 0 < i < |spine| ==> spine[i].prev == spine[i - 1])
    }

    /** The node at position `k` occurs nowhere else in the spine. */
    ghost predicate Unshared(k: nat)
      reads this
      requires k < |spine|
    {
      forall i :: 0 <= i < |spine| && i != k ==> spine[i] != spine[k]
    }

    /** The stored values, in list order. */
    ghost function Contents(): seq<int>
      reads this
    {
      Values(spine)
    }

    /** The first node, if any, has a null `prev` link, so that walking
        backwards from any node ends at the end iterator. */
    ghost predicate HeadPrevNull()
      reads this, spine
    {
      spine != [] ==> spine[0].prev == null
    }

    constructor ()
      ensures Valid() && fresh(Repr) && Contents() == []
    {
      head := null;
      spine := [];
      Repr := {this};
    }

    /** The search behind add, rmv and the public find. `pred` is the node
        before the stopping place (null when the search stops at the head),
        `k` the stopping position. */
    method Find(x: int) returns (found: bool, pred: Node?, ghost k: nat)
      requires Valid()
      ensures k == Before(Contents(), x)
      ensures found <==> x in Contents()
      ensures found ==> k < |spine| && spine[k].data == x
      ensures pred == if k == 0 then null else spine[k - 1]
    {
      pred := null;
      var cur := head;
      k := 0;
      while cur != null
        invariant 0 <= k <= |spine|
        invariant cur == if k < |spine| then spine[k] else null
        invariant pred == if k == 0 then null else spine[k - 1]
        invariant forall i :: 0 <= i < k ==> Contents()[i] < x
        decreases |spine| - k
      {
        if cur.data == x {
          BeforeUnique(Contents(), x, k);
          BeforeFinds(Contents(), x);
          return true, pred, k;
        }
        if cur.data > x {
          BeforeUnique(Contents(), x, k);
          BeforeFinds(Contents(), x);
          return false, pred, k;
        }
        pred := cur;
        cur := cur.next;
        k := k + 1;
      }
      BeforeUnique(Contents(), x, k);
      BeforeFinds(Contents(), x);
      found := false;
    }

    /** Distinct positions hold distinct nodes, since they hold distinct values. */
    lemma {:induction false} NodesDistinct(k: nat)
      requires Valid() && k < |spine|
      ensures Unshared(k)
    {
      forall i | 0 <= i < |spine| && i != k ensures spine[i] != spine[k] {
        if i < k { assert Contents()[i] < Contents()[k]; }
        else { assert Contents()[k] < Contents()[i]; }
      }
    }

    /** The node at position `k` and its neighbours occur once each. */
    lemma {:induction false} NeighboursUnshared(k: nat)
      requires Valid() && k < |spine|
      ensures k > 0 ==> Unshared(k - 1)
      ensures Unshared(k)
      ensures k + 1 < |spine| ==> Unshared(k + 1)
    {
      if k > 0 { NodesDistinct(k - 1); }
      NodesDistinct(k);
      if k + 1 < |spine| { NodesDistinct(k + 1); }
    }

    /** Inserts `x` in order; false, with nothing changed, when it is present.
        A node that becomes the first one has a null `prev` link; otherwise
        the first node's `prev` link is untouched. */
    method Add(x: int) returns (added: bool)
      requires Valid()
      modifies Repr
      ensures Valid() && fresh(Repr - old(Repr))
      ensures added <==> x !in old(Contents())
      ensures Contents() == Insert(old(Contents()), x)
      ensures old(HeadPrevNull()) ==> HeadPrevNull()
    {
      var found, pred, k := Find(x);
      ghost var oldContents := Contents();
      if found {
        InsertPresent(oldContents, x);
        return false;
      }
      InsertAbsent(oldContents, x);
      if k > 0 { NodesDistinct(k - 1); }
      if k < |spine| { NodesDistinct(k); }
      LinkAt(pred, k, x);
      return true;
    }

    /** Stores a new node holding `x` at position `k`, after `pred`. */
    method LinkAt(pred: Node?, ghost k: nat, x: int)
      requires Linked() && k <= |spine|
      requires pred == if k == 0 then null else spine[k - 1]
      requires k > 0 ==> Unshared(k - 1)
      requires k < |spine| ==> Unshared(k)
      modifies Repr
      ensures Linked() && fresh(Repr - old(Repr))
      ensures Contents() == old(Contents())[..k] + [x] + old(Contents())[k..]
      ensures spine[0].prev == if k == 0 then null else old(spine[0].prev)
    {
      ghost var oldSpine := spine;
      var succ := if pred == null then head else pred.next;
      assert succ == if k < |oldSpine| then oldSpine[k] else null;
      var n := new Node.Between(x, pred, succ);
      if succ != null {
        succ.prev := n;
      }
      if pred == null {
        head := n;
      } else {
        pred.next := n;
      }
      spine := oldSpine[..k] + [n] + oldSpine[k..];
      Repr := Repr + {n};
      ValuesInsert(oldSpine, k, n);
      forall i | 0 <= i < |spine| - 1 ensures spine[i].next == spine[i + 1] {
        if i + 1 < k {
          assert spine[i] == oldSpine[i] != pred && spine[i + 1] == oldSpine[i + 1];
        } else if i > k {
          assert spine[i] == oldSpine[i - 1] != pred && spine[i + 1] == oldSpine[i];
        }
      }
      forall i | 0 < i < |spine| ensures spine[i].prev == spine[i - 1] {
        if i < k {
          assert spine[i] == oldSpine[i] != succ && spine[i - 1] == oldSpine[i - 1];
        } else if i > k + 1 {
          assert spine[i] == oldSpine[i - 1] != succ && spine[i - 1] == oldSpine[i - 2];
        }
      }
    }

    /** Unlinks `x`; false, with nothing changed, when it is absent. Removing
        the first node leaves the new first node's `prev` link at the removed
        node. */
    method Rmv(x: int) returns (removed: bool)
      requires Valid()
      modifies Repr
      ensures Valid() && fresh(Repr - old(Repr))
      ensures removed <==> x in old(Contents())
      ensures Contents() == Delete(old(Contents()), x)
      ensures old(HeadPrevNull()) && (old(Contents()) == [] || old(Contents())[0] != x)
        ==> HeadPrevNull()
      ensures |old(spine)| > 1 && old(Contents())[0] == x
        ==> spine[0].prev == old(spine[0]) && old(spine[0]) !in spine
    {
      var found, pred, k := Find(x);
      ghost var oldContents := Contents();
      if !found {
        DeleteAbsent(oldContents, x);
        return false;
      }
      DeletePresent(oldContents, x);
      NeighboursUnshared(k);
      UnlinkAt(pred, k);
      return true;
    }

    /** Bypasses the node at position `k`, which follows `pred`. */
    method UnlinkAt(pred: Node?, ghost k: nat)
      requires Linked() && k < |spine|
      requires pred == if k == 0 then null else spine[k - 1]
      requires k > 0 ==> Unshared(k - 1)
      requires Unshared(k)
      requires k + 1 < |spine| ==> Unshared(k + 1)
      modifies Repr
      ensures Linked() && fresh(Repr - old(Repr))
      ensures Contents() == old(Contents())[..k] + old(Contents())[k + 1..]
      ensures spine != [] && k > 0 ==> spine[0].prev == old(spine[0].prev)
      ensures spine != [] && k == 0 ==> spine[0].prev == old(spine[0]) && old(spine[0]) !in spine
    {
      ghost var oldSpine := spine;
      var target := if pred == null then head else pred.next;
      assert target == oldSpine[k];
      var succ := target.next;
      assert succ == if k + 1 < |oldSpine| then oldSpine[k + 1] else null;
      if pred == null {
        head := succ;
      } else {
        pred.next := succ;
      }
      if succ != null && pred != null {
        succ.prev := pred;
      }
      spine := oldSpine[..k] + oldSpine[k + 1..];
      ValuesDelete(oldSpine, k);
      forall i | 0 <= i < |spine| - 1 ensures spine[i].next == spine[i + 1] {
        if i + 1 < k {
          assert spine[i] == oldSpine[i] != pred && spine[i + 1] == oldSpine[i + 1];
        } else if i >= k {
          assert spine[i] == oldSpine[i + 1] != pred && spine[i + 1] == oldSpine[i + 2];
        }
      }
      forall i | 0 < i < |spine| ensures spine[i].prev == spine[i - 1] {
        if i < k {
          assert spine[i] == oldSpine[i] != succ && spine[i - 1] == oldSpine[i - 1];
        } else if i > k {
          assert spine[i] == oldSpine[i + 1] != succ && spine[i - 1] == oldSpine[i];
        }
      }
    }

    /** An iterator at the first node (null, the end iterator, when empty). */
    method Begin() returns (it: Node?)
      requires Valid()
      ensures it == if spine == [] then null else spine[0]
    {
      it := head;
    }

    /** `last`: an iterator at the last node.  The walk starts by following
        the head's link, so on an empty list it dereferences null. */
    method Last() returns (r: Result<Node?>)
      requires Valid()
      ensures r.Err? <==> spine == []
      ensures r.Err? ==> r.error == Undefined
      ensures r.Ok? ==> r.value == spine[|spine| - 1] && r.value.data == Contents()[|Contents()| - 1]
    {
      if head == null {
        return Err(Undefined);
      }
      var it := head;
      ghost var i := 0;
      while it.next != null
        invariant 0 <= i < |spine| && it == spine[i]
        invariant it.next == if i + 1 < |spine| then spine[i + 1] else null
        decreases |spine| - i
      {
        it := it.next;
        i := i + 1;
      }
      r := Ok(it);
    }

    /** An iterator at the node holding `x`, or the end iterator. */
    method FindIterator(x: int) returns (it: Node?)
      requires Valid()
      ensures it != null <==> x in Contents()
      ensures it != null ==> it in Repr && it.data == x
    {
      var found, pred, k := Find(x);
      if found {
        it := if pred == null then head else pred.next;
      } else {
        it := null;
      }
    }

    /** Walks from Begin to the end iterator with ++, reading each position. */
    method Traverse() returns (out: seq<int>)
      requires Valid()
      ensures out == Contents()
    {
      var it := Begin();
      out := [];
      ghost var i := 0;
      while it != null
        invariant 0 <= i <= |spine|
        invariant it == if i < |spine| then spine[i] else null
        invariant out == Contents()[..i]
        decreases |spine| - i
      {
        var v := Deref(it);
        out := out + [v.value];
        var step := Next(it);
        it := step.value;
        i := i + 1;
      }
    }

    /** Walks from Last with -- until the end iterator, reading each
        position. The walk ends at the end iterator only when the first
        node's `prev` link is null. */
    method TraverseBackward() returns (out: seq<int>)
      requires Valid() && spine != [] && HeadPrevNull()
      ensures |out| == |Contents()|
      ensures forall i :: 0 <= i < |out| ==> out[i] == Contents()[|out| - 1 - i]
    {
      var last := Last();
      var it := last.value;
      out := [];
      ghost var i := |spine|;
      while it != null
        invariant 0 <= i <= |spine|
        invariant it == if i > 0 then spine[i - 1] else null
        invariant |out| == |spine| - i
        invariant forall j :: 0 <= j < |out| ==> out[j] == Contents()[|spine| - 1 - j]
        decreases i
      {
        var v := Deref(it);
        out := out + [v.value];
        var step := Prev(it);
        it := step.value;
        i := i - 1;
      }
    }
  }

  /** The values held by a sequence of nodes. */
  ghost function Values(sp: seq<Node>): seq<int>
  {
    seq(|sp|, i requires 0 <= i < |sp| => sp[i].data)
  }

  lemma {:induction false} ValuesInsert(sp: seq<Node>, k: nat, n: Node)
    requires k <= |sp|
    ensures Values(sp[..k] + [n] + sp[k..]) == Values(sp)[..k] + [n.data] + Values(sp)[k..]
  {
  }

  lemma {:induction false} ValuesDelete(sp: seq<Node>, k: nat)
    requires k < |sp|
    ensures Values(sp[..k] + sp[k + 1..]) == Values(sp)[..k] + Values(sp)[k + 1..]
  {
  }

  /** Advancing an iterator; a runtime_error at the end iterator. */
  function Next(it: Node?): (r: Result<Node?>)
    reads it
    ensures it == null <==> r.Err?
    ensures r.Err? ==> r.error == RuntimeError
    ensures r.Ok? ==> r.value == it.next
  {
    if it == null then Err(RuntimeError) else Ok(it.next)
  }

  /** Moving an iterator back; a runtime_error at the end iterator. */
  function Prev(it: Node?): (r: Result<Node?>)
    reads it
    ensures it == null <==> r.Err?
    ensures r.Err? ==> r.error == RuntimeError
    ensures r.Ok? ==> r.value == it.prev
  {
    if it == null then Err(RuntimeError) else Ok(it.prev)
  }

  /** Reading an iterator; a runtime_error at the end iterator. */
  function Deref(it: Node?): (r: Result<int>)
    ensures it == null <==> r.Err?
    ensures r.Err? ==> r.error == RuntimeError
    ensures r.Ok? ==> r.value == it.data
  {
    if it == null then Err(RuntimeError) else Ok(it.data)
  }

  /** Adds the values of `xs` in turn. */
  method AddAll(l: DoubleList, xs: seq<int>)
    requires l.Valid()
    modifies l.Repr
    ensures l.Valid() && fresh(l.Repr - old(l.Repr))
    ensures l.Contents() == InsertAll(old(l.Contents()), xs)
    ensures old(l.HeadPrevNull()) ==> l.HeadPrevNull()
  {
    for i := 0 to |xs|
      invariant l.Valid() && fresh(l.Repr - old(l.Repr))
      invariant InsertAll(l.Contents(), xs[i..]) == InsertAll(old(l.Contents()), xs)
      invariant old(l.HeadPrevNull()) ==> l.HeadPrevNull()
    {
      assert xs[i..][1..] == xs[i + 1..];
      var b := l.Add(xs[i]);
    }
  }

  /** Removes the values of `xs` in turn. None of them is the first value,
      so the first node and its null `prev` link stay. */
  method RmvAll(l: DoubleList, xs: seq<int>)
    requires l.Valid() && l.HeadPrevNull() && l.Contents() != []
    requires forall i :: 0 <= i < |xs| ==> xs[i] > l.Contents()[0]
    modifies l.Repr
    ensures l.Valid() && fresh(l.Repr - old(l.Repr)) && l.HeadPrevNull()
    ensures l.Contents() == DeleteAll(old(l.Contents()), xs)
  {
    ghost var first := l.Contents()[0];
    for i := 0 to |xs|
      invariant l.Valid() && fresh(l.Repr - old(l.Repr)) && l.HeadPrevNull()
      invariant l.Contents() != [] && l.Contents()[0] == first
      invariant DeleteAll(l.Contents(), xs[i..]) == DeleteAll(old(l.Contents()), xs)
    {
      assert xs[i..][1..] == xs[i + 1..];
      var b := l.Rmv(xs[i]);
    }
  }

  lemma {:induction false} ScenarioAdds()
    ensures InsertAll([], [3, 5, 6, 4, 1, 2]) == [1, 2, 3, 4, 5, 6]
  {
    assert InsertAll([], [3, 5, 6, 4, 1, 2]) == InsertAll([3, 5, 6], [4, 1, 2]) by {
      assert Insert([], 3) == [3];
      assert Insert([3], 5) == [3, 5];
      assert Insert([3, 5], 6) == [3, 5, 6];
    }
    AddFour();
    AddOne();
    AddTwo();
  }

  lemma {:induction false} ScenarioRemovals()
    ensures DeleteAll([1, 2, 3, 4, 5, 6], [6, 2, 3]) == [1, 4, 5]
  {
    RemoveSix();
    RemoveTwo();
    RemoveThree();
  }

  lemma {:induction false} AddFour() ensures Insert([3, 5, 6], 4) == [3, 4, 5, 6] {}
  lemma {:induction false} AddOne() ensures Insert([3, 4, 5, 6], 1) == [1, 3, 4, 5, 6] {}
  lemma {:induction false} AddTwo() ensures Insert([1, 3, 4, 5, 6], 2) == [1, 2, 3, 4, 5, 6] {}
  lemma {:induction false} RemoveSix() ensures Delete([1, 2, 3, 4, 5, 6], 6) == [1, 2, 3, 4, 5] {}
  lemma {:induction false} RemoveTwo() ensures Delete([1, 2, 3, 4, 5], 2) == [1, 3, 4, 5] {}
  lemma {:induction false} RemoveThree() ensures Delete([1, 3, 4, 5], 3) == [1, 4, 5] {}

  /** Adding 3, 5, 6, 4, 1, 2 and removing 6, 2, 3 leaves 1, 4, 5, read
      forwards, and 5, 4, 1 read backwards. */
  method AddRemoveScenario() returns (forward: seq<int>, backward: seq<int>)
    ensures forward == [1, 4, 5] && backward == [5, 4, 1]
  {
    var l := ScenarioList();
    forward := l.Traverse();
    backward := l.TraverseBackward();
    assert |backward| == 3 && backward[0] == 5 && backward[1] == 4 && backward[2] == 1;
  }

  /** The list after adding 3, 5, 6, 4, 1, 2 and removing 6, 2, 3. */
  method ScenarioList() returns (l: DoubleList)
    ensures l.Valid() && l.HeadPrevNull() && l.Contents() == [1, 4, 5]
  {
    l := ScenarioFilled();
    ScenarioRemovals();
    RmvAll(l, [6, 2, 3]);
  }

  /** The list after adding 3, 5, 6, 4, 1, 2. */
  method ScenarioFilled() returns (l: DoubleList)
    ensures l.Valid() && fresh(l.Repr) && l.HeadPrevNull() && l.Contents() == [1, 2, 3, 4, 5, 6]
  {
    ScenarioAdds();
    l := new DoubleList();
    AddAll(l, [3, 5, 6, 4, 1, 2]);
  }
}
