/** The sorted singly linked list: values kept in strictly ascending order,
    each at most once. A lookup walks the `next` links and stops at the first
    value that is not smaller than the one sought; the link it stops at (the
    `head` field, or the `next` field of the node before) is where an insertion
    or a removal happens. */
module SimpleLists {
  import opened Common
  import opened Sorted

  class Node {
    const data: int
    var next: Node?

    constructor (data: int)
      ensures this.data == data && next == null
    {
      this.data := data;
      next := null;
    }
  }

  class SimpleList {
    var head: Node?
    /** The nodes from the head to the last one. */
    ghost var spine: seq<Node>
    ghost var Repr: set<object>

    ghost predicate Valid()
      reads this, Repr
    {
      this in Repr && (forall i :: 0 <= i < |spine| ==> spine[i] in Repr) &&
      (head == null <==> spine == []) &&
      (spine != [] ==> head == spine[0] && spine[|spine| - 1].next == null) &&
      (forall i :: 0 <= i < |spine| - 1 ==> spine[i].next == spine[i + 1]) &&
      Ascending(Values(spine))
    }

    /** The stored values, in list order. */
    ghost function Contents(): seq<int>
      reads this
    {
      Values(spine)
    }

    constructor ()
      ensures Valid() && fresh(Repr) && Contents() == []
    {
      head := null;
      spine := [];
      Repr := {this};
    }

    /** The search behind add, rmv and the public find. `pred` is the node
        whose `next` link is the stopping place, or null when that place is
        `head`; `k` is the stopping position. */
    method Find(x: int) returns (found: bool, pred: Node?, ghost k: nat)
      requires Valid()
      ensures k == Before(Contents(), x)
      ensures found <==> x in Contents()
      ensures found ==> k < |spine| && spine[k].data == x
      ensures pred == if k == 0 then null else spine[k - 1]
    {
      pred := null;
      var cur := head;
      k := 0;
      while cur != null
        invariant 0 <= k <= |spine|
        invariant cur == if k < |spine| then spine[k] else null
        invariant pred == if k == 0 then null else spine[k - 1]
        invariant forall i :: 0 <= i < k ==> Contents()[i] < x
        decreases |spine| - k
      {
        if cur.data == x {
          BeforeUnique(Contents(), x, k);
          BeforeFinds(Contents(), x);
          return true, pred, k;
        }
        if cur.data > x {
          BeforeUnique(Contents(), x, k);
          BeforeFinds(Contents(), x);
          return false, pred, k;
        }
        pred := cur;
        cur := cur.next;
        k := k + 1;
      }
      BeforeUnique(Contents(), x, k);
      BeforeFinds(Contents(), x);
      found := false;
    }

    /** Distinct positions hold distinct nodes, since they hold distinct values. */
    lemma {:induction false} NodesDistinct(k: nat)
      requires Valid() && k < |spine|
      ensures forall i :: 0 <= i < |spine| && i != k ==> spine[i] != spine[k]
    {
      forall i | 0 <= i < |spine| && i != k ensures spine[i] != spine[k] {
        if i < k { assert Contents()[i] < Contents()[k]; }
        else { assert Contents()[k] < Contents()[i]; }
      }
    }

    /** Inserts `x` in order; false, with nothing changed, when it is present. */
    method Add(x: int) returns (added: bool)
      requires Valid()
      modifies Repr
      ensures Valid() && fresh(Repr - old(Repr))
      ensures added <==> x !in old(Contents())
      ensures Contents() == Insert(old(Contents()), x)
    {
      var found, pred, k := Find(x);
      ghost var oldContents := Contents();
      if found {
        InsertPresent(oldContents, x);
        return false;
      }
      InsertAbsent(oldContents, x);
      LinkAt(pred, k, x);
      return true;
    }

    /** Stores a new node holding `x` in the link Find stopped at: the
        `next` field of `pred`, or `head` when `pred` is null. */
    method LinkAt(pred: Node?, ghost k: nat, x: int)
      requires Valid() && k <= |spine|
      requires pred == if k == 0 then null else spine[k - 1]
      requires Ascending(Contents()[..k] + [x] + Contents()[k..])
      modifies Repr
      ensures Valid() && fresh(Repr - old(Repr))
      ensures Contents() == old(Contents())[..k] + [x] + old(Contents())[k..]
    {
      ghost var oldSpine := spine;
      if k > 0 { NodesDistinct(k - 1); }
      var n := new Node(x);
      if pred == null {
        n.next := head;
        head := n;
      } else {
        n.next := pred.next;
        pred.next := n;
      }
      spine := oldSpine[..k] + [n] + oldSpine[k..];
      Repr := Repr + {n};
      ValuesInsert(oldSpine, k, n);
      forall i | 0 <= i < |spine| - 1 ensures spine[i].next == spine[i + 1] {
        if i + 1 < k {
          assert spine[i] == oldSpine[i] != pred && spine[i + 1] == oldSpine[i + 1];
        } else if i > k {
          assert spine[i] == oldSpine[i - 1] != pred && spine[i + 1] == oldSpine[i];
        }
      }
      assert head == spine[0];
      assert spine[|spine| - 1].next == null by {
        if k < |oldSpine| {
          assert spine[|spine| - 1] == oldSpine[|oldSpine| - 1] != pred;
        }
      }
    }

    /** Unlinks `x`; false, with nothing changed, when it is absent. */
    method Rmv(x: int) returns (removed: bool)
      requires Valid()
      modifies Repr
      ensures Valid() && fresh(Repr - old(Repr))
      ensures removed <==> x in old(Contents())
      ensures Contents() == Delete(old(Contents()), x)
    {
      var found, pred, k := Find(x);
      ghost var oldContents := Contents();
      if !found {
        DeleteAbsent(oldContents, x);
        return false;
      }
      DeletePresent(oldContents, x);
      UnlinkAt(pred, k);
      return true;
    }

    /** Bypasses the node at position `k`, whose link is the `next` field of
        `pred`, or `head` when `pred` is null. */
    method UnlinkAt(pred: Node?, ghost k: nat)
      requires Valid() && k < |spine|
      requires pred == if k == 0 then null else spine[k - 1]
      requires Ascending(Contents()[..k] + Contents()[k + 1..])
      modifies Repr
      ensures Valid() && fresh(Repr - old(Repr))
      ensures Contents() == old(Contents())[..k] + old(Contents())[k + 1..]
    {
      ghost var oldSpine := spine;
      if k > 0 { NodesDistinct(k - 1); }
      var target := if pred == null then head else pred.next;
      assert target == oldSpine[k];
      assert target.next == if k + 1 < |oldSpine| then oldSpine[k + 1] else null;
      if pred == null {
        head := target.next;
      } else {
        pred.next := target.next;
      }
      spine := oldSpine[..k] + oldSpine[k + 1..];
      ValuesDelete(oldSpine, k);
      forall i | 0 <= i < |spine| - 1 ensures spine[i].next == spine[i + 1] {
        if i + 1 < k {
          assert spine[i] == oldSpine[i] != pred && spine[i + 1] == oldSpine[i + 1];
        } else if i >= k {
          assert spine[i] == oldSpine[i + 1] != pred && spine[i + 1] == oldSpine[i + 2];
        }
      }
    }

    /** An iterator at the first node (null, the end iterator, when empty). */
    method Begin() returns (it: Node?)
      requires Valid()
      ensures it == if spine == [] then null else spine[0]
    {
      it := head;
    }

    /** `last`: an iterator at the last node.  The walk starts by following
        the head's link, so on an empty list it dereferences null. */
    method Last() returns (r: Result<Node?>)
      requires Valid()
      ensures r.Err? <==> spine == []
      ensures r.Err? ==> r.error == Undefined
      ensures r.Ok? ==> r.value == spine[|spine| - 1] && r.value.data == Contents()[|Contents()| - 1]
    {
      if head == null {
        return Err(Undefined);
      }
      var it := head;
      ghost var i := 0;
      while it.next != null
        invariant 0 <= i < |spine| && it == spine[i]
        invariant it.next == if i + 1 < |spine| then spine[i + 1] else null
        decreases |spine| - i
      {
        it := it.next;
        i := i + 1;
      }
      r := Ok(it);
    }

    /** An iterator at the node holding `x`, or the end iterator. */
    method FindIterator(x: int) returns (it: Node?)
      requires Valid()
      ensures it != null <==> x in Contents()
      ensures it != null ==> it in Repr && it.data == x
    {
      var found, pred, k := Find(x);
      if found {
        it := if pred == null then head else pred.next;
      } else {
        it := null;
      }
    }

    /** Walks from Begin to the end iterator, reading each position. */
    method Traverse() returns (out: seq<int>)
      requires Valid()
      ensures out == Contents()
      ensures Ascending(out)
    {
      var it := Begin();
      out := [];
      ghost var i := 0;
      while it != null
        invariant 0 <= i <= |spine|
        invariant it == if i < |spine| then spine[i] else null
        invariant out == Contents()[..i]
        decreases |spine| - i
      {
        var v := Deref(it);
        out := out + [v.value];
        var step := Next(it);
        it := step.value;
        i := i + 1;
      }
    }
  }

  /** The values held by a sequence of nodes. */
  ghost function Values(sp: seq<Node>): seq<int>
  {
    seq(|sp|, i requires 0 <= i < |sp| => sp[i].data)
  }

  lemma {:induction false} ValuesInsert(sp: seq<Node>, k: nat, n: Node)
    requires k <= |sp|
    ensures Values(sp[..k] + [n] + sp[k..]) == Values(sp)[..k] + [n.data] + Values(sp)[k..]
  {
  }

  lemma {:induction false} ValuesDelete(sp: seq<Node>, k: nat)
    requires k < |sp|
    ensures Values(sp[..k] + sp[k + 1..]) == Values(sp)[..k] + Values(sp)[k + 1..]
  {
  }

  /** Advancing an iterator; a runtime_error at the end iterator. */
  function Next(it: Node?): (r: Result<Node?>)
    reads it
    ensures it == null <==> r.Err?
    ensures r.Err? ==> r.error == RuntimeError
    ensures r.Ok? ==> r.value == it.next
  {
    if it == null then Err(RuntimeError) else Ok(it.next)
  }

  /** Reading an iterator; a runtime_error at the end iterator. */
  function Deref(it: Node?): (r: Result<int>)
    ensures it == null <==> r.Err?
    ensures r.Err? ==> r.error == RuntimeError
    ensures r.Ok? ==> r.value == it.data
  {
    if it == null then Err(RuntimeError) else Ok(it.data)
  }

  /** Adds the values of `xs` in turn. */
  method AddAll(l: SimpleList, xs: seq<int>)
    requires l.Valid()
    modifies l.Repr
    ensures l.Valid() && fresh(l.Repr - old(l.Repr))
    ensures l.Contents() == InsertAll(old(l.Contents()), xs)
  {
    for i := 0 to |xs|
      invariant l.Valid() && fresh(l.Repr - old(l.Repr))
      invariant InsertAll(l.Contents(), xs[i..]) == InsertAll(old(l.Contents()), xs)
    {
      assert xs[i..][1..] == xs[i + 1..];
      var b := l.Add(xs[i]);
    }
  }

  /** Removes the values of `xs` in turn. */
  method RmvAll(l: SimpleList, xs: seq<int>)
    requires l.Valid()
    modifies l.Repr
    ensures l.Valid() && fresh(l.Repr - old(l.Repr))
    ensures l.Contents() == DeleteAll(old(l.Contents()), xs)
  {
    for i := 0 to |xs|
      invariant l.Valid() && fresh(l.Repr - old(l.Repr))
      invariant DeleteAll(l.Contents(), xs[i..]) == DeleteAll(old(l.Contents()), xs)
    {
      assert xs[i..][1..] == xs[i + 1..];
      var b := l.Rmv(xs[i]);
    }
  }

  lemma {:induction false} ScenarioAdds()
    ensures InsertAll([], [3, 4, 2, 7, 1, 8]) == [1, 2, 3, 4, 7, 8]
  {
    assert InsertAll([], [3, 4, 2, 7, 1, 8]) == InsertAll([2, 3, 4], [7, 1, 8]) by {
      assert Insert([], 3) == [3];
      assert Insert([3], 4) == [3, 4];
      assert Insert([3, 4], 2) == [2, 3, 4];
    }
    AddSeven();
    AddOne();
    AddEight();
  }

  lemma {:induction false} AddSeven() ensures Insert([2, 3, 4], 7) == [2, 3, 4, 7] {}
  lemma {:induction false} AddOne() ensures Insert([2, 3, 4, 7], 1) == [1, 2, 3, 4, 7] {}
  lemma {:induction false} AddEight() ensures Insert([1, 2, 3, 4, 7], 8) == [1, 2, 3, 4, 7, 8] {}

  lemma {:induction false} ScenarioRemovals()
    ensures DeleteAll([1, 2, 3, 4, 7, 8], [3, 8, 2]) == [1, 4, 7]
  {
    RemoveThree();
    RemoveEight();
    RemoveTwo();
  }

  lemma {:induction false} RemoveThree() ensures Delete([1, 2, 3, 4, 7, 8], 3) == [1, 2, 4, 7, 8] {}
  lemma {:induction false} RemoveEight() ensures Delete([1, 2, 4, 7, 8], 8) == [1, 2, 4, 7] {}
  lemma {:induction false} RemoveTwo() ensures Delete([1, 2, 4, 7], 2) == [1, 4, 7] {}

  /** Adding 3, 4, 2, 7, 1, 8 and removing 3, 8, 2 leaves 1, 4, 7. */
  method AddRemoveScenario() returns (out: seq<int>)
    ensures out == [1, 4, 7]
  {
    ScenarioAdds();
    ScenarioRemovals();
    var l := new SimpleList();
    AddAll(l, [3, 4, 2, 7, 1, 8]);
    RmvAll(l, [3, 8, 2]);
    out := l.Traverse();
  }
}
