// The generic binary array heap `ArrayHeap<Type, Comp, Modi>` of
// include/ArrayHeap.hpp, over `int` values, modelled as written.  The
// comparator is an `Order`: `Greater` with `Modi` = plus is `MaxArrayHeap`,
// `Less` with `Modi` = minus is `MinArrayHeap`.
//
// As written, `heapify` with an explicit size sinks a value below a child c
// when `comp(value, c)` holds, so the order it keeps is the one of
// `Flip(order)`; with the default size it does nothing at all, so the
// vector constructor, `add` and `remove_top` never reorder anything.

module ArrayHeaps {
  import opened Common
  import opened BinaryHeaps

  /** `Modi()(a, b)`: `std::plus` for `Greater`, `std::minus` for `Less`; a
      positive step moves a value to rank above where it started. */
  function Modi(o: Order, a: int, b: int): (r: int)
    ensures b > 0 <==> Comp(o, r, a)
  {
    match o
    case Greater => a + b
    case Less => a - b
  }

  /** The heap's `Equal`: neither value ranks above the other. */
  function Equivalent(o: Order, a: int, b: int): (e: bool)
    ensures e <==> a == b
  {
    !(Comp(o, a, b) || Comp(o, b, a))
  }

  class ArrayHeap {
    var vec: seq<int>
    const order: Order

    /** The default constructor: an empty heap. */
    constructor (o: Order)
      ensures order == o && vec == []
    {
      order := o;
      vec := [];
    }

    /** The vector constructor: it calls `heapify(ii)` for ii from size/2
        down to 0, each with the default size, so the vector stays as given. */
    constructor FromVector(o: Order, v: seq<int>)
      requires |v| < SIZE_MOD
      ensures order == o && vec == v
    {
      order := o;
      vec := v;
      new;
      var ii: int := |v| / 2;
      while ii != -1
        invariant -1 <= ii <= |v| / 2 && vec == v
        decreases ii
      {
        var _ := Heapify(ii, 0);
        ii := ii - 1;
      }
    }

    /** The number of stored values. */
    function Size(): (n: nat)
      reads this
      ensures n == |multiset(vec)|
    {
      |vec|
    }

    function Empty(): (e: bool)
      reads this
      ensures e <==> multiset(vec) == multiset{}
    {
      |vec| == 0
    }

    /** `heapify(ii, size)`.  A size of 0 stays 0, because the default size
        is compared with the vector's size instead of being assigned, and
        nothing moves; a size beyond the vector is a `logic_error`; any other
        size sinks the value at `ii` within the first `size` slots. */
    method Heapify(ii: nat, size: nat) returns (res: Result<()>)
      requires ii < SIZE_MOD && |vec| < SIZE_MOD
      modifies this
      ensures size == 0 ==> res == Ok(()) && vec == old(vec)
      ensures size > |old(vec)| ==> res == Err(LogicError) && vec == old(vec)
      ensures 0 < size <= |old(vec)| ==> res == Ok(()) && |vec| == |old(vec)|
      ensures 0 < size <= |old(vec)| ==>
        vec[size..] == old(vec)[size..] && multiset(vec[..size]) == multiset(old(vec)[..size])
      ensures 0 < size <= |old(vec)| && HeapExcept(Flip(order), old(vec), size, ii, ii) ==>
        HeapFrom(Flip(order), vec, size, ii)
    {
      if size == 0 {
        // the size stays 0: no slot is inside the heap
      } else if size > |vec| {
        return Err(LogicError);
      }
      vec := SiftDown(Flip(order), vec, ii, size, ii);
      assert vec[size..] == old(vec)[size..];
      res := Ok(());
    }

    /** `add`: the value is appended and `heapify(parent(n - 1))` runs with
        the default size, so nothing else moves. */
    method Add(x: int)
      requires |vec| + 1 < SIZE_MOD
      modifies this
      ensures vec == old(vec) + [x]
    {
      vec := vec + [x];
      var _ := Heapify(Parent(|vec| - 1), 0);
    }

    /** `remove_top`: a `logic_error` on an empty heap; otherwise the last
        value takes the root's slot and the vector shrinks by one. */
    method RemoveTop() returns (res: Result<()>)
      requires |vec| < SIZE_MOD
      modifies this
      ensures |old(vec)| == 0 <==> res == Err(LogicError)
      ensures |old(vec)| == 0 ==> vec == old(vec)
      ensures 0 < |old(vec)| ==> res == Ok(()) && |vec| == |old(vec)| - 1
      ensures 0 < |old(vec)| ==> multiset(vec) == multiset(old(vec)) - multiset{old(vec)[0]}
      ensures |old(vec)| > 1 ==> vec == [old(vec)[|old(vec)| - 1]] + old(vec)[1..|old(vec)| - 1]
    {
      if vec == [] {
        return Err(LogicError);
      }
      ghost var s := vec;
      var u := Swap(vec, 0, |vec| - 1);
      vec := u[..|u| - 1];
      assert u == vec + [s[0]];
      assert |s| > 1 ==> vec == [s[|s| - 1]] + s[1..|s| - 1];
      var _ := Heapify(0, 0);
      res := Ok(());
    }

    /** `get_top`: a `logic_error` on an empty heap, otherwise the root;
        under the order `heapify` keeps, no value ranks above the root. */
    method GetTop() returns (res: Result<int>)
      requires |vec| < SIZE_MOD
      ensures vec == [] <==> res == Err(LogicError)
      ensures vec != [] ==> res == Ok(vec[0])
      ensures res.Ok? && HeapOrdered(Flip(order), vec) ==>
        forall i :: 0 <= i < |vec| ==> !Comp(order, res.value, vec[i])
    {
      if vec == [] {
        return Err(LogicError);
      }
      TopRanksFirst(Flip(order), vec);
      res := Ok(vec[0]);
    }

    /** `find`: the first slot holding an equivalent value, or a
        `runtime_error` when there is none. */
    method Find(x: int) returns (res: Result<nat>)
      ensures res.Err? <==> x !in vec
      ensures res.Err? ==> res.error == RuntimeError
      ensures res.Ok? ==> res.value < |vec| && vec[res.value] == x && x !in vec[..res.value]
    {
      var i: nat := 0;
      while i < |vec| && !Equivalent(order, vec[i], x)
        invariant i <= |vec| && x !in vec[..i]
      {
        assert vec[..i + 1] == vec[..i] + [vec[i]];
        i := i + 1;
      }
      if i == |vec| {
        assert vec[..i] == vec;
        return Err(RuntimeError);
      }
      return Ok(i);
    }

    /** `bubble_key`: the value at `ii` changes places with its parent as
        long as it does NOT rank above it.  The root ends up either as it
        was or holding the bubbled value; a value that already ranks above
        its parent does not move at all.  Against the order `heapify` keeps
        this is a correct bubbling up. */
    method BubbleKey(ii: nat)
      requires ii < |vec| < SIZE_MOD
      modifies this
      ensures |vec| == |old(vec)| && multiset(vec) == multiset(old(vec))
      ensures vec[0] == old(vec)[0] || vec[0] == old(vec)[ii]
      ensures 0 < ii && Comp(order, old(vec)[ii], old(vec)[Parent(ii)]) ==> vec == old(vec)
      ensures HeapBut(Flip(order), old(vec), ii) ==> HeapOrdered(Flip(order), vec)
    {
      var m: nat := ii;
      while m != 0
        invariant m < |vec| == |old(vec)| && multiset(vec) == multiset(old(vec))
        invariant vec[m] == old(vec)[ii]
        invariant m != 0 ==> vec[0] == old(vec)[0]
        invariant m == ii ==> vec == old(vec)
        invariant 0 < ii && Comp(order, old(vec)[ii], old(vec)[Parent(ii)]) ==> m == ii
        invariant HeapBut(Flip(order), old(vec), ii) ==> HeapBut(Flip(order), vec, m)
        decreases m
      {
        var p := Parent(m);
        if Comp(order, vec[m], vec[p]) {
          assert !Comp(Flip(order), vec[m], vec[p]);
          return;
        }
        if HeapBut(Flip(order), old(vec), ii) {
          BubbleStep(Flip(order), vec, m);
        }
        vec := Swap(vec, m, p);
        m := p;
      }
    }

    /** `remove`: a `runtime_error` when no value is equivalent to `x`.
        Otherwise the slot of `x` gets `modi(top, 1)`, `bubble_key` runs
        and the root is removed.  So either exactly `x` goes, or `x` is
        replaced by `modi(top, 1)` and the old top goes; on a heap in the
        order the heap's name promises, the second always happens unless
        `x` is the top itself. */
    method Remove(x: int) returns (res: Result<()>)
      requires |vec| < SIZE_MOD
      modifies this
      ensures x !in old(vec) <==> res == Err(RuntimeError)
      ensures x !in old(vec) ==> vec == old(vec)
      ensures x in old(vec) ==> res == Ok(()) && |vec| == |old(vec)| - 1
      ensures x in old(vec) ==>
        var v := Modi(order, old(vec)[0], 1);
        multiset(vec) == multiset(old(vec)) - multiset{x} ||
        multiset(vec) == multiset(old(vec)) - multiset{x} + multiset{v} - multiset{old(vec)[0]}
      ensures x in old(vec) && old(vec)[0] != x && HeapOrdered(order, old(vec)) ==>
        multiset(vec) == multiset(old(vec)) - multiset{x} + multiset{Modi(order, old(vec)[0], 1)} - multiset{old(vec)[0]}
    {
      var found := Find(x);
      if found.Err? {
        return Err(found.error);
      }
      var ii := found.value;
      ghost var s := vec;
      var v := Modi(order, vec[0], 1);
      vec := vec[ii := v];
      BubbleKey(ii);
      ghost var y := vec;
      var _ := RemoveTop();
      ReplaceThenPop(order, s, ii, v, y, vec);
      res := Ok(());
    }

    /** `sort`: the root changes places with the last slot of a shrinking
        prefix, which is re-heapified with an explicit size; at the end the
        vector is reversed.  It only permutes the values, and from a vector
        in the order `heapify` keeps it leaves no value ranked above an
        earlier one. */
    method Sort()
      requires |vec| < SIZE_MOD
      modifies this
      ensures |vec| == |old(vec)| && multiset(vec) == multiset(old(vec))
      ensures HeapOrdered(Flip(order), old(vec)) ==>
        forall i, j :: 0 <= i < j < |vec| ==> !Comp(order, vec[i], vec[j])
    {
      vec := HeapSort(Flip(order), vec);
    }
  }

  /** Building a `MaxArrayHeap` from [1, 2, 0] keeps the vector as given,
      which is heap-ordered in neither direction, and `get_top` yields 1. */
  method ConstructorKeepsOrder() returns (v: seq<int>, top: Result<int>)
    ensures v == [1, 2, 0] && top == Ok(1)
    ensures !HeapOrdered(Greater, v) && !HeapOrdered(Less, v)
  {
    var h := new ArrayHeap.FromVector(Greater, [1, 2, 0]);
    top := h.GetTop();
    v := h.vec;
    TopRanksFirst(Greater, v);
    TopRanksFirst(Less, v);
    assert Comp(Greater, v[1], v[0]) && Comp(Less, v[2], v[0]);
  }

  /** Removing 1 from the `MaxArrayHeap` [2, 1] removes the top 2 and keeps
      the written value 3. */
  method RemoveDropsTop() returns (v: seq<int>)
    ensures v == [3]
  {
    var h := new ArrayHeap.FromVector(Greater, [2, 1]);
    assert HeapOrdered(Greater, h.vec) by {
      assert Parent(1) == 0;
    }
    assert h.vec[0] == 2 && h.vec[1] == 1 && Modi(Greater, 2, 1) == 3;
    var _ := h.Remove(1);
    v := h.vec;
    assert multiset(v) == multiset{2, 1} - multiset{1} + multiset{3} - multiset{2} == multiset{3};
    assert v[0] in multiset(v);
  }
}
