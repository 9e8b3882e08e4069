// The binary min-heap `MinArrayHeap` of inc/heaps/min_array_heap.h, over
// `int` values.  Its `heapify` sinks a value below a smaller child, so it is
// the sift-down `SiftDown(Less, ...)`: every parent is at most its children.

module MinArrayHeaps {
  import opened Common
  import opened BinaryHeaps

  /** The value `remove` writes over the removed one: the root minus one,
      which is below every value of a heap. */
  function BelowTop(top: int): (v: int)
    ensures v < top
  {
    top - 1
  }

  class MinArrayHeap {
    var vec: seq<int>

    /** The default constructor: an empty heap. */
    constructor ()
      ensures vec == []
    {
      vec := [];
    }

    /** The reserve constructor: `reserve` value-initialised elements, which
        is a heap of zeros rather than an empty heap. */
    constructor Reserve(reserve: nat)
      ensures vec == seq(reserve, _ => 0)
      ensures |vec| < SIZE_MOD ==> HeapOrdered(Less, vec)
    {
      vec := seq(reserve, _ => 0);
    }

    /** The vector constructor: `heapify(ii)` with the full size for ii from
        size/2 down to 0. */
    constructor FromVector(v: seq<int>)
      requires |v| < SIZE_MOD
      ensures |vec| == |v| && multiset(vec) == multiset(v) && HeapOrdered(Less, vec)
    {
      var t := BuildHeap(Less, v);
      vec := t;
    }

    /** `heapify(ii, size)`: a size of 0 means the whole vector, a size
        beyond the vector returns silently, otherwise the value at `ii`
        sinks within the first `size` slots. */
    method Heapify(ii: nat, size: nat)
      requires ii < SIZE_MOD && |vec| < SIZE_MOD
      modifies this
      ensures size > |old(vec)| ==> vec == old(vec)
      ensures |vec| == |old(vec)| && multiset(vec) == multiset(old(vec))
      ensures forall j :: 0 <= j < ii && j < |vec| ==> vec[j] == old(vec)[j]
      ensures var n := if size == 0 then |old(vec)| else size;
        n <= |old(vec)| ==> vec[n..] == old(vec)[n..]
      ensures var n := if size == 0 then |old(vec)| else size;
        n <= |old(vec)| && HeapExcept(Less, old(vec), n, 0, ii) && Bridge(Less, old(vec), n, 0, ii) ==>
        HeapFrom(Less, vec, n, 0)
    {
      var n := size;
      if n == 0 {
        n := |vec|;
      } else if n > |vec| {
        return;
      }
      vec := SiftDown(Less, vec, ii, n, 0);
    }

    /** `add`: the value is appended and only its parent is sifted down.
        Heap order survives when the new value is not below its
        grandparent; further up nothing is restored. */
    method Add(x: int)
      requires |vec| + 1 < SIZE_MOD
      modifies this
      ensures |vec| == |old(vec)| + 1 && multiset(vec) == multiset(old(vec)) + multiset{x}
      ensures 0 < |old(vec)| ==> var p := Parent(|old(vec)|);
        forall j :: 0 <= j < p ==> vec[j] == old(vec)[j]
      ensures (HeapOrdered(Less, old(vec)) &&
        (|old(vec)| == 0 || Parent(|old(vec)|) == 0 || old(vec)[Parent(Parent(|old(vec)|))] <= x)) ==>
        HeapOrdered(Less, vec)
    {
      ghost var s := vec;
      vec := vec + [x];
      var p := Parent(|vec| - 1);
      if HeapOrdered(Less, s) && (|s| == 0 || p == 0 || s[Parent(p)] <= x) {
        if 0 < |s| && 0 < p {
          forall c | 0 < c < |vec| && Parent(c) == p ensures !Comp(Less, vec[c], vec[Parent(p)]) {
            if c < |s| {
              assert !Comp(Less, s[c], s[p]) && !Comp(Less, s[p], s[Parent(p)]);
            }
          }
        }
        assert HeapExcept(Less, vec, |vec|, 0, p) && Bridge(Less, vec, |vec|, 0, p);
      }
      Heapify(p, 0);
    }

    /** `removeTop`: nothing happens on an empty heap; otherwise the last
        value takes the root's slot, the vector shrinks by one and the root
        sinks, which keeps the heap order. */
    method RemoveTop()
      requires |vec| < SIZE_MOD
      modifies this
      ensures |old(vec)| == 0 ==> vec == []
      ensures 0 < |old(vec)| ==> |vec| == |old(vec)| - 1
      ensures 0 < |old(vec)| ==> multiset(vec) == multiset(old(vec)) - multiset{old(vec)[0]}
      ensures HeapOrdered(Less, old(vec)) ==> HeapOrdered(Less, vec)
    {
      if vec == [] {
        return;
      }
      vec := PopTop(Less, vec);
    }

    /** `getMin`: a `runtime_error` on an empty heap, otherwise the root,
        which on a heap is the least value. */
    method GetMin() returns (res: Result<int>)
      requires |vec| < SIZE_MOD
      ensures vec == [] <==> res == Err(RuntimeError)
      ensures vec != [] ==> res == Ok(vec[0])
      ensures res.Ok? && HeapOrdered(Less, vec) ==> forall i :: 0 <= i < |vec| ==> res.value <= vec[i]
    {
      if vec == [] {
        return Err(RuntimeError);
      }
      TopRanksFirst(Less, vec);
      res := Ok(vec[0]);
    }

    /** `find`: the first slot holding `x`, or the size when there is none. */
    method Find(x: int) returns (i: nat)
      ensures i <= |vec|
      ensures i < |vec| <==> x in vec
      ensures i < |vec| ==> vec[i] == x && x !in vec[..i]
    {
      i := 0;
      while i < |vec| && vec[i] != x
        invariant i <= |vec| && x !in vec[..i]
      {
        assert vec[..i + 1] == vec[..i] + [vec[i]];
        i := i + 1;
      }
      assert i == |vec| ==> vec[..i] == vec;
    }

    /** `decreaseKey`: while the value at `m` is greater than its parent the
        two change places, and `m` steps to `parent(ii)` rather than to the
        parent of `m`.  So the value written at `ii` rises by at most two
        levels, the root ends up either as it was or holding that value, and
        a value not greater than its parent does not move at all. */
    method DecreaseKey(ii: nat)
      requires ii < |vec| < SIZE_MOD
      modifies this
      ensures |vec| == |old(vec)| && multiset(vec) == multiset(old(vec))
      ensures vec[0] == old(vec)[0] || vec[0] == old(vec)[ii]
      ensures 0 < ii && old(vec)[ii] <= old(vec)[Parent(ii)] ==> vec == old(vec)
    {
      var m: nat := ii;
      while m != 0
        invariant m < |vec| == |old(vec)| && multiset(vec) == multiset(old(vec))
        invariant m == ii || (0 < ii && m == Parent(ii))
        invariant m != 0 ==> vec[m] == old(vec)[ii] || vec[m] < vec[Parent(m)]
        invariant vec[0] == old(vec)[0] || vec[0] == old(vec)[ii]
        invariant m == ii ==> vec == old(vec)
        invariant 0 < ii && old(vec)[ii] <= old(vec)[Parent(ii)] ==> m == ii
        decreases (if m == ii then 2 else 0) + (if m != 0 && vec[m] > vec[Parent(m)] then 1 else 0)
      {
        var p := Parent(m);
        if vec[m] > vec[p] {
          vec := Swap(vec, m, p);
        } else {
          return;
        }
        m := Parent(ii);
      }
    }

    /** `remove`: the slot of `x` gets the root minus one, `decreaseKey`
        runs and the root is removed.  An absent `x` (also on an empty heap)
        makes `at()` throw `out_of_range`.  Either exactly `x` goes, or `x`
        is replaced by the root minus one and the old root goes; on a heap
        the second always happens unless `x` is the root itself. */
    method Remove(x: int) returns (res: Result<()>)
      requires |vec| < SIZE_MOD
      modifies this
      ensures x !in old(vec) <==> res == Err(OutOfRange)
      ensures x !in old(vec) ==> vec == old(vec)
      ensures x in old(vec) ==> res == Ok(()) && |vec| == |old(vec)| - 1
      ensures x in old(vec) ==>
        multiset(vec) == multiset(old(vec)) - multiset{x} ||
        multiset(vec) == multiset(old(vec)) - multiset{x} + multiset{BelowTop(old(vec)[0])} - multiset{old(vec)[0]}
      ensures x in old(vec) && old(vec)[0] != x && HeapOrdered(Less, old(vec)) ==>
        multiset(vec) == multiset(old(vec)) - multiset{x} + multiset{BelowTop(old(vec)[0])} - multiset{old(vec)[0]}
    {
      var ii := Find(x);
      if ii == |vec| {
        // `at(0)` on an empty vector or `at(size)`: both throw out_of_range
        return Err(OutOfRange);
      }
      ghost var s := vec;
      var v := BelowTop(vec[0]);
      vec := vec[ii := v];
      DecreaseKey(ii);
      ghost var y := vec;
      RemoveTop();
      ReplaceThenPop(Less, s, ii, v, y, vec);
      res := Ok(());
    }

    /** `sort`: heapsort over a shrinking prefix, then a reversal; it only
        permutes the values, and a heap comes out ascending. */
    method Sort()
      requires |vec| < SIZE_MOD
      modifies this
      ensures |vec| == |old(vec)| && multiset(vec) == multiset(old(vec))
      ensures HeapOrdered(Less, old(vec)) ==> forall i, j :: 0 <= i < j < |vec| ==> vec[i] <= vec[j]
    {
      vec := HeapSort(Less, vec);
    }
  }

  /** Removing 2 from the heap [1, 2] removes the root 1 and keeps the
      written value 0. */
  method RemoveDropsMin() returns (v: seq<int>)
    ensures v == [0]
  {
    var h := new MinArrayHeap.FromVector([1, 2]);
    TopRanksFirst(Less, h.vec);
    assert h.vec[0] in multiset(h.vec) && h.vec[1] in multiset(h.vec);
    assert h.vec[0] == 1;
    var _ := h.Remove(2);
    v := h.vec;
    assert multiset(v) == multiset{0};
    assert v[0] in multiset(v);
  }

  /** Adding 0 to the heap [1, 5, 2, 6, 7] leaves 1 at the root above 0, so
      the vector is no longer a heap. */
  method AddBreaksOrder() returns (v: seq<int>)
    ensures |v| == 6 && 0 in v && v[..2] == [1, 5] && !HeapOrdered(Less, v)
  {
    var h := new MinArrayHeap();
    h.vec := [1, 5, 2, 6, 7];
    assert Parent(5) == 2;
    h.Add(0);
    v := h.vec;
    assert 0 in multiset(v);
    TopRanksFirst(Less, v);
  }
}
