/** The Fibonacci heap `MinFiboHeap<int>` of include/MinFiboHeap.hpp with
    its default comparator `std::less`, equality `std::equal_to` and
    decreaser `std::minus`.  The object keeps its list of roots, the
    iterator `m_min` (a position, `None` for `end()`) and the counter
    `m_size`.  `add` only pushes a one-node tree at the front of the roots;
    `removeTop` links roots of equal degree with the same table as the
    binomial heaps; `remove` writes the sentinel `min - 1` into the node
    holding the value, cuts it off with `decreaseKey`, and removes it as the
    minimum.

    The class below is the heap as evidently intended, where the root case
    of `remove` also moves `m_min` to the sentinel.  `RemoveAsWritten`
    models the code as it stands. */
module MinFiboHeaps {
  import opened Common
  import opened BinaryHeaps
  import opened Forests
  import opened TreePaths
  import opened RootLists
  import opened FiboTrees
  import ArrayHeaps

  class MinFiboHeap {
    var roots: seq<Tree<Color>>
    var min: Option<nat>
    var size: nat

    ghost function Contents(): multiset<int>
      reads this
    {
      ElemsOf(roots)
    }

    /** Consistent `degree` fields and child `parent` pointers, and `m_min`
        on a root.  A root may still hold the parent pointer it had before
        `decreaseKey` cut it off. */
    ghost predicate Shaped()
      reads this
    {
      Shape(roots, min)
    }

    /** `m_size` counts the stored values. */
    ghost predicate Counted()
      reads this
    {
      size == |Contents()|
    }

    /** Heap-ordered trees, and no root holds less than the one `m_min`
        points at. */
    ghost predicate Valid()
      reads this
    {
      Heap(Less, roots, min, size)
    }

    /** The value `m_min` points at. */
    ghost function MinData(): int
      reads this
      requires Shaped() && roots != []
    {
      roots[min.value].data
    }

    /** The position `find` starts its search from. */
    function MinIndex(): nat
      reads this
    {
      Index(min)
    }

    constructor ()
      ensures Valid() && roots == [] && size == 0
    {
      roots := [];
      min := None;
      size := 0;
    }

    /** `add`: a one-node tree at the front of the roots; `m_min` moves to
        it when it is the only root or holds no more than the minimum. */
    method Add(x: int)
      requires Valid()
      modifies this
      ensures Valid()
      ensures Contents() == old(Contents()) + multiset{x}
      ensures roots == [Leaf(x, White)] + old(roots) && size == old(size) + 1
      ensures old(roots) == [] || x <= old(MinData()) ==> min == Some(0)
      ensures old(roots) != [] && x > old(MinData()) ==> min == Some(old(min.value) + 1)
    {
      var leaf := Leaf(x, White);
      PushedFront(Less, roots, MinIndex(), leaf, [leaf] + roots);
      roots := [leaf] + roots;
      if |roots| == 1 || x < roots[min.value + 1].data || x == roots[min.value + 1].data {
        min := Some(0);
      } else {
        min := Some(min.value + 1);
      }
      size := size + 1;
    }

    /** `getMin`: a `runtime_error` on an empty heap, otherwise the least
        value stored. */
    method GetMin() returns (r: Result<int>)
      requires Valid()
      ensures r.Err? <==> Contents() == multiset{}
      ensures r.Err? ==> r.error == RuntimeError
      ensures r.Ok? ==> r.value in Contents() && forall y :: y in Contents() ==> r.value <= y
    {
      if roots == [] {
        return Err(RuntimeError);
      }
      ElemsOfCovers(roots, min.value);
      ElemsRoot(roots[min.value]);
      forall y | y in Contents()
        ensures roots[min.value].data <= y
      {
        BestFirst(Less, roots, min.value, y);
      }
      r := Ok(roots[min.value].data);
    }

    /** `size()` and `empty()`. */
    method Size() returns (n: nat)
      requires Valid()
      ensures n == |Contents()|
    {
      n := size;
    }

    method Empty() returns (e: bool)
      requires Valid()
      ensures e <==> Contents() == multiset{}
    {
      e := size == 0;
    }

    /** `sort` always throws a `runtime_error`. */
    method Sort() returns (r: Result<()>)
      ensures r.Err? && r.error == RuntimeError
    {
      r := Err(RuntimeError);
    }

    /** `removeTop`: the minimum's children join the roots with null
        parent pointers, the minimum goes, roots of equal degree are
        linked and `m_min` is chosen again.  Trees cut by `decreaseKey`
        need not be binomial, so the linking table may be too small: the
        `out_of_range` then leaves the links made so far, `m_min` dangling
        and `m_size` as it was.  A heap whose trees are all binomial never
        overflows the table. */
    method RemoveTop() returns (res: Result<()>)
      requires Shaped() && Counted() && AllOrdered(Less, roots)
      modifies this
      ensures old(roots) == [] ==> res.Ok? && roots == [] && min == old(min) && size == old(size)
      ensures old(roots) != [] ==> Contents() == old(Contents()) - multiset{old(MinData())}
      ensures res.Ok? ==> Valid()
      ensures res.Err? ==> res.error == OutOfRange && min == old(min) && size == old(size)
      ensures old(AllBinomial(roots)) ==> res.Ok? && AllBinomial(roots)
    {
      var L, m, n;
      res, L, m, n := Pop(Less, roots, min, size);
      Store(L, m, n);
    }

    /** The new state of the heap. */
    method Store(L: seq<Tree<Color>>, m: Option<nat>, n: nat)
      modifies this
      ensures roots == L && min == m && size == n
      ensures Heap(Less, L, m, n) ==> Valid()
    {
      roots, min, size := L, m, n;
    }

    /** `remove(x)` never follows a parent pointer the trees do not hold. */
    ghost predicate RemoveDefined(x: int)
      reads this
      requires Valid()
    {
      FiboTrees.RemoveDefined(Less, roots, min, x)
    }

    /** `remove(x)` as evidently intended: the sentinel `min - 1` replaces
        the first copy of `x` that `find` reaches and becomes the minimum,
        which `removeTop` then removes.  One copy of `x` goes, and nothing
        changes when `x` is absent. */
    method Remove(x: int) returns (res: Result<()>)
      requires Valid() && RemoveDefined(x)
      modifies this
      ensures Contents() == old(Contents()) - multiset{x}
      ensures res.Ok? ==> Valid()
      ensures res.Err? ==> res.error == OutOfRange
      ensures x !in old(Contents()) ==> res.Ok? && roots == old(roots) && min == old(min) && size == old(size)
      ensures var r := FindRoots(Less, old(roots), Index(old(min)), x, Missing);
        r.Found? && |r.path| == 1 && old(AllBinomial(roots)) ==> res.Ok?
    {
      var L, m, n;
      res, L, m, n := Delete(Less, roots, min, size, x, true);
      Store(L, m, n);
    }

    /** `remove(x)` as written: in the root case the sentinel is written
        but `m_min` stays where it was, so unless the root was the minimum
        `removeTop` removes the old minimum and the sentinel stays. */
    method RemoveAsWritten(x: int) returns (res: Result<()>)
      requires Valid() && RemoveDefined(x)
      modifies this
      ensures var L0, m0 := old(roots), old(min);
        var r := FindRoots(Less, L0, Index(m0), x, Missing);
        (!r.Found? ==> res.Ok? && roots == L0 && min == m0 && size == old(size)) &&
        (r.Found? && (|r.path| > 1 || r.path == [Index(m0)]) ==>
           ElemsOf(roots) == ElemsOf(L0) - multiset{x}) &&
        (r.Found? && |r.path| == 1 && r.path != [Index(m0)] ==>
           ElemsOf(roots) == ElemsOf(L0) - multiset{x} + multiset{L0[m0.value].data - 1} - multiset{L0[m0.value].data}) &&
        (r.Found? && |r.path| == 1 && AllBinomial(L0) ==> res.Ok?)
      ensures res.Ok? ==> Valid()
      ensures res.Err? ==> res.error == OutOfRange
    {
      var L0, m0 := roots, min;
      var L, m, n;
      res, L, m, n := Delete(Less, L0, m0, size, x, false);
      if L0 != [] {
        assert ArrayHeaps.Modi(Less, L0[m0.value].data, 1) == L0[m0.value].data - 1;
      }
      Store(L, m, n);
    }
  }

  /** The roots after `add(1)` then `add(2)`. */
  function TwoLeaves(): (L: seq<Tree<Color>>)
    ensures |L| == 2 && FindRoots(Less, L, 1, 2, Missing) == Found([0])
  {
    var L := [Leaf(2, White), Leaf(1, White)];
    assert FindIn(Less, L[0], 2, Missing) == Found([]);
    assert [0] + [] == [0];
    assert FindAmong(Less, L, 2, Missing, 0, Missing) == Found([0]);
    L
  }

  /** `add(1)`, `add(2)`, `remove(2)` as written: `find` stops at the
      root 2, which becomes the sentinel 0 while `m_min` stays on the root
      1, and `removeTop` removes 1.  The heap is left holding 0 instead of
      1. */
  method SentinelKept() returns (h: MinFiboHeap)
    ensures h.Contents() == multiset{0}
  {
    h := new MinFiboHeap();
    h.Add(1);
    h.Add(2);
    assert h.roots == TwoLeaves();
    var res := h.RemoveAsWritten(2);
  }

  /** The same calls with `remove` as evidently intended leave 1. */
  method SentinelRemoved() returns (h: MinFiboHeap)
    ensures h.Contents() == multiset{1}
  {
    h := new MinFiboHeap();
    h.Add(1);
    h.Add(2);
    assert h.roots == TwoLeaves();
    var res := h.Remove(2);
  }
}
