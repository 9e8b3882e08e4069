/** The Fibonacci heap `MaxFiboHeap<int>` of include/MaxFiboHeap.hpp.  The
    object keeps its list of roots, the iterator `m_max` (a position,
    `None` for `end()`) and the counter `m_size`.  `add` only pushes a
    one-node tree at the front of the roots; `removeTop` links roots of
    equal degree with the same table as the binomial heaps; `remove`
    writes the sentinel `max + 1` into the node holding the value, cuts it
    off with `increaseKey` (or points `m_max` at it when it is a root), and
    removes it as the maximum.  The class has no `size()` or `empty()`. */
module MaxFiboHeaps {
  import opened Common
  import opened BinaryHeaps
  import opened Forests
  import opened TreePaths
  import opened RootLists
  import opened FiboTrees

  class MaxFiboHeap {
    var roots: seq<Tree<Color>>
    var max: Option<nat>
    var size: nat

    ghost function Contents(): multiset<int>
      reads this
    {
      ElemsOf(roots)
    }

    /** Consistent `degree` fields and child `parent` pointers, and `m_max`
        on a root. */
    ghost predicate Shaped()
      reads this
    {
      Shape(roots, max)
    }

    /** `m_size` counts the stored values. */
    ghost predicate Counted()
      reads this
    {
      size == |Contents()|
    }

    /** Heap-ordered trees, and no root holds more than the one `m_max`
        points at. */
    ghost predicate Valid()
      reads this
    {
      Heap(Greater, roots, max, size)
    }

    /** The value `m_max` points at. */
    ghost function MaxData(): int
      reads this
      requires Shaped() && roots != []
    {
      roots[max.value].data
    }

    /** The position `find` starts its search from. */
    function MaxIndex(): nat
      reads this
    {
      Index(max)
    }

    constructor ()
      ensures Valid() && roots == [] && size == 0
    {
      roots := [];
      max := None;
      size := 0;
    }

    /** `add`: a one-node tree at the front of the roots; `m_max` moves to
        it when it is the only root or holds more than the maximum, so of
        equal maxima the older one stays on top. */
    method Add(x: int)
      requires Valid()
      modifies this
      ensures Valid()
      ensures Contents() == old(Contents()) + multiset{x}
      ensures roots == [Leaf(x, White)] + old(roots) && size == old(size) + 1
      ensures old(roots) == [] || x > old(MaxData()) ==> max == Some(0)
      ensures old(roots) != [] && x <= old(MaxData()) ==> max == Some(old(max.value) + 1)
    {
      var leaf := Leaf(x, White);
      PushedFront(Greater, roots, MaxIndex(), leaf, [leaf] + roots);
      roots := [leaf] + roots;
      if |roots| == 1 || x > roots[max.value + 1].data {
        max := Some(0);
      } else {
        max := Some(max.value + 1);
      }
      size := size + 1;
    }

    /** `getMax`: a `runtime_error` on an empty heap, otherwise the
        greatest value stored. */
    method GetMax() returns (r: Result<int>)
      requires Valid()
      ensures r.Err? <==> Contents() == multiset{}
      ensures r.Err? ==> r.error == RuntimeError
      ensures r.Ok? ==> r.value in Contents() && forall y :: y in Contents() ==> y <= r.value
    {
      if roots == [] {
        return Err(RuntimeError);
      }
      ElemsOfCovers(roots, max.value);
      ElemsRoot(roots[max.value]);
      forall y | y in Contents()
        ensures y <= roots[max.value].data
      {
        BestFirst(Greater, roots, max.value, y);
      }
      r := Ok(roots[max.value].data);
    }

    /** `sort` always throws a `runtime_error`. */
    method Sort() returns (r: Result<()>)
      ensures r.Err? && r.error == RuntimeError
    {
      r := Err(RuntimeError);
    }

    /** `removeTop`: the maximum's children join the roots with null
        parent pointers, the maximum goes, roots of equal degree are
        linked and `m_max` is chosen again.  As in the minimum heap, the
        linking table may be too small once `increaseKey` has cut trees;
        a heap whose trees are all binomial never overflows it. */
    method RemoveTop() returns (res: Result<()>)
      requires Shaped() && Counted() && AllOrdered(Greater, roots)
      modifies this
      ensures old(roots) == [] ==> res.Ok? && roots == [] && max == old(max) && size == old(size)
      ensures old(roots) != [] ==> Contents() == old(Contents()) - multiset{old(MaxData())}
      ensures res.Ok? ==> Valid()
      ensures res.Err? ==> res.error == OutOfRange && max == old(max) && size == old(size)
      ensures old(AllBinomial(roots)) ==> res.Ok? && AllBinomial(roots)
    {
      var L, m, n;
      res, L, m, n := Pop(Greater, roots, max, size);
      Store(L, m, n);
    }

    /** The new state of the heap. */
    method Store(L: seq<Tree<Color>>, m: Option<nat>, n: nat)
      modifies this
      ensures roots == L && max == m && size == n
      ensures Heap(Greater, L, m, n) ==> Valid()
    {
      roots, max, size := L, m, n;
    }

    /** `remove(x)` never follows a parent pointer the trees do not hold. */
    ghost predicate RemoveDefined(x: int)
      reads this
      requires Valid()
    {
      FiboTrees.RemoveDefined(Greater, roots, max, x)
    }

    /** `remove(x)`: the sentinel `max + 1` replaces the first copy of `x`
        that `find` reaches and becomes the maximum, which `removeTop` then
        removes.  One copy of `x` goes, and nothing changes when `x` is
        absent.  When `x` sits at a root of a binomial heap, the linking
        table suffices. */
    method Remove(x: int) returns (res: Result<()>)
      requires Valid() && RemoveDefined(x)
      modifies this
      ensures Contents() == old(Contents()) - multiset{x}
      ensures res.Ok? ==> Valid()
      ensures res.Err? ==> res.error == OutOfRange
      ensures x !in old(Contents()) ==> res.Ok? && roots == old(roots) && max == old(max) && size == old(size)
      ensures var r := FindRoots(Greater, old(roots), Index(old(max)), x, Missing);
        r.Found? && |r.path| == 1 && old(AllBinomial(roots)) ==> res.Ok?
    {
      var L, m, n;
      res, L, m, n := Delete(Greater, roots, max, size, x, true);
      Store(L, m, n);
    }
  }
}
