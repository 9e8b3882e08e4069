/** The binomial heap `BinomialHeap<Type, Comp, Modi>` of
    include/BinomialHeap.hpp over `int` values: `MaxBinomialHeap` is the
    `Greater` order with `Modi` = plus, `MinBinomialHeap` the `Less` order
    with `Modi` = minus.  The object keeps its list of roots, the iterator
    `m_top` (a position, `None` for `end()`) and the counter `m_size`.

    The class below is the heap as evidently intended: `m_size` starts at 0
    and `add` counts the new value before it links the roots, `remove`
    carries the sentinel `modi(top, 1)` up to the root of its tree, and
    `find` starts from a null result.  The members whose names end in
    `AsWritten` model the code as it stands. */
module BinomialHeaps {
  import opened Common
  import opened BinaryHeaps
  import opened Forests
  import opened TreePaths
  import opened RootLists
  import ArrayHeaps

  class BinomialHeap {
    const order: Order
    var roots: seq<Tree<()>>
    var top: Option<nat>
    var size: nat

    ghost function Contents(): multiset<int>
      reads this
    {
      ElemsOf(roots)
    }

    /** The linked structure: binomial trees of distinct degrees with
        consistent `degree` fields and `parent` pointers, and `m_top` on
        the first root no root beats. */
    ghost predicate Shaped()
      reads this
    {
      AllWf(roots) && AllBinomial(roots) && AllFree(roots) && DistinctDegrees(roots) &&
      (top.None? <==> roots == []) &&
      (top.Some? ==> FirstBest(order, roots, top.value))
    }

    /** `m_size` counts the stored values. */
    ghost predicate Counted()
      reads this
    {
      size == |Contents()|
    }

    ghost predicate Valid()
      reads this
    {
      Shaped() && Counted() && AllOrdered(order, roots)
    }

    /** The value `m_top` points at. */
    ghost function TopData(): int
      reads this
      requires Shaped() && roots != []
    {
      roots[top.value].data
    }

    /** The position `find` starts its search from. */
    function TopIndex(): nat
      reads this
    {
      if top.Some? then top.value else 0
    }

    /** The default constructor, with `m_size` set to 0. */
    constructor (o: Order)
      ensures order == o && Valid() && Contents() == multiset{}
    {
      order := o;
      roots := [];
      top := None;
      size := 0;
    }

    /** The default constructor as written: `m_size` is left uninitialised;
        `garbage` is whatever it happens to hold. */
    constructor Uncounted(o: Order, garbage: nat)
      ensures order == o && roots == [] && size == garbage
      ensures Shaped() && AllOrdered(order, roots)
    {
      order := o;
      roots := [];
      top := None;
      size := garbage;
    }

    /** `size()` and `empty()`. */
    method Size() returns (n: nat)
      requires Valid()
      ensures n == |Contents()|
    {
      n := size;
    }

    method Empty() returns (e: bool)
      requires Valid()
      ensures e <==> Contents() == multiset{}
    {
      NonEmpty();
      e := size == 0;
    }

    /** `get_top`: a `runtime_error` on an empty heap, otherwise a stored
        value that nothing stored ranks above. */
    method GetTop() returns (r: Result<int>)
      requires Valid()
      ensures r.Err? <==> Contents() == multiset{}
      ensures r.Err? ==> r.error == RuntimeError
      ensures r.Ok? ==> r.value in Contents() && forall y :: y in Contents() ==> !Comp(order, y, r.value)
    {
      NonEmpty();
      if roots == [] || top.None? {
        return Err(RuntimeError);
      }
      ElemsOfCovers(roots, top.value);
      ElemsRoot(roots[top.value]);
      forall y | y in Contents()
        ensures !Comp(order, y, roots[top.value].data)
      {
        BestFirst(order, roots, top.value, y);
      }
      r := Ok(roots[top.value].data);
    }

    lemma {:induction false} NonEmpty()
      requires Shaped()
      ensures roots == [] <==> Contents() == multiset{}
      ensures roots != [] ==> TopData() in Contents()
    {
      if roots != [] {
        ElemsOfCovers(roots, top.value);
        ElemsRoot(roots[top.value]);
      }
    }

    /** `add` with `m_size` counting the new value before `merge`: the new
        node goes to the front of the roots, the roots are linked and the
        top is chosen again.  The degree table is always large enough. */
    method Add(x: int)
      requires Valid()
      modifies this
      ensures Valid()
      ensures Contents() == old(Contents()) + multiset{x}
    {
      var L, t := Grown(order, roots, x, size + 1);
      roots, top, size := L, t, size + 1;
    }

    /** The roots `add` leaves: a leaf for `x` in front of the roots, all
        linked with the count `size`, and the top chosen again. */
    static method Grown(o: Order, R: seq<Tree<()>>, x: int, size: nat) returns (L: seq<Tree<()>>, top: Option<nat>)
      requires AllWf(R) && AllBinomial(R) && AllFree(R) && size == |ElemsOf(R)| + 1
      ensures AllWf(L) && AllBinomial(L) && AllFree(L) && DistinctDegrees(L)
      ensures (top.None? <==> L == []) && (top.Some? ==> FirstBest(o, L, top.value))
      ensures AllOrdered(o, R) ==> AllOrdered(o, L)
      ensures ElemsOf(L) == ElemsOf(R) + multiset{x}
    {
      var leaf := Leaf(x, ());
      var L0 := [leaf] + R;
      ElemsOfAppend([leaf], R);
      Prepended(leaf, R, L0);
      var res;
      res, L := Consolidate(o, L0, size);
      top := UpdateTop(o, L);
    }

    /** `add` as written: `m_size` never changes, so `merge` sizes its
        degree table from whatever it holds and may throw `out_of_range`;
        the exception leaves `m_top` unchosen.  With an empty `m_size` and
        two roots to link, `log2(0)` makes the table size undefined.  Heap
        order is not needed: a heap that an earlier `remove` as written left
        out of order takes new values all the same, and an ordered heap
        stays ordered. */
    method AddAsWritten(x: int) returns (res: Result<()>)
      requires Shaped()
      requires roots != [] ==> size >= 1
      modifies this
      ensures Contents() == old(Contents()) + multiset{x} && size == old(size)
      ensures old(roots) == [] ==> res.Ok? && |roots| == 1 && roots[0].children == []
      ensures res.Ok? ==> Shaped() && (old(AllOrdered(order, roots)) ==> AllOrdered(order, roots))
      ensures res.Err? ==> res.error == OutOfRange
      ensures res.Ok? && old(roots) != [] ==> |Contents()| < Pow2(Slots(size))
      ensures |old(Contents())| < size ==> res.Ok?
    {
      var leaf := Leaf(x, ());
      var L0 := [leaf] + roots;
      ElemsOfAppend([leaf], roots);
      Prepended(leaf, roots, L0);
      var L;
      res, L := Consolidate(order, L0, size);
      roots := L;
      if res.Err? {
        return;
      }
      if |L0| >= 2 {
        CapacityBound(L, Slots(size));
      }
      top := UpdateTop(order, roots);
    }

    /** A leaf in front of binomial roots keeps the shape properties. */
    static lemma Prepended(leaf: Tree<()>, L: seq<Tree<()>>, L0: seq<Tree<()>>)
      requires L0 == [leaf] + L
      requires Wf(leaf) && Binomial(leaf) && !leaf.parented && forall o :: Forests.HeapOrdered(o, leaf)
      ensures forall o :: AllOrdered(o, L) ==> AllOrdered(o, L0)
      ensures AllWf(L) ==> AllWf(L0)
      ensures AllBinomial(L) ==> AllBinomial(L0)
      ensures AllFree(L) ==> AllFree(L0)
    {
      assert forall i :: 0 < i < |L0| ==> L0[i] == L[i - 1];
    }

    /** `remove_top`: the children of the top root become roots (the last
        child first, each at the front of the list), the top node is
        deleted, the roots are linked with the old count and `m_size`
        drops by one.  Nothing happens when there are no roots.  Heap order
        is not needed for the value removed to be the one `m_top` points
        at, and is kept when it holds. */
    method RemoveTop()
      requires Shaped() && Counted()
      modifies this
      ensures Shaped() && Counted()
      ensures old(AllOrdered(order, roots)) ==> AllOrdered(order, roots)
      ensures old(roots) == [] ==> roots == [] && size == old(size)
      ensures old(roots) != [] ==> Contents() == old(Contents()) - multiset{old(TopData())}
    {
      if roots == [] {
        return;
      }
      NonEmpty();
      var L, t := Unrooted(order, roots, top.value, size);
      roots, top := L, t;
      size := size - 1;
    }

    /** `remove_top` as written: the top's children join the roots and the
        top goes, then `merge` sizes its degree table from `m_size`, which
        the heap as written never keeps.  With an `m_size` of 0 and two
        roots to link, `log2(0)` makes the table size undefined; a table
        too small throws `out_of_range` before `m_top` is chosen again and
        before the count drops.  Otherwise `m_size -= 1` wraps at 0 as a
        `size_t` does.  A heap whose count is right comes out as
        `RemoveTop` leaves it. */
    method RemoveTopAsWritten() returns (res: Result<()>)
      requires Shaped() && size < SIZE_MOD
      modifies this
      ensures old(roots) == [] ==> res.Ok? && roots == [] && size == old(size)
      ensures old(roots) != [] ==> Contents() == old(Contents()) - multiset{old(TopData())}
      ensures res.Err? ==> old(roots) != [] && size == old(size)
      ensures res.Err? && res.error == Undefined <==>
        old(roots) != [] && old(size) == 0 && |old(roots)| + |old(roots[top.value].children)| >= 3
      ensures res.Err? ==> res.error == Undefined || res.error == OutOfRange
      ensures res.Ok? ==> Shaped() && (old(AllOrdered(order, roots)) ==> AllOrdered(order, roots))
      ensures res.Ok? && old(roots) != [] ==> size == SizeDec(old(size))
      ensures old(roots) != [] && |old(Contents())| <= old(size) ==> res.Ok?
      ensures old(roots) != [] && |old(roots)| + |old(roots[top.value].children)| < 3 ==> res.Ok?
      ensures old(Counted()) ==> res.Ok? && Counted()
    {
      if roots == [] {
        return Ok(());
      }
      var L;
      res, L := Relinked(order, roots, top.value, size);
      roots := L;
      if res.Err? {
        return;
      }
      top := UpdateTop(order, roots);
      size := SizeDec(size);
    }

    /** The roots `remove_top` as written leaves before `update_top` when
        root `k` is the top: its children joined to the other roots, then
        linked with the count `size` whatever it holds.  Two roots to link
        with a count of 0 are undefined; a table too small throws
        `out_of_range`. */
    static method Relinked(o: Order, R: seq<Tree<()>>, k: nat, size: nat) returns (res: Result<()>, L: seq<Tree<()>>)
      requires k < |R| && AllWf(R) && AllBinomial(R) && AllFree(R)
      ensures AllWf(L) && AllBinomial(L) && AllFree(L)
      ensures AllOrdered(o, R) ==> AllOrdered(o, L)
      ensures ElemsOf(L) == ElemsOf(R) - multiset{R[k].data} && |ElemsOf(L)| + 1 == |ElemsOf(R)|
      ensures res.Ok? ==> DistinctDegrees(L)
      ensures res.Err? && res.error == Undefined <==> size == 0 && |R| + |R[k].children| >= 3
      ensures res.Err? ==> res.error == Undefined || res.error == OutOfRange
      ensures |ElemsOf(R)| <= size ==> res.Ok?
      ensures |R| + |R[k].children| < 3 ==> res.Ok?
    {
      var L0 := Unroot(R, k);
      Orphaned(o, R, k, L0);
      if |L0| >= 2 && size == 0 {
        return Err(Undefined), L0;
      }
      res, L := Consolidate(o, L0, size);
    }

    /** The roots `remove_top` leaves when root `k` is the top: its
        children joined to the other roots, all linked with the count
        `size`, and the top chosen again. */
    static method Unrooted(o: Order, R: seq<Tree<()>>, k: nat, size: nat) returns (L: seq<Tree<()>>, top: Option<nat>)
      requires k < |R| && AllWf(R) && AllBinomial(R) && AllFree(R) && size == |ElemsOf(R)|
      ensures AllWf(L) && AllBinomial(L) && AllFree(L) && DistinctDegrees(L)
      ensures (top.None? <==> L == []) && (top.Some? ==> FirstBest(o, L, top.value))
      ensures AllOrdered(o, R) ==> AllOrdered(o, L)
      ensures ElemsOf(L) == ElemsOf(R) - multiset{R[k].data} && |ElemsOf(L)| + 1 == size
    {
      var L0 := Unroot(R, k);
      Orphaned(o, R, k, L0);
      var res;
      res, L := Consolidate(o, L0, size);
      top := UpdateTop(o, L);
    }

    /** The roots once the top's children have joined them and the top is
        gone: still binomial trees with no parent, one value fewer. */
    static lemma Orphaned(o: Order, R: seq<Tree<()>>, k: nat, L: seq<Tree<()>>)
      requires k < |R| && L == Orphans(R[k].children) + Erase(R, k)
      requires AllWf(R) && AllBinomial(R) && AllFree(R)
      ensures AllWf(L) && AllBinomial(L) && AllFree(L)
      ensures AllOrdered(o, R) ==> AllOrdered(o, L)
      ensures ElemsOf(L) == ElemsOf(R) - multiset{R[k].data}
      ensures |ElemsOf(L)| + 1 == |ElemsOf(R)|
    {
      UnrootElems(R, k);
      UnrootKeeps(o, R, k);
      forall i | |R[k].children| <= i < |L|
        ensures !L[i].parented
      {
        assert L[i] == Erase(R, k)[i - |R[k].children|];
      }
      assert ElemsOf(L) == ElemsOf(R) - multiset{R[k].data};
    }

    /** `remove(x)` as evidently intended: `find` starts from a null
        result, and `bubble_key` carries the sentinel `modi(top, 1)` up while
        it ranks above its parent's value, that is to the root of its tree,
        where `remove_top` removes it.  One copy of `x` goes, and nothing
        changes when `x` is absent. */
    method Remove(x: int)
      requires Valid()
      modifies this
      ensures Valid()
      ensures Contents() == old(Contents()) - multiset{x}
    {
      var r := Find(order, roots, TopIndex(), x, Missing);
      FindRootsExact(order, roots, TopIndex(), x);
      if !r.Found? {
        return;
      }
      var s := ArrayHeaps.Modi(order, roots[top.value].data, 1);
      Plant(r.path[0], r.path[1..], x, s, WhileAbove);
      assert |Contents() + multiset{x}| == |old(Contents()) + multiset{s}|;
      ghost var c := Contents();
      RemoveTop();
      Traded(Contents(), c, old(Contents()), x, s);
    }

    /** `remove(x)` as written: `find`'s result variable starts
        uninitialised (reading it is undefined, hence the precondition), and
        `bubble_key` swaps while the value does NOT rank above its parent's.
        A sentinel written below a root therefore never moves: `update_top`
        keeps the old top, `remove_top` removes the old top instead of the
        sentinel, and the sentinel stays stored out of heap order.  The
        `remove_top` that runs is the one as written, whose `merge` sizes
        its table from `m_size` whatever that holds.

        Heap order is not required, since such a heap is what an earlier
        `remove` as written leaves.  There `find` can miss a stored `x`
        (it skips trees whose root ranks below `x`), and `bubble_key` can
        move the sentinel past parents that rank above it; it never
        reaches a root, because the sentinel ranks above every root, so
        the old top is removed all the same. */
    method RemoveAsWritten(x: int) returns (res: Result<()>)
      requires Shaped() && size < SIZE_MOD
      requires FindRoots(order, roots, TopIndex(), x, Indeterminate) != Indeterminate
      modifies this
      ensures var r := old(FindRoots(order, roots, TopIndex(), x, Missing));
        !r.Found? ==> res.Ok? && roots == old(roots) && top == old(top) && size == old(size)
      ensures x !in old(Contents()) ==> res.Ok? && Contents() == old(Contents()) && size == old(size)
      ensures old(AllOrdered(order, roots)) ==>
        (old(FindRoots(order, roots, TopIndex(), x, Missing)).Found? <==> x in old(Contents()))
      ensures old(FindRoots(order, roots, TopIndex(), x, Missing)).Found? && res.Ok? ==>
        Shaped() && size == SizeDec(old(size))
      ensures res.Err? ==> res.error == OutOfRange || (res.error == Undefined && old(size) == 0)
      ensures old(Counted()) ==> res.Ok? && Shaped() && Counted()
      ensures var r := old(FindRoots(order, roots, TopIndex(), x, Missing));
        r.Found? && |r.path| == 1 ==> Contents() == old(Contents()) - multiset{x}
      ensures var r := old(FindRoots(order, roots, TopIndex(), x, Missing));
        r.Found? && |r.path| > 1 ==>
          Contents() == old(Contents()) - multiset{x} + multiset{ArrayHeaps.Modi(order, old(TopData()), 1)} - multiset{old(TopData())}
    {
      var r := Find(order, roots, TopIndex(), x, Indeterminate);
      FindRootsAgree(order, roots, TopIndex(), x);
      FindRootsSound(order, roots, TopIndex(), x);
      if AllOrdered(order, roots) {
        FindRootsExact(order, roots, TopIndex(), x);
      }
      if !r.Found? {
        return Ok(());
      }
      var s := ArrayHeaps.Modi(order, roots[top.value].data, 1);
      Plant(r.path[0], r.path[1..], x, s, WhileNotAbove);
      ghost var c := Contents();
      res := RemoveTopAsWritten();
      if |r.path| == 1 {
        Traded(Contents(), c, old(Contents()), x, s);
      } else {
        Swapped(c, old(Contents()), x, s);
      }
    }

    /** The middle of `remove`: the node holding `x`, at path `q` below root
        `i`, gets the sentinel `s`.  A root becomes `m_top` directly;
        otherwise `bubble_key` moves the sentinel by `rule` and `update_top`
        runs.  Carried up to the root, the sentinel is the new top, of an
        ordered heap when the heap was ordered; by `bubble_key` as written
        it never reaches a root and the top is unchanged. */
    method Plant(i: nat, q: seq<nat>, x: int, s: int, rule: Rule)
      requires Shaped() && i < |roots| && InTree(roots[i], q) && Sub(roots[i], q).data == x
      requires rule == WhileAbove ==> AllOrdered(order, roots)
      requires s == ArrayHeaps.Modi(order, TopData(), 1)
      modifies this
      ensures Shaped() && size == old(size) && roots != []
      ensures Contents() + multiset{x} == old(Contents()) + multiset{s}
      ensures rule == WhileAbove || q == [] ==> TopData() == s
      ensures (rule == WhileAbove || q == []) && old(AllOrdered(order, roots)) ==> AllOrdered(order, roots)
      ensures rule == WhileNotAbove && q != [] ==> TopData() == old(TopData())
    {
      SubKeeps(order, roots[i], q);
      if !Sub(roots[i], q).parented {
        assert q == [];
        var u := roots[i].(data := s);
        RootRewritten(order, roots, top.value, i, u, roots[i := u], x, s);
        if AllOrdered(order, roots) {
          SentinelAbove(order, roots, top.value, s);
          Overwritten(order, roots, i, u, roots[i := u], x, s);
        }
        roots := roots[i := u];
        top := Some(i);
      } else {
        PlantBelow(i, q, x, s, rule);
      }
    }

    /** `Plant` below a root: `bubble_key` and `update_top`. */
    method PlantBelow(i: nat, q: seq<nat>, x: int, s: int, rule: Rule)
      requires Shaped() && i < |roots| && InTree(roots[i], q) && Sub(roots[i], q).data == x
      requires Sub(roots[i], q).parented
      requires rule == WhileAbove ==> AllOrdered(order, roots)
      requires s == ArrayHeaps.Modi(order, TopData(), 1)
      modifies this
      ensures Shaped() && size == old(size) && roots != []
      ensures Contents() + multiset{x} == old(Contents()) + multiset{s}
      ensures rule == WhileAbove ==> AllOrdered(order, roots) && TopData() == s
      ensures rule == WhileNotAbove ==> TopData() == old(TopData())
    {
      SubKeeps(order, roots[i], q);
      var t0 := SetData(roots[i], q, s);
      SetDataRaised(roots[i], q, s, s);
      ghost var k0 := top.value;
      if rule == WhileAbove {
        SentinelAbove(order, roots, k0, s);
        ClimbsToRoot(order, roots, i, q, s);
      }
      var t, m := Bubble(order, rule, t0, q);
      InTreePrefix(t0, q, m);
      if rule == WhileAbove {
        assert m == 0;
        PlantedBelow(order, roots, k0, i, q, x, s, rule, t, m);
        roots := roots[i := t];
        top := UpdateTop(order, roots);
        FirstBestUnique(order, roots, i, top.value);
      } else {
        StopsBelowRoot(order, roots, k0, i, q, s, t0, m);
        StayedBelow(order, roots, k0, i, q, x, s, t, m);
        roots := roots[i := t];
        top := UpdateTop(order, roots);
        FirstBestUnique(order, roots, k0, top.value);
      }
    }
  }

  /** The roots once the sentinel `s` written at the end of `q` below root
      `i` has bubbled: carried to the root (`m` is 0) it is the one top of
      ordered trees; left in place the roots keep their values. */
  lemma {:induction false} PlantedBelow(o: Order, L: seq<Tree<()>>, k0: nat, i: nat, q: seq<nat>, x: int, s: int,
                                        rule: Rule, t: Tree<()>, m: nat)
    requires AllOrdered(o, L) && AllWf(L) && AllBinomial(L) && AllFree(L) && DistinctDegrees(L) && FirstBest(o, L, k0)
    requires i < |L| && InTree(L[i], q) && q != [] && Sub(L[i], q).data == x
    requires forall y :: y in ElemsOf(L) ==> Comp(o, s, y)
    requires m <= |q| && t == Raised(SetData(L[i], q, s), q, m, s)
    requires rule == WhileAbove ==> m == 0
    requires rule == WhileNotAbove ==> m == |q|
    ensures var R := L[i := t];
      AllWf(R) && AllBinomial(R) && AllFree(R) && DistinctDegrees(R) &&
      ElemsOf(R) + multiset{x} == ElemsOf(L) + multiset{s} && |ElemsOf(R)| == |ElemsOf(L)|
    ensures rule == WhileAbove ==> AllOrdered(o, L[i := t]) && FirstBest(o, L[i := t], i) && L[i := t][i].data == s
    ensures rule == WhileNotAbove ==> FirstBest(o, L[i := t], k0)
  {
    var t0 := SetData(L[i], q, s);
    SetDataRaised(L[i], q, s, s);
    if rule == WhileAbove {
      PushedDown(o, L, i, q, s, L[i := t]);
      SentinelRoot(o, L, i, t, L[i := t]);
    } else {
      RaisedBottom(t0, q);
      LeftInPlace(L, i, q, s, L[i := t]);
      SameRootValues(o, L, L[i := t], k0);
    }
  }

  /** `bubble_key` as written never lifts the sentinel into a root: the
      sentinel ranks above every root, and the loop swaps only past a
      parent it does not rank above. */
  lemma {:induction false} StopsBelowRoot(o: Order, L: seq<Tree<()>>, k0: nat, i: nat, q: seq<nat>, s: int,
                                          t0: Tree<()>, m: nat)
    requires FirstBest(o, L, k0) && s == ArrayHeaps.Modi(o, L[k0].data, 1)
    requires i < |L| && InTree(L[i], q) && q != [] && t0 == SetData(L[i], q, s)
    requires m <= |q| && InTree(t0, q)
    requires forall j :: m <= j < |q| ==> InTree(t0, q[..j]) && Lifts(o, WhileNotAbove, s, Sub(t0, q[..j]).data)
    ensures 1 <= m
  {
    SentinelOverRoots(o, L, k0, s);
    SetDataRaised(L[i], q, s, s);
    RaisedAbove(L[i], q, |q|, s, 0);
    assert q[..0] == [];
    assert !Lifts(o, WhileNotAbove, s, Sub(t0, q[..0]).data);
  }

  /** The sentinel stopped below the root of tree `i` after bubbling
      (`m` at least 1): the shape and the roots' values are kept, so the
      top is the old one, and the sentinel has taken the place of `x`.
      No heap order is needed. */
  lemma {:induction false} StayedBelow(o: Order, L: seq<Tree<()>>, k0: nat, i: nat, q: seq<nat>, x: int, s: int,
                                       t: Tree<()>, m: nat)
    requires AllWf(L) && AllBinomial(L) && AllFree(L) && DistinctDegrees(L) && FirstBest(o, L, k0)
    requires i < |L| && InTree(L[i], q) && q != [] && Sub(L[i], q).data == x
    requires 1 <= m <= |q| && t == Raised(SetData(L[i], q, s), q, m, s)
    ensures var R := L[i := t];
      AllWf(R) && AllBinomial(R) && AllFree(R) && DistinctDegrees(R) && FirstBest(o, R, k0) &&
      ElemsOf(R) + multiset{x} == ElemsOf(L) + multiset{s} && |ElemsOf(R)| == |ElemsOf(L)|
  {
    var t0 := SetData(L[i], q, s);
    var R := L[i := t];
    SetDataRaised(L[i], q, s, s);
    RaisedShape(L[i], q, |q|, s);
    ShapeKeeps(L[i], t0);
    RaisedShape(t0, q, m, s);
    ShapeKeeps(t0, t);
    Replaced(o, L, i, t, R);
    RaisedAbove(t0, q, m, s, 0);
    RaisedAbove(L[i], q, |q|, s, 0);
    assert q[..0] == [];
    assert t.data == L[i].data;
    SameRootValues(o, L, R, k0);
    ElemsRaised(L[i], q, |q|, s);
    ElemsRaised(t0, q, m, s);
    Cancel(Elems(t), Elems(t0), multiset{s});
    ElemsOfUpdate(L, i, t);
    Exchange(ElemsOf(R), Elems(L[i]), ElemsOf(L), Elems(t), x, s);
  }

  /** The sentinel written into root `i`, heap-ordered or not: the shape
      is kept and, ranking above every other root, the sentinel is the
      one top. */
  lemma {:induction false} RootRewritten(o: Order, L: seq<Tree<()>>, k0: nat, i: nat, u: Tree<()>, R: seq<Tree<()>>,
                                         x: int, s: int)
    requires FirstBest(o, L, k0) && s == ArrayHeaps.Modi(o, L[k0].data, 1)
    requires i < |L| && L[i].data == x && u == L[i].(data := s) && R == L[i := u]
    requires AllWf(L) && AllBinomial(L) && AllFree(L)
    ensures AllWf(R) && AllBinomial(R) && AllFree(R)
    ensures DistinctDegrees(L) ==> DistinctDegrees(R)
    ensures FirstBest(o, R, i)
    ensures ElemsOf(R) + multiset{x} == ElemsOf(L) + multiset{s} && |ElemsOf(R)| == |ElemsOf(L)|
  {
    SameShapeRefl(L[i]);
    assert u.children == L[i].children;
    assert SameShape(L[i], u);
    ShapeKeeps(L[i], u);
    Replaced(o, L, i, u, R);
    SentinelOverRoots(o, L, k0, s);
    StrictBest(o, R, i);
    ElemsOfUpdate(L, i, u);
    ElemsRoot(L[i]);
    ElemsRoot(u);
    Exchange(ElemsOf(R), Elems(L[i]), ElemsOf(L), Elems(u), x, s);
  }

  /** Replacing one root by a tree of the same degree that keeps the
      shape properties keeps them for the whole list. */
  lemma {:induction false} Replaced(o: Order, L: seq<Tree<()>>, i: nat, u: Tree<()>, R: seq<Tree<()>>)
    requires i < |L| && R == L[i := u]
    requires Wf(u) && Binomial(u) && !u.parented && u.degree == L[i].degree
    requires AllWf(L) && AllBinomial(L) && AllFree(L)
    ensures AllWf(R) && AllBinomial(R) && AllFree(R)
    ensures DistinctDegrees(L) ==> DistinctDegrees(R)
    ensures DegreeSorted(L) ==> DegreeSorted(R)
    ensures AllOrdered(o, L) && Forests.HeapOrdered(o, u) ==> AllOrdered(o, R)
  {
    forall k | 0 <= k < |R|
      ensures Wf(R[k]) && Binomial(R[k]) && !R[k].parented && R[k].degree == L[k].degree
    {
      if k != i {
        assert R[k] == L[k];
      }
    }
    if AllOrdered(o, L) && Forests.HeapOrdered(o, u) {
      forall k | 0 <= k < |R|
        ensures Forests.HeapOrdered(o, R[k])
      {
        if k != i {
          assert R[k] == L[k];
        }
      }
    }
  }

  /** The sentinel written into a root whose value is `x`. */
  lemma {:induction false} Overwritten(o: Order, L: seq<Tree<()>>, i: nat, u: Tree<()>, R: seq<Tree<()>>, x: int, s: int)
    requires i < |L| && L[i].data == x && u == L[i].(data := s) && R == L[i := u]
    requires AllOrdered(o, L) && AllWf(L) && AllBinomial(L) && AllFree(L)
    requires forall y :: y in ElemsOf(L) ==> Comp(o, s, y)
    ensures AllOrdered(o, R) && AllWf(R) && AllBinomial(R) && AllFree(R)
    ensures DistinctDegrees(L) ==> DistinctDegrees(R)
    ensures DegreeSorted(L) ==> DegreeSorted(R)
    ensures ElemsOf(R) + multiset{x} == ElemsOf(L) + multiset{s} && |ElemsOf(R)| == |ElemsOf(L)|
  {
    assert Forests.HeapOrdered(o, u) by {
      ElemsOfCovers(L, i);
      forall c | 0 <= c < |u.children|
        ensures !Comp(o, u.children[c].data, s)
      {
        ElemsOfCovers(L[i].children, c);
        ElemsRoot(L[i].children[c]);
        assert u.children[c].data in ElemsOf(L);
      }
    }
    Replaced(o, L, i, u, R);
    ElemsOfUpdate(L, i, u);
    ElemsRoot(L[i]);
    ElemsRoot(u);
    Exchange(ElemsOf(R), Elems(L[i]), ElemsOf(L), Elems(u), x, s);
  }

  /** The sentinel ranks above every value on the path above it. */
  lemma {:induction false} ClimbsToRoot(o: Order, L: seq<Tree<()>>, i: nat, q: seq<nat>, s: int)
    requires i < |L| && InTree(L[i], q)
    requires forall y :: y in ElemsOf(L) ==> Comp(o, s, y)
    ensures forall j :: 0 <= j < |q| ==>
      InTree(SetData(L[i], q, s), q[..j]) && Comp(o, s, Sub(SetData(L[i], q, s), q[..j]).data)
  {
    SetDataRaised(L[i], q, s, s);
    ElemsOfCovers(L, i);
    forall j | 0 <= j < |q|
      ensures InTree(SetData(L[i], q, s), q[..j]) && Comp(o, s, Sub(SetData(L[i], q, s), q[..j]).data)
    {
      RaisedAbove(L[i], q, |q|, s, j);
      ElemsSubIn(L[i], q[..j]);
    }
  }

  /** The sentinel pushed down from the root of tree `i`: the value at the
      end of the path drops out and the heap keeps its shape and order. */
  lemma {:induction false} PushedDown(o: Order, L: seq<Tree<()>>, i: nat, q: seq<nat>, s: int, R: seq<Tree<()>>)
    requires i < |L| && InTree(L[i], q) && R == L[i := TreePaths.Push(L[i], q, s)]
    requires AllOrdered(o, L) && AllWf(L) && AllBinomial(L) && AllFree(L)
    requires forall y :: y in ElemsOf(L) ==> Comp(o, s, y)
    ensures AllOrdered(o, R) && AllWf(R) && AllBinomial(R) && AllFree(R)
    ensures DistinctDegrees(L) ==> DistinctDegrees(R)
    ensures DegreeSorted(L) ==> DegreeSorted(R)
    ensures ElemsOf(R) + multiset{Sub(L[i], q).data} == ElemsOf(L) + multiset{s} && |ElemsOf(R)| == |ElemsOf(L)|
  {
    var u := TreePaths.Push(L[i], q, s);
    ElemsOfCovers(L, i);
    ElemsRoot(L[i]);
    assert L[i].data in ElemsOf(L);
    OrderedPush(o, L[i], q, s);
    PushShape(L[i], q, s);
    ShapeKeeps(L[i], u);
    Replaced(o, L, i, u, R);
    ElemsPush(L[i], q, s);
    ElemsOfUpdate(L, i, u);
    Exchange(ElemsOf(R), Elems(L[i]), ElemsOf(L), Elems(u), Sub(L[i], q).data, s);
  }

  /** The sentinel left where it was written, below the root of tree `i`:
      the shape is kept, heap order is not. */
  lemma {:induction false} LeftInPlace(L: seq<Tree<()>>, i: nat, q: seq<nat>, s: int, R: seq<Tree<()>>)
    requires i < |L| && InTree(L[i], q) && q != [] && R == L[i := SetData(L[i], q, s)]
    requires AllWf(L) && AllBinomial(L) && AllFree(L)
    ensures AllWf(R) && AllBinomial(R) && AllFree(R)
    ensures DistinctDegrees(L) ==> DistinctDegrees(R)
    ensures forall k :: 0 <= k < |L| ==> R[k].data == L[k].data
    ensures ElemsOf(R) + multiset{Sub(L[i], q).data} == ElemsOf(L) + multiset{s} && |ElemsOf(R)| == |ElemsOf(L)|
  {
    var u := SetData(L[i], q, s);
    SetDataRaised(L[i], q, s, s);
    RaisedShape(L[i], q, |q|, s);
    ShapeKeeps(L[i], u);
    Replaced(Greater, L, i, u, R);
    ElemsRaised(L[i], q, |q|, s);
    ElemsOfUpdate(L, i, u);
    Exchange(ElemsOf(R), Elems(L[i]), ElemsOf(L), Elems(u), Sub(L[i], q).data, s);
  }

  /** Two binomial trees of different degrees hold at least three values. */
  lemma {:induction false} MinSize(L: seq<Tree<()>>)
    requires AllBinomial(L) && DistinctDegrees(L)
    ensures |L| >= 2 ==> |ElemsOf(L)| >= 3
  {
    if |L| >= 2 {
      BinomialSize(L[0]);
      BinomialSize(L[1]);
      assert L[0].degree != L[1].degree;
      assert L[1..][0] == L[1];
      assert ElemsOf(L) == Elems(L[0]) + (Elems(L[1]) + ElemsOf(L[2..]));
    }
  }

  /** Binomial roots holding two values form one tree of degree 1. */
  lemma {:induction false} PairShape(L: seq<Tree<()>>) returns (a: int, b: int)
    requires AllWf(L) && AllBinomial(L) && AllFree(L) && DistinctDegrees(L)
    requires |ElemsOf(L)| == 2
    ensures L == [Node(a, 1, false, (), [Node(b, 0, true, (), [])])]
  {
    MinSize(L);
    assert L != [];
    var t := L[0];
    assert L == [t];
    ElemsOfOne(t);
    BinomialSize(t);
    assert t.degree == 1;
    var c := t.children[0];
    assert Binomial(t) && c.degree == 0 && Binomial(c);
    assert Wf(t) && c.parented;
    assert c.children == [] && t.children == [c];
    assert !t.parented && c.mark == () && t.mark == ();
    assert c == Node(c.data, 0, true, (), []);
    a, b := t.data, c.data;
    assert t == Node(a, 1, false, (), [Node(b, 0, true, (), [])]);
  }

  /** The only heap `MaxBinomialHeap` can hold 1 and 2 in: the root 2 with
      the single child 1. */
  lemma {:induction false} TwoValues(L: seq<Tree<()>>)
    requires AllOrdered(Greater, L) && AllWf(L) && AllBinomial(L) && AllFree(L) && DistinctDegrees(L)
    requires ElemsOf(L) == multiset{1, 2}
    ensures L == [Node(2, 1, false, (), [Node(1, 0, true, (), [])])]
  {
    assert |multiset{1, 2}| == 2 by {
      assert multiset{1, 2} == multiset{1} + multiset{2};
    }
    var a, b := PairShape(L);
    assert b <= a by {
      assert Forests.HeapOrdered(Greater, L[0]) && L[0].children[0].data == b;
    }
    PairValues(a, b);
  }

  lemma {:induction false} PairValues(a: int, b: int)
    requires ElemsOf([Node(a, 1, false, (), [Node(b, 0, true, (), [])])]) == multiset{1, 2}
    ensures b <= a ==> a == 2 && b == 1
  {
    var c: Tree<()> := Node(b, 0, true, (), []);
    ElemsOfOne(Node(a, 1, false, (), [c]));
    ElemsOfOne(c);
    assert multiset{a} + multiset{b} == multiset{1, 2};
    assert (multiset{a} + multiset{b})[1] == 1;
    assert (multiset{a} + multiset{b})[2] == 1;
  }

  /** `add` as written on a heap whose `m_size` happens to hold 1: the
      first value goes in, the second throws `out_of_range` from `merge`,
      whose one-slot degree table cannot hold the linked tree of degree 1. */
  method UncountedAdds() returns (first: Result<()>, second: Result<()>)
    ensures first.Ok? && second == Err(OutOfRange)
  {
    var h := new BinomialHeap.Uncounted(Greater, 1);
    first := h.AddAsWritten(1);
    assert h.Contents() == multiset{1};
    second := h.AddAsWritten(2);
    assert h.Contents() == multiset{1} + multiset{2};
    assert Pow2(Slots(1)) == 2 && |h.Contents()| == 2;
  }

  /** The roots of the max heap that `add(1)`, `add(2)`, `add(3)` and
      `remove(1)` as written leave with an `m_size` of 7: root 2 over the
      sentinel 4, a binomial tree out of heap order. */
  function Disordered(): (L: seq<Tree<()>>)
    ensures |L| == 1 && L[0].data == 2 && |L[0].children| == 1 && L[0].children[0].data == 4
    ensures !AllOrdered(Greater, L) && FirstBest(Greater, L, 0)
    ensures FindRoots(Greater, L, 0, 4, Indeterminate) == Missing
  {
    var L := [Node(2, 1, false, (), [Node(4, 0, true, (), [])])];
    assert Comp(Greater, L[0].children[0].data, L[0].data);
    assert !Forests.HeapOrdered(Greater, L[0]);
    L
  }

  lemma {:induction false} DisorderedShape(L: seq<Tree<()>>)
    requires L == [Node(2, 1, false, (), [Node(4, 0, true, (), [])])]
    ensures AllWf(L) && AllBinomial(L) && AllFree(L) && DistinctDegrees(L)
  {
    var c: Tree<()> := Node(4, 0, true, (), []);
    assert Wf(c) && Binomial(c);
    assert L[0].children == [c];
  }

  lemma {:induction false} DisorderedElems(L: seq<Tree<()>>)
    requires L == [Node(2, 1, false, (), [Node(4, 0, true, (), [])])]
    ensures ElemsOf(L) == multiset{2, 4}
  {
    var c: Tree<()> := Node(4, 0, true, (), []);
    ElemsRoot(L[0]);
    ElemsRoot(c);
    assert L[0].children == [c];
    assert ElemsOf([c]) == Elems(c);
    assert ElemsOf(L) == Elems(L[0]);
  }

  /** On that heap `remove(4)` finds nothing, because 4 ranks above the
      top 2, so the stored 4 stays; `add(6)` goes through. */
  method DisorderedHeap() returns (h: BinomialHeap, removed: Result<()>, added: Result<()>)
    ensures removed.Ok? && added.Ok? && h.Contents() == multiset{2, 4, 6} && h.Shaped()
  {
    h := new BinomialHeap.Uncounted(Greater, 7);
    h.roots, h.top := Disordered(), Some(0);
    DisorderedShape(h.roots);
    DisorderedElems(h.roots);
    assert h.Shaped() && h.Contents() == multiset{2, 4};
    removed := h.RemoveAsWritten(4);
    added := h.AddAsWritten(6);
    assert h.Contents() == multiset{2, 4} + multiset{6};
  }

  /** `add(5)` then `remove_top` as written on a heap whose `m_size`
      happens to hold 0: the value comes and goes, `merge` never runs, and
      `m_size -= 1` leaves `size()` reporting 2^64 - 1 for an empty heap. */
  method SizeWraps() returns (h: BinomialHeap)
    ensures h.Contents() == multiset{} && h.size == SIZE_MOD - 1
  {
    h := new BinomialHeap.Uncounted(Greater, 0);
    var added := h.AddAsWritten(5);
    h.NonEmpty();
    var removed := h.RemoveTopAsWritten();
  }

  /** The heap `add(1)`, `add(2)` builds in a `MaxBinomialHeap`. */
  function OneTwo(): (L: seq<Tree<()>>)
    ensures |L| == 1 && |L[0].children| == 1 && L[0].data == 2
    ensures FindRoots(Greater, L, 0, 1, Indeterminate) == Found([0, 0])
  {
    var c: Tree<()> := Node(1, 0, true, (), []);
    var L := [Node(2, 1, false, (), [c])];
    assert FindIn(Greater, c, 1, Indeterminate) == Found([]);
    assert FindAmong(Greater, [c], 1, Indeterminate, 0, Indeterminate) == Found([0]);
    assert FindIn(Greater, L[0], 1, Indeterminate) == Found([0]);
    assert FindAmong(Greater, L, 1, Indeterminate, 0, Indeterminate) == Found([0, 0]);
    L
  }

  /** `remove(1)` as written on the `MaxBinomialHeap` built by `add(1)`,
      `add(2)`: the sentinel 3 stays where 1 was, `remove_top` removes 2,
      and the heap holds 3. */
  method SentinelLeftBehind() returns (h: BinomialHeap)
    ensures h.Contents() == multiset{3}
  {
    h := OneTwoHeap();
    assert ArrayHeaps.Modi(Greater, 2, 1) == 3;
    var res := h.RemoveAsWritten(1);
    assert h.Contents() == multiset{1, 2} - multiset{1} + multiset{3} - multiset{2};
  }

  /** The `MaxBinomialHeap` built by `add(1)`, `add(2)`: one tree, 2 over
      1, with `m_top` on it. */
  method OneTwoHeap() returns (h: BinomialHeap)
    ensures fresh(h) && h.Valid() && h.order == Greater && h.roots == OneTwo()
    ensures h.Contents() == multiset{1, 2} && h.TopIndex() == 0 && h.TopData() == 2
    ensures FindRoots(Greater, h.roots, 0, 1, Missing) == Found([0, 0])
  {
    h := new BinomialHeap(Greater);
    h.Add(1);
    h.Add(2);
    assert h.Contents() == multiset{1, 2};
    TwoValues(h.roots);
    assert h.roots == OneTwo();
    FindRootsAgree(Greater, h.roots, 0, 1);
  }
}
