/** The binary heap laid out in a vector, shared by ArrayHeap and
    MinArrayHeap: the index arithmetic, and the sift-down, bubble-up,
    build and heapsort steps proved against the heap order. A heap is
    parameterised by the comparator `r` it keeps: no child ranks above its
    parent, where `a` ranks above `b` when `Comp(r, a, b)`. */
module BinaryHeaps {
  import opened Common

  /** The comparators the library instantiates its heaps with:
      std::less and std::greater on `int`. */
  datatype Order = Less | Greater

  predicate Comp(o: Order, a: int, b: int)
  {
    match o
    case Less => a < b
    case Greater => a > b
  }

  /** The comparator with its arguments exchanged. */
  function Flip(o: Order): (f: Order)
    ensures forall a, b :: Comp(f, a, b) <==> Comp(o, b, a)
  {
    if o == Less then Greater else Less
  }

  function Left(i: nat): nat
  {
    i * 2 + 1
  }

  function Right(i: nat): nat
  {
    Left(i) + 1
  }

  /** `parent`: (i - 1) / 2 in std::size_t, so index 0 wraps to
      (2^64 - 1) / 2. */
  function Parent(i: nat): (p: nat)
    requires i < SIZE_MOD
    ensures i > 0 ==> p < i && (i == Left(p) || i == Right(p))
    ensures i == 0 ==> p == (SIZE_MOD - 1) / 2
  {
    SizeDec(i) / 2
  }

  /** Both children of `i` have `i` as their parent. */
  lemma {:induction false} ParentOfChildren(i: nat)
    requires Right(i) < SIZE_MOD
    ensures Parent(Left(i)) == i && Parent(Right(i)) == i
  {
  }

  /** No child among the first `n` slots whose parent is at `lo` or beyond
      ranks above that parent. */
  ghost predicate HeapFrom(r: Order, s: seq<int>, n: nat, lo: nat)
    requires n <= |s| < SIZE_MOD
  {
    forall c :: 0 < c < n && lo <= Parent(c) ==> !Comp(r, s[c], s[Parent(c)])
  }

  ghost predicate HeapOrdered(r: Order, s: seq<int>)
    requires |s| < SIZE_MOD
  {
    HeapFrom(r, s, |s|, 0)
  }

  /** The heap order from `lo` on, except under the parent `k`. */
  ghost predicate HeapExcept(r: Order, s: seq<int>, n: nat, lo: nat, k: nat)
    requires n <= |s| < SIZE_MOD
  {
    forall c :: 0 < c < n && lo <= Parent(c) && Parent(c) != k ==> !Comp(r, s[c], s[Parent(c)])
  }

  /** No child of `k` ranks above the parent of `k`. */
  ghost predicate Bridge(r: Order, s: seq<int>, n: nat, lo: nat, k: nat)
    requires n <= |s| < SIZE_MOD && k < SIZE_MOD
  {
    0 < k < n && lo <= Parent(k) ==>
      forall c :: 0 < c < n && Parent(c) == k ==> !Comp(r, s[c], s[Parent(k)])
  }

  function Swap(s: seq<int>, i: nat, j: nat): (t: seq<int>)
    requires i < |s| && j < |s|
    ensures |t| == |s| && t[i] == s[j] && t[j] == s[i]
    ensures forall k :: 0 <= k < |s| && k != i && k != j ==> t[k] == s[k]
    ensures multiset(t) == multiset(s)
  {
    s[i := s[j]][j := s[i]]
  }

  /** The heap's root ranks at least as high as every value of the heap. */
  lemma {:induction false} HeapRoot(r: Order, s: seq<int>, n: nat, i: nat)
    requires n <= |s| < SIZE_MOD && HeapFrom(r, s, n, 0) && i < n
    ensures !Comp(r, s[i], s[0])
    decreases i
  {
    if i > 0 {
      HeapRoot(r, s, n, Parent(i));
    }
  }

  /** `heapify` with an explicit size: the value at `k` sinks, each time
      changing places with the child that ranks above it and above its
      sibling, until no child ranks above it. */
  method SiftDown(r: Order, s: seq<int>, k: nat, n: nat, ghost lo: nat) returns (t: seq<int>)
    requires n <= |s| < SIZE_MOD && lo <= k < SIZE_MOD
    ensures |t| == |s| && t[n..] == s[n..] && multiset(t[..n]) == multiset(s[..n])
    ensures multiset(t) == multiset(s)
    ensures forall j :: 0 <= j < k && j < |s| ==> t[j] == s[j]
    ensures HeapExcept(r, s, n, lo, k) && Bridge(r, s, n, lo, k) ==> HeapFrom(r, t, n, lo)
    decreases n - k
  {
    if k + 1 > n || Left(k) + 1 > n {
      return s;
    }
    var m: nat := k;
    if Comp(r, s[Left(k)], s[k]) {
      m := Left(k);
    }
    if Right(k) < n && Comp(r, s[Right(k)], s[m]) {
      m := Right(k);
    }
    if m == k {
      return s;
    }
    var u := Swap(s, k, m);
    if HeapExcept(r, s, n, lo, k) && Bridge(r, s, n, lo, k) {
      SwapStep(r, s, n, lo, k, m);
    }
    SwapPrefix(s, n, k, m);
    t := SiftDown(r, u, m, n, lo);
    forall j | 0 <= j < k ensures t[j] == s[j] {
      assert t[j] == u[j];
    }
  }

  /** In a heap no value ranks above the root. */
  lemma {:induction false} TopRanksFirst(r: Order, s: seq<int>)
    requires |s| < SIZE_MOD
    ensures HeapOrdered(r, s) ==> forall i :: 0 <= i < |s| ==> !Comp(r, s[i], s[0])
  {
    if HeapOrdered(r, s) {
      forall i | 0 <= i < |s| ensures !Comp(r, s[i], s[0]) {
        HeapRoot(r, s, |s|, i);
      }
    }
  }

  /** A swap inside the first `n` slots keeps the values there and leaves
      the rest alone. */
  lemma {:induction false} SwapPrefix(s: seq<int>, n: nat, i: nat, j: nat)
    requires i < n && j < n && n <= |s|
    ensures Swap(s, i, j)[n..] == s[n..]
    ensures multiset(Swap(s, i, j)[..n]) == multiset(s[..n])
  {
    assert Swap(s, i, j)[..n] == Swap(s[..n], i, j);
  }

  /** After the value at `k` changes places with its best child `m`, the
      heap order holds except under `m`. */
  lemma {:induction false} SwapStep(r: Order, s: seq<int>, n: nat, lo: nat, k: nat, m: nat)
    requires n <= |s| < SIZE_MOD && lo <= k < m < n
    requires m == Left(k) || m == Right(k)
    requires HeapExcept(r, s, n, lo, k) && Bridge(r, s, n, lo, k)
    requires Comp(r, s[m], s[k])
    requires Right(k) < n ==> !Comp(r, s[Left(k)], s[m]) && !Comp(r, s[Right(k)], s[m])
    requires Right(k) >= n ==> m == Left(k)
    ensures HeapExcept(r, Swap(s, k, m), n, lo, m) && Bridge(r, Swap(s, k, m), n, lo, m)
  {
    var u := Swap(s, k, m);
    ParentOfChildren(k);
    assert Parent(m) == k;
    forall c | 0 < c < n && lo <= Parent(c) && Parent(c) != m
      ensures !Comp(r, u[c], u[Parent(c)])
    {
      if Parent(c) == k {
        assert c == Left(k) || c == Right(k);
      } else if c == k {
        assert u[c] == s[m] && u[Parent(c)] == s[Parent(k)];
      }
    }
  }

  /** The vector constructor: sifting down from the middle slot to the
      first, with the full size, orders the whole vector. The source's
      count runs in std::size_t and stops when it wraps past 0. */
  method BuildHeap(r: Order, s: seq<int>) returns (t: seq<int>)
    requires |s| < SIZE_MOD
    ensures |t| == |s| && multiset(t) == multiset(s) && HeapOrdered(r, t)
  {
    t := s;
    var ii: int := |t| / 2;
    while ii != -1
      invariant -1 <= ii <= |t| / 2 && |t| == |s| && multiset(t) == multiset(s)
      invariant HeapFrom(r, t, |t|, ii + 1)
    {
      t := SiftDown(r, t, ii, |t|, ii);
      ii := ii - 1;
    }
  }

  /** `removeTop` on a non-empty heap: the last value takes the root's
      slot, the vector shrinks by one and the root sinks. */
  method PopTop(r: Order, s: seq<int>) returns (t: seq<int>)
    requires 0 < |s| < SIZE_MOD
    ensures |t| == |s| - 1 && multiset(t) == multiset(s) - multiset{s[0]}
    ensures HeapOrdered(r, s) ==> HeapOrdered(r, t)
  {
    var u := Swap(s, 0, |s| - 1);
    assert multiset(u) == multiset(u[..|u| - 1]) + multiset{s[0]} by {
      assert u == u[..|u| - 1] + [u[|u| - 1]];
    }
    u := u[..|u| - 1];
    t := SiftDown(r, u, 0, |u|, 0);
  }

  /** The heap order, except that the value at `i` may rank above its
      parent; the children of `i` do not rank above that parent. */
  ghost predicate HeapBut(r: Order, s: seq<int>, i: nat)
    requires i < |s| < SIZE_MOD
  {
    (forall c :: 0 < c < |s| && c != i ==> !Comp(r, s[c], s[Parent(c)])) &&
    (0 < i ==> forall c :: 0 < c < |s| && Parent(c) == i ==> !Comp(r, s[c], s[Parent(i)]))
  }

  /** Bubbling up: the value at `i` changes places with its parent while it
      ranks above it. */
  method BubbleUp(r: Order, s: seq<int>, i: nat) returns (t: seq<int>)
    requires i < |s| < SIZE_MOD && HeapBut(r, s, i)
    ensures |t| == |s| && multiset(t) == multiset(s) && HeapOrdered(r, t)
  {
    t := s;
    var m: nat := i;
    while m != 0 && Comp(r, t[m], t[Parent(m)])
      invariant m < |t| && |t| == |s| && multiset(t) == multiset(s) && HeapBut(r, t, m)
      decreases m
    {
      var p := Parent(m);
      BubbleStep(r, t, m);
      t := Swap(t, m, p);
      m := p;
    }
  }

  /** Changing places with a parent that does not rank above it moves the
      exception one level up. */
  lemma {:induction false} BubbleStep(r: Order, s: seq<int>, m: nat)
    requires 0 < m < |s| < SIZE_MOD && HeapBut(r, s, m)
    requires !Comp(r, s[Parent(m)], s[m])
    ensures HeapBut(r, Swap(s, m, Parent(m)), Parent(m))
  {
    var p := Parent(m);
    var u := Swap(s, m, p);
    forall c | 0 < c < |u| && c != p
      ensures !Comp(r, u[c], u[Parent(c)])
    {
      if c == m {
      } else if Parent(c) == m {
      } else if Parent(c) == p {
        assert !Comp(r, s[c], s[p]);
      }
    }
    if 0 < p {
      forall c | 0 < c < |u| && Parent(c) == p
        ensures !Comp(r, u[c], u[Parent(p)])
      {
        if c != m {
          assert !Comp(r, s[c], s[p]) && !Comp(r, s[p], s[Parent(p)]);
        }
      }
    }
  }

  /** The value at `i` leaves the heap: it is overwritten by `v`, which
      ranks above the root, bubbled up to the root and popped. */
  method RemoveAt(r: Order, s: seq<int>, i: nat, v: int) returns (t: seq<int>)
    requires i < |s| < SIZE_MOD && HeapOrdered(r, s) && Comp(r, v, s[0])
    ensures |t| == |s| - 1 && multiset(t) == multiset(s) - multiset{s[i]}
    ensures HeapOrdered(r, t)
  {
    forall j | 0 <= j < |s| ensures Comp(r, v, s[j]) {
      HeapRoot(r, s, |s|, j);
    }
    var u := s[i := v];
    if 0 < i {
      forall c | 0 < c < |u| && Parent(c) == i ensures !Comp(r, u[c], u[Parent(i)]) {
        assert !Comp(r, s[c], s[i]) && !Comp(r, s[i], s[Parent(i)]);
      }
    }
    assert HeapBut(r, u, i);
    var w := BubbleUp(r, u, i);
    OutrankerOnTop(r, u, w, i);
    t := PopTop(r, w);
  }

  /** What a `remove` that writes `v`, a value ranking above the root, into
      slot `ii` of `s`, permutes the values into `y` and then removes `y`'s
      root into `z` leaves.  When `y`'s root is `v`, exactly `s[ii]` is gone;
      otherwise `s[ii]` has been replaced by `v` and the old root is gone.
      When `v` did not move because it ranks above its parent, as in a heap
      where `ii` is not the root, it is the second. */
  lemma {:induction false} ReplaceThenPop(r: Order, s: seq<int>, ii: nat, v: int, y: seq<int>, z: seq<int>)
    requires ii < |s| < SIZE_MOD && |y| == |s| && Comp(r, v, s[0])
    requires var w := s[ii := v];
      multiset(y) == multiset(w) && (y[0] == w[0] || y[0] == v) &&
      (0 < ii && Comp(r, v, w[Parent(ii)]) ==> y == w)
    requires multiset(z) == multiset(y) - multiset{y[0]}
    ensures y[0] == v ==> multiset(z) == multiset(s) - multiset{s[ii]}
    ensures y[0] != v ==> multiset(z) == multiset(s) - multiset{s[ii]} + multiset{v} - multiset{s[0]}
    ensures s[0] != s[ii] && HeapOrdered(r, s) ==> y[0] != v
  {
    assert multiset(y) == multiset(s) - multiset{s[ii]} + multiset{v};
    if y[0] != v {
      assert y[0] == s[0];
    }
    if s[0] != s[ii] && HeapOrdered(r, s) {
      TopRanksFirst(r, s);
      assert 0 < ii && !Comp(r, s[Parent(ii)], s[0]);
    }
  }

  /** The corrected `add`: the new value is appended and bubbles up, so the
      heap order is restored. */
  method Push(r: Order, s: seq<int>, x: int) returns (t: seq<int>)
    requires |s| + 1 < SIZE_MOD && HeapOrdered(r, s)
    ensures |t| == |s| + 1 && multiset(t) == multiset(s) + multiset{x}
    ensures HeapOrdered(r, t)
  {
    var u := s + [x];
    assert HeapBut(r, u, |s|);
    t := BubbleUp(r, u, |s|);
  }

  /** A value of `u` that ranks above all the others is the root of any heap
      `w` holding the same values. */
  lemma {:induction false} OutrankerOnTop(r: Order, u: seq<int>, w: seq<int>, i: nat)
    requires i < |u| && |w| < SIZE_MOD && HeapOrdered(r, w) && multiset(w) == multiset(u)
    requires forall j :: 0 <= j < |u| && j != i ==> Comp(r, u[i], u[j])
    ensures w[0] == u[i]
  {
    var v := u[i];
    assert v in multiset(w);
    var k :| 0 <= k < |w| && w[k] == v;
    HeapRoot(r, w, |w|, k);
    assert w[0] in multiset(u);
    var l :| 0 <= l < |u| && u[l] == w[0];
  }

  /** The slots from `n` on hold values in order: none ranks above a later
      one. */
  ghost predicate SortedFrom(r: Order, t: seq<int>, n: nat)
  {
    forall i, j :: n <= i < j < |t| ==> !Comp(r, t[i], t[j])
  }

  /** No value of the first `n` slots ranks above a value of the rest. */
  ghost predicate PrefixBelow(r: Order, t: seq<int>, n: nat)
    requires n <= |t|
  {
    forall x, j :: x in t[..n] && n <= j < |t| ==> !Comp(r, x, t[j])
  }

  /** One round of heapsort before the sift: the root moves behind the
      shrinking prefix, and the tail stays ordered and above the prefix. */
  lemma {:induction false} SortSwap(r: Order, t: seq<int>, size: nat)
    requires 1 < size <= |t| < SIZE_MOD
    requires HeapFrom(r, t, size, 0) && PrefixBelow(r, t, size) && SortedFrom(r, t, size)
    ensures var u := Swap(t, 0, size - 1);
      PrefixBelow(r, u, size - 1) && SortedFrom(r, u, size - 1) &&
      HeapExcept(r, u, size - 1, 0, 0) && Bridge(r, u, size - 1, 0, 0)
  {
    var u := Swap(t, 0, size - 1);
    forall i | 0 <= i < size ensures !Comp(r, t[i], t[0]) {
      HeapRoot(r, t, size, i);
    }
    forall x, j | x in u[..size - 1] && size - 1 <= j < |u| ensures !Comp(r, x, u[j]) {
      var k :| 0 <= k < size - 1 && u[k] == x;
      if k == 0 {
        assert x == t[size - 1] && x in t[..size];
      } else {
        assert x == t[k] && x in t[..size];
      }
      if j == size - 1 {
        assert u[j] == t[0];
      }
    }
    forall i, j | size - 1 <= i < j < |u| ensures !Comp(r, u[i], u[j]) {
      if i == size - 1 {
        assert u[i] == t[0] && t[0] in t[..size];
      }
    }
  }

  /** The sift keeps the prefix's values and the tail, so the tail stays
      ordered and above the prefix. */
  lemma {:induction false} SortSift(r: Order, u: seq<int>, t: seq<int>, n: nat)
    requires n <= |u| == |t|
    requires t[n..] == u[n..] && multiset(t[..n]) == multiset(u[..n])
    requires PrefixBelow(r, u, n) && SortedFrom(r, u, n)
    ensures PrefixBelow(r, t, n) && SortedFrom(r, t, n)
  {
    forall x, j | x in t[..n] && n <= j < |t| ensures !Comp(r, x, t[j]) {
      assert x in multiset(t[..n]) && x in u[..n];
      assert t[j] == t[n..][j - n] == u[j];
    }
    forall i, j | n <= i < j < |t| ensures !Comp(r, t[i], t[j]) {
      assert t[i] == t[n..][i - n] && t[j] == t[n..][j - n];
    }
  }

  /** With at most one slot left in the prefix, the whole vector is in
      order. */
  lemma {:induction false} SortDone(r: Order, t: seq<int>, n: nat)
    requires n <= 1 && n <= |t| && PrefixBelow(r, t, n) && SortedFrom(r, t, n)
    ensures SortedFrom(r, t, 0)
  {
    forall i, j | 0 <= i < j < |t| ensures !Comp(r, t[i], t[j]) {
      if i < n {
        assert t[i] in t[..n];
      }
    }
  }

  /** `sort`: heapsort of the whole vector, which is then reversed. On a
      heap, the values come out from the highest ranked to the lowest. */
  method HeapSort(r: Order, s: seq<int>) returns (t: seq<int>)
    requires |s| < SIZE_MOD
    ensures |t| == |s| && multiset(t) == multiset(s)
    ensures HeapOrdered(r, s) ==> forall i, j :: 0 <= i < j < |t| ==> !Comp(r, t[j], t[i])
  {
    ghost var heap := HeapOrdered(r, s);
    t := s;
    var size: nat := |t|;
    while size > 1
      invariant size <= |t| == |s| && multiset(t) == multiset(s)
      invariant heap ==> HeapFrom(r, t, size, 0) && PrefixBelow(r, t, size) && SortedFrom(r, t, size)
    {
      if heap {
        SortSwap(r, t, size);
      }
      var u := Swap(t, 0, size - 1);
      size := size - 1;
      t := SiftDown(r, u, 0, size, 0);
      if heap {
        SortSift(r, u, t, size);
      }
    }
    if heap {
      SortDone(r, t, size);
    }
    t := Reversed(t);
  }

  function Reversed(s: seq<int>): (t: seq<int>)
    ensures |t| == |s| && forall i :: 0 <= i < |s| ==> t[i] == s[|s| - 1 - i]
    ensures multiset(t) == multiset(s)
  {
    if s == [] then []
    else
      assert s == s[..|s| - 1] + [s[|s| - 1]];
      [s[|s| - 1]] + Reversed(s[..|s| - 1])
  }
}
