/** What MinFiboHeap and MaxFiboHeap share beyond the root lists: trees
    whose nodes carry a colour, values written into a node before a cut
    cascade, and the top chosen again afterwards.  Neither heap keeps
    binomial trees or clears the parent pointer of a cut node, so the
    lemmas here ask only for consistent `degree` fields (`Wf`) and heap
    order. */
module FiboTrees {
  import opened Common
  import opened BinaryHeaps
  import opened Forests
  import opened TreePaths
  import opened RootLists
  import ArrayHeaps

  /** `push_front` of a new tree in `add`: the iterator to the top stays on
      its node, one position further on, unless the new root is to be the
      top. */
  lemma {:induction false} PushedFront<M>(o: Order, L: seq<Tree<M>>, k: nat, t: Tree<M>, R: seq<Tree<M>>)
    requires R == [t] + L
    requires AllWf(L) && AllOrdered(o, L) && Wf(t) && Forests.HeapOrdered(o, t)
    requires L != [] ==> Best(o, L, k)
    ensures AllWf(R) && AllOrdered(o, R)
    ensures ElemsOf(R) == Elems(t) + ElemsOf(L)
    ensures L == [] || !Comp(o, L[k].data, t.data) ==> Best(o, R, 0)
    ensures L != [] && !Comp(o, t.data, L[k].data) ==> Best(o, R, k + 1)
  {
    ElemsOfAppend([t], L);
    ElemsOfOne(t);
    assert forall p :: 0 < p < |R| ==> R[p] == L[p - 1];
  }

  /** `SetData` changes one value and nothing else. */
  lemma {:induction false} SubSetData<M>(t: Tree<M>, p: seq<nat>, v: int)
    requires InTree(t, p)
    ensures InTree(SetData(t, p, v), p) && Sub(SetData(t, p, v), p) == Sub(t, p).(data := v)
    decreases |p|
  {
    if p != [] {
      SubSetData(t.children[p[0]], p[1..], v);
    }
  }

  /** Cutting a node off leaves the same tree whatever value it held. */
  lemma {:induction false} PruneSetData<M>(t: Tree<M>, p: seq<nat>, v: int)
    requires InTree(t, p) && p != []
    ensures InTree(SetData(t, p, v), p) && Prune(SetData(t, p, v), p) == Prune(t, p)
    decreases |p|
  {
    SubSetData(t, p, v);
    var u := SetData(t, p, v);
    if |p| == 1 {
      var e := Erase(u.children, p[0]);
      assert e == Erase(t.children, p[0]) by {
        assert |e| == |Erase(t.children, p[0])|;
        forall q | 0 <= q < |e|
          ensures e[q] == Erase(t.children, p[0])[q]
        {
        }
      }
    } else {
      PruneSetData(t.children[p[0]], p[1..], v);
      assert u.children[p[0] := Prune(u.children[p[0]], p[1..])] ==
             t.children[p[0] := Prune(t.children[p[0]], p[1..])];
    }
  }

  /** Two different trees of a list hold their values side by side. */
  lemma {:induction false} ElemsOfTwo<M>(f: seq<Tree<M>>, a: nat, b: nat)
    requires a < |f| && b < |f| && a != b
    ensures Elems(f[a]) + Elems(f[b]) <= ElemsOf(f)
  {
    ElemsOfErase(f, a);
    var c := if b < a then b else b - 1;
    assert Erase(f, a)[c] == f[b];
    ElemsOfCovers(Erase(f, a), c);
  }

  /** The sentinel written into root `i` in place of `x` (the root case of
      `remove`): the trees keep their shape and order. */
  lemma {:induction false} Rewritten(o: Order, L: seq<Tree<Color>>, i: nat, x: int, s: int, R: seq<Tree<Color>>)
    requires i < |L| && L[i].data == x && R == L[i := L[i].(data := s)]
    requires AllWf(L) && AllOrdered(o, L)
    requires forall y :: y in ElemsOf(L) ==> Comp(o, s, y)
    ensures AllWf(R) && AllOrdered(o, R)
    ensures ElemsOf(R) + multiset{x} == ElemsOf(L) + multiset{s} && |ElemsOf(R)| == |ElemsOf(L)|
  {
    var u := L[i].(data := s);
    assert Forests.HeapOrdered(o, u) by {
      ElemsOfCovers(L, i);
      forall c | 0 <= c < |u.children|
        ensures !Comp(o, u.children[c].data, s)
      {
        ElemsOfCovers(L[i].children, c);
        ElemsRoot(L[i].children[c]);
        assert u.children[c].data in ElemsOf(L);
      }
    }
    forall k | 0 <= k < |R|
      ensures Wf(R[k]) && Forests.HeapOrdered(o, R[k])
    {
      if k != i {
        assert R[k] == L[k];
      }
    }
    ElemsOfUpdate(L, i, u);
    ElemsRoot(L[i]);
    ElemsRoot(u);
    Exchange(ElemsOf(R), Elems(L[i]), ElemsOf(L), Elems(u), x, s);
  }

  /** The sentinel written into the node at the end of `q` below root `i`
      (`el->data = ...` before `decreaseKey`/`increaseKey`): the trees keep
      their shape, the node does not stay under its parent, and cutting it
      off leaves every tree heap-ordered. */
  lemma {:induction false} Sentineled(o: Order, L: seq<Tree<Color>>, i: nat, q: seq<nat>, x: int, s: int, R: seq<Tree<Color>>)
    requires i < |L| && InTree(L[i], q) && q != [] && Sub(L[i], q).data == x
    requires R == L[i := SetData(L[i], q, s)]
    requires AllWf(L) && AllOrdered(o, L)
    requires forall y :: y in ElemsOf(L) ==> Comp(o, s, y)
    ensures InTree(R[i], q) && Sub(R[i], q).data == s
    ensures !Stays(o, R[i], q) && OrderedCut(o, R, i, q)
    ensures AllWf(R)
    ensures ElemsOf(R) + multiset{x} == ElemsOf(L) + multiset{s} && |ElemsOf(R)| == |ElemsOf(L)|
  {
    var t := L[i];
    var u := SetData(t, q, s);
    SetDataRaised(t, q, s, s);
    RaisedShape(t, q, |q|, s);
    ShapeKeeps(t, u);
    SubSetData(t, q, s);
    forall k | 0 <= k < |R|
      ensures Wf(R[k])
    {
      if k != i {
        assert R[k] == L[k];
      }
    }
    ElemsOfCovers(L, i);
    assert !Stays(o, u, q) by {
      SubKeeps(o, u, q);
      RaisedAbove(t, q, |q|, s, |q| - 1);
      ElemsSubIn(t, Up(q));
    }
    Unmoved(o, L, i, q, s, R);
    ElemsRaised(t, q, |q|, s);
    ElemsOfUpdate(L, i, u);
    Exchange(ElemsOf(R), Elems(t), ElemsOf(L), Elems(u), x, s);
  }

  /** The ordering half of `Sentineled`. */
  lemma {:induction false} Unmoved(o: Order, L: seq<Tree<Color>>, i: nat, q: seq<nat>, s: int, R: seq<Tree<Color>>)
    requires i < |L| && InTree(L[i], q) && q != []
    requires R == L[i := SetData(L[i], q, s)]
    requires AllOrdered(o, L)
    requires forall y :: y in ElemsOf(L) ==> Comp(o, s, y)
    ensures InTree(R[i], q) && OrderedCut(o, R, i, q)
  {
    var t := L[i];
    var n := Sub(t, q);
    PruneSetData(t, q, s);
    SubSetData(t, q, s);
    PruneKeeps(o, t, q);
    var P := L[i := Prune(t, q)];
    assert R[i := Prune(R[i], q)] == P;
    forall k | 0 <= k < |P|
      ensures Forests.HeapOrdered(o, P[k])
    {
    }
    assert Forests.HeapOrdered(o, n.(data := s)) by {
      ElemsPrune(t, q);
      ElemsOfCovers(L, i);
      ElemsRoot(n);
      forall c | 0 <= c < |n.children|
        ensures !Comp(o, n.children[c].data, s)
      {
        ElemsOfCovers(n.children, c);
        ElemsRoot(n.children[c]);
        assert n.children[c].data in ElemsOf(L);
      }
    }
  }

  /** After the cascade the sentinel, at root `k`, is the one top: every
      other value stored ranks below it. */
  lemma {:induction false} SentinelAlone<M>(o: Order, L: seq<Tree<M>>, k: nat, s: int, E: multiset<int>)
    requires k < |L| && L[k].data == s && ElemsOf(L) == E + multiset{s}
    requires forall y :: y in E ==> Comp(o, s, y)
    ensures FirstBest(o, L, k)
    ensures forall j :: FirstBest(o, L, j) ==> j == k
  {
    forall j | 0 <= j < |L| && j != k
      ensures Comp(o, s, L[j].data)
    {
      ElemsOfTwo(L, k, j);
      ElemsRoot(L[k]);
      ElemsRoot(L[j]);
      assert L[j].data in ElemsOf(L);
      assert L[j].data in E;
    }
    StrictBest(o, L, k);
    forall j | FirstBest(o, L, j)
      ensures j == k
    {
      FirstBestUnique(o, L, j, k);
    }
  }

  /** `removeTop` once the top's children have joined the roots and the
      top is gone: one value fewer, shape and order kept. */
  lemma {:induction false} Dethroned<M>(o: Order, R: seq<Tree<M>>, k: nat, L: seq<Tree<M>>)
    requires k < |R| && L == Orphans(R[k].children) + Erase(R, k)
    ensures AllWf(R) ==> AllWf(L)
    ensures AllOrdered(o, R) ==> AllOrdered(o, L)
    ensures AllBinomial(R) ==> AllBinomial(L)
    ensures ElemsOf(L) == ElemsOf(R) - multiset{R[k].data}
    ensures |ElemsOf(L)| + 1 == |ElemsOf(R)|
  {
    UnrootElems(R, k);
    UnrootKeeps(o, R, k);
    assert ElemsOf(L) == ElemsOf(R) - multiset{R[k].data};
  }

  /** The position an iterator to a root stands for; `find` reads it only
      when there are roots. */
  function Index(m: Option<nat>): nat
  {
    if m.Some? then m.value else 0
  }

  /** Consistent `degree` fields and child `parent` pointers, and the top
      iterator on a root.  A root may still hold the parent pointer it had
      before a cut. */
  ghost predicate Shape(L: seq<Tree<Color>>, m: Option<nat>)
  {
    AllWf(L) && (m.None? <==> L == []) && (m.Some? ==> m.value < |L|)
  }

  /** A Fibonacci heap of order `o` with roots `L`, top iterator `m` and
      counter `n`: heap-ordered trees, no root ranking above the top, and
      `n` values stored. */
  ghost predicate Heap(o: Order, L: seq<Tree<Color>>, m: Option<nat>, n: nat)
  {
    Shape(L, m) && n == |ElemsOf(L)| && AllOrdered(o, L) &&
    (m.Some? ==> Best(o, L, m.value))
  }

  /** `remove(x)` never follows a parent pointer the trees do not hold:
      when `find` reaches `x`, the cut cascade started from its node, once
      the node holds the sentinel, stops before reaching a root whose
      parent pointer an earlier cut left behind (looking for such a root
      among its old parent's children is undefined). */
  ghost predicate RemoveDefined(o: Order, L: seq<Tree<Color>>, m: Option<nat>, x: int)
    requires Shape(L, m)
  {
    var r := FindRoots(o, L, Index(m), x, Missing);
    r.Found? && r.path != [] && r.path[0] < |L| && InTree(L[r.path[0]], r.path[1..]) ==>
      CutDefined(o, SetData(L[r.path[0]], r.path[1..], ArrayHeaps.Modi(o, L[m.value].data, 1)), r.path[1..])
  }

  /** `removeTop`: the top's children join the roots with null parent
      pointers, the top goes, roots of equal degree are linked with a
      table of `ceil(log2(m_size)) + 1` slots, and the top is chosen again.
      Trees cut by `decreaseKey`/`increaseKey` need not be binomial, so
      the table may be too small: the `out_of_range` then leaves the links
      made so far, the top iterator dangling and the counter as it was.
      Binomial trees never overflow the table. */
  method Pop(o: Order, L: seq<Tree<Color>>, m: Option<nat>, n: nat)
    returns (res: Result<()>, L': seq<Tree<Color>>, m': Option<nat>, n': nat)
    requires Shape(L, m) && n == |ElemsOf(L)| && AllOrdered(o, L)
    ensures L == [] ==> res.Ok? && L' == [] && m' == m && n' == n
    ensures L != [] ==> ElemsOf(L') == ElemsOf(L) - multiset{L[m.value].data}
    ensures res.Ok? ==> Heap(o, L', m', n')
    ensures res.Err? ==> res.error == OutOfRange && m' == m && n' == n
    ensures AllBinomial(L) ==> res.Ok? && AllBinomial(L')
  {
    if L == [] {
      return Ok(()), L, m, n;
    }
    var k := m.value;
    var R := Unroot(L, k);
    Dethroned(o, L, k, R);
    res, L' := Consolidate(o, R, n);
    m', n' := m, n;
    if res.Ok? {
      m' := UpdateTop(o, L');
      n' := n - 1;
    }
  }

  /** The sentinel `s` written into the node at the end of `q` below root
      `i`, which holds `x`.  Below a root, the cut cascade takes the node
      to the roots and choosing the top finds it; at a root the top
      iterator moves to it only when `redirect` holds. */
  method Plant(o: Order, L: seq<Tree<Color>>, m: Option<nat>, n: nat, i: nat, q: seq<nat>, x: int, s: int, redirect: bool)
    returns (L': seq<Tree<Color>>, m': Option<nat>)
    requires Heap(o, L, m, n) && i < |L| && InTree(L[i], q) && Sub(L[i], q).data == x
    requires m.Some? && Comp(o, s, L[m.value].data)
    requires CutDefined(o, SetData(L[i], q, s), q)
    ensures Shape(L', m') && AllOrdered(o, L') && m'.Some?
    ensures ElemsOf(L') + multiset{x} == ElemsOf(L) + multiset{s} && |ElemsOf(L')| == n
    ensures redirect || q != [] ==> Heap(o, L', m', n) && L'[m'.value].data == s
    ensures !redirect && q == [] ==> m' == m && L'[m.value].data == (if i == m.value then s else L[m.value].data)
    ensures AllBinomial(L) && q == [] ==> AllBinomial(L')
  {
    SentinelAbove(o, L, m.value, s);
    SubKeeps(o, L[i], q);
    if !Sub(L[i], q).parented {
      assert q == [];
      var u := L[i].(data := s);
      L' := L[i := u];
      Rewritten(o, L, i, x, s, L');
      if redirect {
        SentinelRoot(o, L, i, u, L');
        m' := Some(i);
      } else {
        m' := m;
      }
      assert AllBinomial(L) ==> AllBinomial(L') by {
        if AllBinomial(L) {
          forall k | 0 <= k < |L'|
            ensures Binomial(L'[k])
          {
          }
        }
      }
    } else {
      var L1 := L[i := SetData(L[i], q, s)];
      Sentineled(o, L, i, q, x, s, L1);
      ElemsSubIn(L[i], q);
      ElemsOfCovers(L, i);
      var k;
      L', k := Cut(o, L1, i, q);
      Swapped(ElemsOf(L1), ElemsOf(L), x, s);
      SentinelAlone(o, L', k, s, ElemsOf(L) - multiset{x});
      m' := UpdateTop(o, L');
    }
  }

  /** `remove(x)`: `find` from a null result; when it reaches `x`, the
      sentinel `modi(top, 1)` is written into that node, cut off if it is
      below a root, and removed by `removeTop`.  With `redirect` the top
      iterator also moves to a root that receives the sentinel; without
      it, it stays where it was and `removeTop` removes the old top. */
  method Delete(o: Order, L: seq<Tree<Color>>, m: Option<nat>, n: nat, x: int, redirect: bool)
    returns (res: Result<()>, L': seq<Tree<Color>>, m': Option<nat>, n': nat)
    requires Heap(o, L, m, n) && RemoveDefined(o, L, m, x)
    ensures var r := FindRoots(o, L, Index(m), x, Missing);
      (!r.Found? ==> x !in ElemsOf(L) && res.Ok? && L' == L && m' == m && n' == n) &&
      (r.Found? ==> x in ElemsOf(L) && m.Some? && |r.path| >= 1) &&
      (r.Found? && (redirect || |r.path| > 1 || r.path == [Index(m)]) ==>
         ElemsOf(L') == ElemsOf(L) - multiset{x}) &&
      (r.Found? && !redirect && |r.path| == 1 && r.path != [Index(m)] ==>
         ElemsOf(L') == ElemsOf(L) - multiset{x} + multiset{ArrayHeaps.Modi(o, L[m.value].data, 1)} - multiset{L[m.value].data}) &&
      (r.Found? && |r.path| == 1 && AllBinomial(L) ==> res.Ok?)
    ensures x !in ElemsOf(L) ==> res.Ok? && L' == L && m' == m && n' == n
    ensures res.Ok? ==> Heap(o, L', m', n')
    ensures res.Err? ==> res.error == OutOfRange
  {
    var r := Find(o, L, Index(m), x, Missing);
    FindRootsExact(o, L, Index(m), x);
    if !r.Found? {
      return Ok(()), L, m, n;
    }
    assert r.path == [r.path[0]] + r.path[1..];
    res, L', m', n' := DeleteAt(o, L, m, n, r.path[0], r.path[1..], x, redirect);
  }

  /** `remove(x)` once `find` has reached `x` in slot `q` below root `i`:
      the sentinel is planted there and `removeTop` removes the top. */
  method DeleteAt(o: Order, L: seq<Tree<Color>>, m: Option<nat>, n: nat, i: nat, q: seq<nat>, x: int, redirect: bool)
    returns (res: Result<()>, L': seq<Tree<Color>>, m': Option<nat>, n': nat)
    requires Heap(o, L, m, n) && i < |L| && InTree(L[i], q) && Sub(L[i], q).data == x && m.Some?
    requires CutDefined(o, SetData(L[i], q, ArrayHeaps.Modi(o, L[m.value].data, 1)), q)
    ensures redirect || q != [] || i == m.value ==> ElemsOf(L') == ElemsOf(L) - multiset{x}
    ensures !redirect && q == [] && i != m.value ==>
      ElemsOf(L') == ElemsOf(L) - multiset{x} + multiset{ArrayHeaps.Modi(o, L[m.value].data, 1)} - multiset{L[m.value].data}
    ensures q == [] && AllBinomial(L) ==> res.Ok?
    ensures res.Ok? ==> Heap(o, L', m', n')
    ensures res.Err? ==> res.error == OutOfRange
  {
    var s := ArrayHeaps.Modi(o, L[m.value].data, 1);
    ElemsSubIn(L[i], q);
    ElemsOfCovers(L, i);
    var P, k := Plant(o, L, m, n, i, q, x, s, redirect);
    ghost var top := P[k.value].data;
    res, L', m', n' := Pop(o, P, k, n);
    ghost var E, F, G := ElemsOf(L), ElemsOf(P), ElemsOf(L');
    assert G == F - multiset{top};
    if redirect || q != [] || i == m.value {
      assert top == s;
      Traded(G, F, E, x, s);
    } else {
      assert top == L[m.value].data;
      Swapped(F, E, x, s);
    }
  }
}
