/** Paths into the trees of a root list, and the two ways the root-list
    heaps move values along them: `bubble_key`/`increaseKey`, which swap a
    node's value with its parent's, and the Fibonacci heaps' cut, which
    moves a subtree up to the root list.  A path is the sequence of child
    positions leading from a tree's root to a node. */
module TreePaths {
  import opened Common
  import opened BinaryHeaps
  import opened Forests

  predicate InTree<M>(t: Tree<M>, p: seq<nat>)
    decreases |p|
  {
    p == [] || (p[0] < |t.children| && InTree(t.children[p[0]], p[1..]))
  }

  /** The node a path leads to, with its subtree. */
  function Sub<M>(t: Tree<M>, p: seq<nat>): Tree<M>
    requires InTree(t, p)
    decreases |p|
  {
    if p == [] then t else Sub(t.children[p[0]], p[1..])
  }

  lemma {:induction false} InTreePrefix<M>(t: Tree<M>, p: seq<nat>, j: nat)
    requires InTree(t, p) && j <= |p|
    ensures InTree(t, p[..j])
    decreases j
  {
    if j > 0 {
      assert p[..j][1..] == p[1..][..j - 1];
      InTreePrefix(t.children[p[0]], p[1..], j - 1);
    }
  }

  /** Two trees that differ at most in their values. */
  ghost predicate SameShape<M>(a: Tree<M>, b: Tree<M>)
    decreases a
  {
    a.degree == b.degree && a.parented == b.parented && a.mark == b.mark &&
    |a.children| == |b.children| &&
    forall i :: 0 <= i < |a.children| ==> SameShape(a.children[i], b.children[i])
  }

  /** The shape properties do not depend on the values. */
  lemma {:induction false} ShapeKeeps<M>(a: Tree<M>, b: Tree<M>)
    requires SameShape(a, b)
    ensures Wf(a) ==> Wf(b)
    ensures Binomial(a) ==> Binomial(b)
    ensures InTree(a, []) && (forall p :: InTree(a, p) ==> InTree(b, p))
    decreases a
  {
    forall i | 0 <= i < |a.children|
      ensures (Wf(a.children[i]) ==> Wf(b.children[i])) && (Binomial(a.children[i]) ==> Binomial(b.children[i]))
      ensures forall p :: InTree(a.children[i], p) ==> InTree(b.children[i], p)
    {
      ShapeKeeps(a.children[i], b.children[i]);
    }
    forall p | InTree(a, p)
      ensures InTree(b, p)
    {
      if p != [] {
        assert InTree(a.children[p[0]], p[1..]);
      }
    }
  }

  /** `n->data = v` on the node at the end of `p`. */
  function SetData<M>(t: Tree<M>, p: seq<nat>, v: int): (r: Tree<M>)
    requires InTree(t, p)
    ensures InTree(r, p)
    decreases |p|
  {
    if p == [] then t.(data := v)
    else t.(children := t.children[p[0] := SetData(t.children[p[0]], p[1..], v)])
  }

  /** Writing `u` at the end of a path is where bubbling starts: the value
      has not moved yet, and pushing a value down the path drops it again. */
  lemma {:induction false} SetDataRaised<M>(t: Tree<M>, p: seq<nat>, u: int, w: int)
    requires InTree(t, p)
    ensures SetData(t, p, u) == Raised(t, p, |p|, u)
    ensures InTree(SetData(t, p, u), p) && Sub(SetData(t, p, u), p).data == u
    ensures Push(SetData(t, p, u), p, w) == Push(t, p, w)
    decreases |p|
  {
    if p != [] {
      var c := t.children[p[0]];
      SetDataRaised(c, p[1..], u, t.data);
      assert t.children[p[0] := SetData(c, p[1..], u)][p[0] := Push(c, p[1..], t.data)] ==
        t.children[p[0] := Push(c, p[1..], t.data)];
    }
  }

  /** `v` written at the root and every other value on the path moved one
      node down; the value at the end of the path drops out. */
  function Push<M>(t: Tree<M>, p: seq<nat>, v: int): Tree<M>
    requires InTree(t, p)
    decreases |p|
  {
    if p == [] then t.(data := v)
    else t.(data := v, children := t.children[p[0] := Push(t.children[p[0]], p[1..], t.data)])
  }

  /** The tree once the value `v` from the end of the path has climbed up
      to depth `k`: the nodes above depth `k` keep their values, and those
      from depth `k` on have moved one node down. */
  function Raised<M>(t: Tree<M>, p: seq<nat>, k: nat, v: int): Tree<M>
    requires InTree(t, p) && k <= |p|
    decreases k
  {
    if k == 0 then Push(t, p, v)
    else t.(children := t.children[p[0] := Raised(t.children[p[0]], p[1..], k - 1, v)])
  }

  /** `std::swap(n->data, p->data)` for the node at depth `k` of the path
      and its parent. */
  function SwapUp<M>(t: Tree<M>, p: seq<nat>, k: nat): Tree<M>
    requires InTree(t, p) && 0 < k <= |p|
    decreases k
  {
    if k == 1 then
      var c := t.children[p[0]];
      t.(data := c.data, children := t.children[p[0] := c.(data := t.data)])
    else
      t.(children := t.children[p[0] := SwapUp(t.children[p[0]], p[1..], k - 1)])
  }

  lemma {:induction false} PushShape<M>(t: Tree<M>, p: seq<nat>, v: int)
    requires InTree(t, p)
    ensures SameShape(t, Push(t, p, v)) && InTree(Push(t, p, v), p)
    decreases |p|
  {
    var r := Push(t, p, v);
    if p != [] {
      PushShape(t.children[p[0]], p[1..], t.data);
    }
    forall i | 0 <= i < |t.children|
      ensures SameShape(t.children[i], r.children[i])
    {
      if p == [] || i != p[0] {
        SameShapeRefl(t.children[i]);
      }
    }
  }

  lemma {:induction false} RaisedShape<M>(t: Tree<M>, p: seq<nat>, k: nat, v: int)
    requires InTree(t, p) && k <= |p|
    ensures SameShape(t, Raised(t, p, k, v)) && InTree(Raised(t, p, k, v), p)
    decreases k
  {
    if k == 0 {
      PushShape(t, p, v);
    } else {
      var r := Raised(t, p, k, v);
      RaisedShape(t.children[p[0]], p[1..], k - 1, v);
      forall i | 0 <= i < |t.children|
        ensures SameShape(t.children[i], r.children[i])
      {
        if i != p[0] {
          SameShapeRefl(t.children[i]);
        }
      }
    }
  }

  lemma {:induction false} SameShapeRefl<M>(t: Tree<M>)
    ensures SameShape(t, t)
    decreases t
  {
    forall i | 0 <= i < |t.children|
      ensures SameShape(t.children[i], t.children[i])
    {
      SameShapeRefl(t.children[i]);
    }
  }

  /** Before any swap the value is still where it was written. */
  lemma {:induction false} RaisedBottom<M>(t: Tree<M>, p: seq<nat>)
    requires InTree(t, p)
    ensures Raised(t, p, |p|, Sub(t, p).data) == t
    decreases |p|
  {
    if p != [] {
      RaisedBottom(t.children[p[0]], p[1..]);
      assert t.children[p[0] := t.children[p[0]]] == t.children;
    }
  }

  /** The nodes above depth `k` keep their values. */
  lemma {:induction false} RaisedAbove<M>(t: Tree<M>, p: seq<nat>, k: nat, v: int, j: nat)
    requires InTree(t, p) && j < k <= |p|
    ensures InTree(t, p[..j]) && InTree(Raised(t, p, k, v), p[..j])
    ensures Sub(Raised(t, p, k, v), p[..j]).data == Sub(t, p[..j]).data
    decreases j
  {
    if j > 0 {
      assert p[..j][1..] == p[1..][..j - 1];
      RaisedAbove(t.children[p[0]], p[1..], k - 1, v, j - 1);
    }
  }

  /** One swap carries the value one node further up. */
  lemma {:induction false} SwapStep<M>(t: Tree<M>, p: seq<nat>, k: nat, v: int)
    requires InTree(t, p) && 0 < k <= |p|
    requires InTree(Raised(t, p, k, v), p)
    ensures SwapUp(Raised(t, p, k, v), p, k) == Raised(t, p, k - 1, v)
    decreases k
  {
    var c := t.children[p[0]];
    if k == 1 {
      assert Push(c, p[1..], v).(data := t.data) == Push(c, p[1..], t.data);
    } else {
      RaisedInTree(c, p[1..], k - 1, v);
      SwapStep(c, p[1..], k - 1, v);
    }
  }

  lemma {:induction false} RaisedInTree<M>(t: Tree<M>, p: seq<nat>, k: nat, v: int)
    requires InTree(t, p) && k <= |p|
    ensures InTree(Raised(t, p, k, v), p)
    decreases k
  {
    if k == 0 {
      PushInTree(t, p, v);
    } else {
      RaisedInTree(t.children[p[0]], p[1..], k - 1, v);
    }
  }

  lemma {:induction false} PushInTree<M>(t: Tree<M>, p: seq<nat>, v: int)
    requires InTree(t, p)
    ensures InTree(Push(t, p, v), p)
    decreases |p|
  {
    if p != [] {
      PushInTree(t.children[p[0]], p[1..], t.data);
    }
  }

  /** Pushing `v` down a path trades the value at its end for `v`. */
  lemma {:induction false} ElemsPush<M>(t: Tree<M>, p: seq<nat>, v: int)
    requires InTree(t, p)
    ensures Elems(Push(t, p, v)) + multiset{Sub(t, p).data} == Elems(t) + multiset{v}
    decreases |p|
  {
    if p != [] {
      var c := t.children[p[0]];
      var u := Push(c, p[1..], t.data);
      ElemsPush(c, p[1..], t.data);
      ElemsOfUpdate(t.children, p[0], u);
      Trade(t, Push(t, p, v), c, u, p[0], Sub(t, p).data, v);
    }
  }

  lemma {:induction false} ElemsRaised<M>(t: Tree<M>, p: seq<nat>, k: nat, v: int)
    requires InTree(t, p) && k <= |p|
    ensures Elems(Raised(t, p, k, v)) + multiset{Sub(t, p).data} == Elems(t) + multiset{v}
    decreases k
  {
    if k == 0 {
      ElemsPush(t, p, v);
    } else {
      var c := t.children[p[0]];
      var u := Raised(c, p[1..], k - 1, v);
      ElemsRaised(c, p[1..], k - 1, v);
      ElemsOfUpdate(t.children, p[0], u);
      Trade(t, Raised(t, p, k, v), c, u, p[0], Sub(t, p).data, v);
    }
  }

  /** A node whose child `c` is replaced by `u` trades values as the child
      does; when the node's own value changes to `v`, the child takes the
      old one. */
  lemma {:induction false} Trade<M>(t: Tree<M>, r: Tree<M>, c: Tree<M>, u: Tree<M>, i: nat, s: int, v: int)
    requires i < |t.children| && c == t.children[i] && r.children == t.children[i := u]
    requires ElemsOf(r.children) + Elems(c) == ElemsOf(t.children) + Elems(u)
    requires r.data == t.data ==> Elems(u) + multiset{s} == Elems(c) + multiset{v}
    requires r.data != t.data ==> r.data == v && Elems(u) + multiset{s} == Elems(c) + multiset{t.data}
    ensures Elems(r) + multiset{s} == Elems(t) + multiset{v}
  {
    ElemsRoot(r);
    ElemsRoot(t);
    TradeValues(Elems(r), Elems(t), ElemsOf(r.children), ElemsOf(t.children), Elems(c), Elems(u),
                r.data, t.data, s, v);
  }

  lemma {:induction false} Cancel(a: multiset<int>, b: multiset<int>, c: multiset<int>)
    requires a + c == b + c
    ensures a == b
  {
    forall z
      ensures a[z] == b[z]
    {
      assert (a + c)[z] == (b + c)[z];
    }
  }

  /** The sentinel in place of `x`. */
  lemma {:induction false} Swapped(c: multiset<int>, before: multiset<int>, x: int, s: int)
    requires c + multiset{x} == before + multiset{s} && x in before
    ensures c == before - multiset{x} + multiset{s}
  {
    forall z
      ensures c[z] == (before - multiset{x} + multiset{s})[z]
    {
      assert (c + multiset{x})[z] == (before + multiset{s})[z];
    }
  }

  /** Removing the sentinel after it replaced `x` removes `x`. */
  lemma {:induction false} Traded(after: multiset<int>, mid: multiset<int>, before: multiset<int>, x: int, s: int)
    requires mid + multiset{x} == before + multiset{s}
    requires after == mid - multiset{s}
    ensures after == before - multiset{x}
  {
    forall z
      ensures after[z] == (before - multiset{x})[z]
    {
      assert (mid + multiset{x})[z] == (before + multiset{s})[z];
    }
  }

  /** Trading `d` for `s` in one part of a whole trades them in the whole. */
  lemma {:induction false} Exchange(a: multiset<int>, b: multiset<int>, c: multiset<int>, u: multiset<int>, d: int, s: int)
    requires a + b == c + u && u + multiset{d} == b + multiset{s}
    ensures a + multiset{d} == c + multiset{s} && |a| == |c|
  {
    forall z
      ensures (a + multiset{d})[z] == (c + multiset{s})[z]
    {
      assert (a + b)[z] == (c + u)[z];
      assert (u + multiset{d})[z] == (b + multiset{s})[z];
    }
    assert a + multiset{d} == c + multiset{s};
    assert |a + multiset{d}| == |c + multiset{s}|;
  }

  lemma {:induction false} ElemsRoot<M>(t: Tree<M>)
    ensures Elems(t) == multiset{t.data} + ElemsOf(t.children)
  {
  }

  lemma {:induction false} TradeValues(er: multiset<int>, et: multiset<int>, a': multiset<int>, a: multiset<int>,
                    c: multiset<int>, u: multiset<int>, rd: int, td: int, s: int, v: int)
    requires er == multiset{rd} + a' && et == multiset{td} + a && a' + c == a + u
    requires rd == td ==> u + multiset{s} == c + multiset{v}
    requires rd != td ==> rd == v && u + multiset{s} == c + multiset{td}
    ensures er + multiset{s} == et + multiset{v}
  {
    forall z
      ensures (er + multiset{s})[z] == (et + multiset{v})[z]
    {
      assert (a' + c)[z] == (a + u)[z];
      if rd == td {
        assert (u + multiset{s})[z] == (c + multiset{v})[z];
      } else {
        assert (u + multiset{s})[z] == (c + multiset{td})[z];
      }
    }
  }

  /** A value that no value of a heap-ordered tree ranks above, pushed
      down from the root along any path, leaves the tree heap-ordered. */
  lemma {:induction false} OrderedPush<M>(o: Order, t: Tree<M>, p: seq<nat>, v: int)
    requires InTree(t, p) && Forests.HeapOrdered(o, t) && !Comp(o, t.data, v)
    ensures Forests.HeapOrdered(o, Push(t, p, v))
    decreases |p|
  {
    var r := Push(t, p, v);
    if p != [] {
      var c := t.children[p[0]];
      OrderedPush(o, c, p[1..], t.data);
    }
    forall i | 0 <= i < |r.children|
      ensures !Comp(o, r.children[i].data, r.data) && Forests.HeapOrdered(o, r.children[i])
    {
      if p == [] || i != p[0] {
        assert !Comp(o, t.children[i].data, t.data);
      }
    }
  }

  /** Which values `bubble_key` and `increaseKey` carry past a parent:
      `WhileAbove` while the value ranks above the parent's (`increaseKey`),
      `WhileNotAbove` while it does not (`bubble_key` as written). */
  datatype Rule = WhileAbove | WhileNotAbove

  predicate Lifts(o: Order, r: Rule, a: int, b: int)
  {
    match r
    case WhileAbove => Comp(o, a, b)
    case WhileNotAbove => !Comp(o, a, b)
  }

  /** The bubbling loop: the value at the end of `path` changes places with
      its parent's as long as the rule allows, and stops at the root of its
      tree.  `m` is the depth where it stops: it passed every ancestor below
      `m` by the rule, and the rule stopped it at the ancestor above `m`. */
  method Bubble<M>(o: Order, r: Rule, t0: Tree<M>, path: seq<nat>) returns (t: Tree<M>, m: nat)
    requires InTree(t0, path)
    ensures m <= |path| && t == Raised(t0, path, m, Sub(t0, path).data)
    ensures forall j :: m <= j < |path| ==>
      InTree(t0, path[..j]) && Lifts(o, r, Sub(t0, path).data, Sub(t0, path[..j]).data)
    ensures 0 < m ==>
      InTree(t0, path[..m - 1]) && !Lifts(o, r, Sub(t0, path).data, Sub(t0, path[..m - 1]).data)
  {
    var v := Sub(t0, path).data;
    t, m := t0, |path|;
    RaisedBottom(t0, path);
    while 0 < m
      invariant m <= |path| && t == Raised(t0, path, m, v)
      invariant forall j :: m <= j < |path| ==> InTree(t0, path[..j]) && Lifts(o, r, v, Sub(t0, path[..j]).data)
      decreases m
    {
      RaisedAbove(t0, path, m, v, m - 1);
      var a := Sub(t, path[..m - 1]).data;
      if !Lifts(o, r, v, a) {
        return;
      }
      RaisedInTree(t0, path, m, v);
      SwapStep(t0, path, m, v);
      t := SwapUp(t, path, m);
      m := m - 1;
    }
  }

  /** The Fibonacci heaps' node colour. */
  datatype Color = White | Black

  /** `degree -= 1` on an `unsigned short`. */
  function Pred16(d: nat): (r: nat)
    ensures d > 0 ==> r == d - 1
  {
    if d == 0 then 65535 else d - 1
  }

  /** The child at the end of `p` erased from its parent's children, and
      the parent's degree decremented. */
  function Prune<M>(t: Tree<M>, p: seq<nat>): Tree<M>
    requires InTree(t, p) && p != []
    decreases |p|
  {
    if |p| == 1 then t.(degree := Pred16(t.degree), children := Erase(t.children, p[0]))
    else t.(children := t.children[p[0] := Prune(t.children[p[0]], p[1..])])
  }

  /** `n->color = m` on the node at the end of `p`. */
  function SetMark<M>(t: Tree<M>, p: seq<nat>, m: M): Tree<M>
    requires InTree(t, p)
    decreases |p|
  {
    if p == [] then t.(mark := m)
    else t.(children := t.children[p[0] := SetMark(t.children[p[0]], p[1..], m)])
  }

  /** The fields of a node other than its children and degree. */
  ghost predicate Agree<M>(a: Tree<M>, b: Tree<M>)
  {
    a.data == b.data && a.mark == b.mark && a.parented == b.parented
  }

  /** Cutting below a node keeps the node's own fields. */
  lemma {:induction false} PruneAbove<M>(t: Tree<M>, p: seq<nat>, j: nat)
    requires InTree(t, p) && p != [] && j < |p|
    ensures InTree(t, p[..j]) && InTree(Prune(t, p), p[..j]) && Agree(Sub(Prune(t, p), p[..j]), Sub(t, p[..j]))
    decreases j
  {
    if j > 0 {
      assert p[..j][1..] == p[1..][..j - 1];
      PruneAbove(t.children[p[0]], p[1..], j - 1);
    }
  }

  /** Cutting moves the subtree's values out of the tree. */
  lemma {:induction false} ElemsPrune<M>(t: Tree<M>, p: seq<nat>)
    requires InTree(t, p) && p != []
    ensures Elems(Prune(t, p)) + Elems(Sub(t, p)) == Elems(t)
    decreases |p|
  {
    var r := Prune(t, p);
    ElemsRoot(r);
    ElemsRoot(t);
    if |p| == 1 {
      ElemsOfErase(t.children, p[0]);
      assert Sub(t, p) == t.children[p[0]];
      Regroup(Elems(r), Elems(t), ElemsOf(r.children), ElemsOf(t.children), Elems(Sub(t, p)), multiset{},
              t.data, Elems(Sub(t, p)));
    } else {
      var c := t.children[p[0]];
      var u := Prune(c, p[1..]);
      ElemsPrune(c, p[1..]);
      ElemsOfUpdate(t.children, p[0], u);
      Regroup(Elems(r), Elems(t), ElemsOf(r.children), ElemsOf(t.children), Elems(c), Elems(u),
              t.data, Elems(Sub(t, p)));
    }
  }

  lemma {:induction false} Regroup(er: multiset<int>, et: multiset<int>, a': multiset<int>, a: multiset<int>,
                c: multiset<int>, u: multiset<int>, d: int, x: multiset<int>)
    requires er == multiset{d} + a' && et == multiset{d} + a
    requires a' + c == a + u && u + x == c
    ensures er + x == et
  {
    forall z
      ensures (er + x)[z] == et[z]
    {
      assert (a' + c)[z] == (a + u)[z];
      assert (u + x)[z] == c[z];
    }
  }

  /** Heap order, the degree fields and the set parent pointers survive
      cutting, both in the tree and in the subtree cut off. */
  lemma {:induction false} PruneKeeps<M>(o: Order, t: Tree<M>, p: seq<nat>)
    requires InTree(t, p) && p != []
    ensures Forests.HeapOrdered(o, t) ==> Forests.HeapOrdered(o, Prune(t, p)) && Forests.HeapOrdered(o, Sub(t, p))
    ensures Wf(t) ==> Wf(Prune(t, p)) && Wf(Sub(t, p)) && Sub(t, p).parented
    decreases |p|
  {
    var c := t.children[p[0]];
    if |p| > 1 {
      PruneKeeps(o, c, p[1..]);
    }
    SubKeeps(o, c, p[1..]);
    var r := Prune(t, p);
    if Forests.HeapOrdered(o, t) {
      forall i | 0 <= i < |r.children|
        ensures !Comp(o, r.children[i].data, r.data) && Forests.HeapOrdered(o, r.children[i])
      {
        if |p| == 1 {
          assert r.children[i] == t.children[if i < p[0] then i else i + 1];
        } else if i != p[0] {
          assert r.children[i] == t.children[i];
        }
      }
    }
    if Wf(t) {
      forall i | 0 <= i < |r.children|
        ensures r.children[i].parented && Wf(r.children[i])
      {
        if |p| == 1 {
          assert r.children[i] == t.children[if i < p[0] then i else i + 1];
        } else if i != p[0] {
          assert r.children[i] == t.children[i];
        }
      }
    }
  }

  lemma {:induction false} SubKeeps<M>(o: Order, t: Tree<M>, p: seq<nat>)
    requires InTree(t, p)
    ensures Forests.HeapOrdered(o, t) ==> Forests.HeapOrdered(o, Sub(t, p))
    ensures Wf(t) ==> Wf(Sub(t, p)) && (p != [] ==> Sub(t, p).parented)
    decreases |p|
  {
    if p != [] {
      SubKeeps(o, t.children[p[0]], p[1..]);
    }
  }

  /** Recolouring keeps the values, the heap order and the shape. */
  lemma {:induction false} SetMarkKeeps<M>(o: Order, t: Tree<M>, p: seq<nat>, m: M)
    requires InTree(t, p)
    ensures Forests.HeapOrdered(o, t) ==> Forests.HeapOrdered(o, SetMark(t, p, m))
    ensures Wf(t) ==> Wf(SetMark(t, p, m))
    ensures SetMark(t, p, m).parented == t.parented && SetMark(t, p, m).data == t.data
    decreases |p|
  {
    if p != [] {
      var c := t.children[p[0]];
      var u := SetMark(c, p[1..], m);
      SetMarkKeeps(o, c, p[1..], m);
      var r := SetMark(t, p, m);
      forall i | 0 <= i < |r.children|
        ensures r.children[i] == t.children[i] || (i == p[0] && r.children[i] == u)
      {
      }
    }
  }

  lemma {:induction false} ElemsSetMark<M>(t: Tree<M>, p: seq<nat>, m: M)
    requires InTree(t, p)
    ensures Elems(SetMark(t, p, m)) == Elems(t)
    decreases |p|
  {
    if p != [] {
      var c := t.children[p[0]];
      var u := SetMark(c, p[1..], m);
      ElemsSetMark(c, p[1..], m);
      ElemsOfUpdate(t.children, p[0], u);
      ElemsRoot(SetMark(t, p, m));
      ElemsRoot(t);
      Cancel(ElemsOf(t.children[p[0] := u]), ElemsOf(t.children), Elems(c));
    }
  }

  /** The path to the parent of the node at the end of `p`. */
  function Up(p: seq<nat>): (q: seq<nat>)
    requires p != []
    ensures |q| == |p| - 1 && q == p[..|p| - 1]
  {
    p[..|p| - 1]
  }

  lemma {:induction false} InTreeUp<M>(t: Tree<M>, p: seq<nat>)
    requires InTree(t, p) && p != []
    ensures InTree(t, Up(p))
  {
    InTreePrefix(t, p, |p| - 1);
  }

  /** `decreaseKey`/`increaseKey` leaves the node at the end of `p` where it
      is: its parent pointer is null, or its parent ranks above it and it
      is not black. */
  predicate Stays(o: Order, t: Tree<Color>, p: seq<nat>)
    requires InTree(t, p) && p != []
  {
    !Sub(t, p).parented ||
    (InTree(t, Up(p)) && Comp(o, Sub(t, Up(p)).data, Sub(t, p).data) && Sub(t, p).mark != Black)
  }

  /** The cascade started at the end of `p` never follows a parent pointer
      the tree does not hold: it does not reach the tree's root while that
      root still has the parent pointer it had before being cut, where the
      search for it among its old parent's children is undefined. */
  ghost predicate CutDefined(o: Order, t: Tree<Color>, p: seq<nat>)
    requires InTree(t, p)
    decreases |p|
  {
    if p == [] then !t.parented
    else
      InTree(t, Up(p)) &&
      (Stays(o, t, p) || Sub(t, Up(p)).mark == White || CutDefined(o, t, Up(p)))
  }

  /** Whether a cut cascade is defined depends only on the nodes on the
      path, which cutting below them leaves alone. */
  lemma {:induction false} CutDefinedPrune(o: Order, t: Tree<Color>, p: seq<nat>, q: seq<nat>)
    requires InTree(t, p) && p != [] && |q| < |p| && q == p[..|q|]
    requires InTree(t, q) && CutDefined(o, t, q)
    ensures InTree(Prune(t, p), q) && CutDefined(o, Prune(t, p), q)
    decreases |q|
  {
    PruneAbove(t, p, |q|);
    if q != [] {
      var r := Prune(t, p);
      assert Up(q) == p[..|q| - 1];
      PruneAbove(t, p, |q| - 1);
      assert Agree(Sub(r, q), Sub(t, q)) && Agree(Sub(r, Up(q)), Sub(t, Up(q)));
      if !Stays(o, t, q) && Sub(t, Up(q)).mark != White {
        CutDefinedPrune(o, t, p, Up(q));
      }
    }
  }

  /** The forest is heap-ordered once the subtree at the end of `p` in
      tree `i` is cut off, and so is that subtree. */
  ghost predicate OrderedCut(o: Order, L: seq<Tree<Color>>, i: nat, p: seq<nat>)
    requires i < |L| && InTree(L[i], p) && p != []
  {
    AllOrdered(o, L[i := Prune(L[i], p)]) && Forests.HeapOrdered(o, Sub(L[i], p))
  }

  /** The first cut of a cascade: the node goes to the front of the root
      list, white, and its old parent loses it; no value is lost. */
  lemma {:induction false} CutStepElems<M>(L: seq<Tree<M>>, i: nat, p: seq<nat>, m: M, L1: seq<Tree<M>>)
    requires i < |L| && InTree(L[i], p) && p != []
    requires L1 == [Sub(L[i], p).(mark := m)] + L[i := Prune(L[i], p)]
    ensures ElemsOf(L1) == ElemsOf(L)
  {
    var n := Sub(L[i], p);
    var u := Prune(L[i], p);
    var R := L[i := u];
    ElemsPrune(L[i], p);
    ElemsOfUpdate(L, i, u);
    ElemsOfAppend([n.(mark := m)], R);
    ElemsOfOne(n.(mark := m));
    ElemsRoot(n.(mark := m));
    ElemsRoot(n);
    Rebalance(Elems(n), ElemsOf(R), Elems(L[i]), ElemsOf(L), Elems(u));
  }

  /** The first cut keeps every tree's degree field and parent pointers
      consistent, except the cut node's own, now stale, parent pointer. */
  lemma {:induction false} CutStepWf<M>(L: seq<Tree<M>>, i: nat, p: seq<nat>, m: M, L1: seq<Tree<M>>)
    requires i < |L| && InTree(L[i], p) && p != []
    requires L1 == [Sub(L[i], p).(mark := m)] + L[i := Prune(L[i], p)]
    requires AllWf(L)
    ensures AllWf(L1)
  {
    PruneKeeps(Less, L[i], p);
    forall q | 0 <= q < |L1|
      ensures Wf(L1[q])
    {
      if q > 0 && q - 1 != i {
        assert L1[q] == L[q - 1];
      }
    }
  }

  /** Cutting an ordered forest leaves the rest of the forest ordered, and
      the subtree cut off. */
  lemma {:induction false} CutOrdered(o: Order, L: seq<Tree<Color>>, i: nat, p: seq<nat>)
    requires i < |L| && InTree(L[i], p) && p != []
    requires AllOrdered(o, L)
    ensures OrderedCut(o, L, i, p)
  {
    PruneKeeps(o, L[i], p);
    var R := L[i := Prune(L[i], p)];
    forall q | 0 <= q < |R|
      ensures Forests.HeapOrdered(o, R[q])
    {
      if q != i {
        assert R[q] == L[q];
      }
    }
  }

  /** Once the cut is ordered, the root list after the first cut is. */
  lemma {:induction false} CutStepOrdered(o: Order, L: seq<Tree<Color>>, i: nat, p: seq<nat>, L1: seq<Tree<Color>>)
    requires i < |L| && InTree(L[i], p) && p != []
    requires L1 == [Sub(L[i], p).(mark := White)] + L[i := Prune(L[i], p)]
    requires OrderedCut(o, L, i, p)
    ensures AllOrdered(o, L1)
  {
    var n := Sub(L[i], p);
    assert Forests.HeapOrdered(o, n.(mark := White)) by {
      assert n.(mark := White).children == n.children;
    }
    var R := L[i := Prune(L[i], p)];
    forall q | 0 <= q < |L1|
      ensures Forests.HeapOrdered(o, L1[q])
    {
      if q > 0 {
        assert L1[q] == R[q - 1];
      }
    }
  }

  lemma {:induction false} Rebalance(a: multiset<int>, b: multiset<int>, c: multiset<int>, d: multiset<int>, e: multiset<int>)
    requires b + c == d + e && e + a == c
    ensures a + b == d
  {
    forall z
      ensures (a + b)[z] == d[z]
    {
      assert (b + c)[z] == (d + e)[z];
      assert (e + a)[z] == c[z];
    }
  }

  /** Colouring a node of one tree of a root list keeps what the root list
      holds, and its shape and order. */
  lemma {:induction false} MarkInForest<M>(o: Order, L: seq<Tree<M>>, j: nat, q: seq<nat>, m: M)
    requires j < |L| && InTree(L[j], q)
    ensures ElemsOf(L[j := SetMark(L[j], q, m)]) == ElemsOf(L)
    ensures AllWf(L) ==> AllWf(L[j := SetMark(L[j], q, m)])
    ensures AllOrdered(o, L) ==> AllOrdered(o, L[j := SetMark(L[j], q, m)])
  {
    var u := SetMark(L[j], q, m);
    ElemsSetMark(L[j], q, m);
    ElemsOfUpdate(L, j, u);
    SetMarkKeeps(o, L[j], q, m);
    var R := L[j := u];
    Cancel(ElemsOf(R), ElemsOf(L), Elems(L[j]));
    if AllWf(L) {
      forall k | 0 <= k < |R|
        ensures Wf(R[k])
      {
        if k != j {
          assert R[k] == L[k];
        }
      }
    }
    if AllOrdered(o, L) {
      forall k | 0 <= k < |R|
        ensures Forests.HeapOrdered(o, R[k])
      {
        if k != j {
          assert R[k] == L[k];
        }
      }
    }
  }

  /** `L'` is `L` with nodes pushed at the front, and possibly a
      different tree in place of tree `i`. */
  ghost predicate ShiftedBut<M>(L: seq<Tree<M>>, L': seq<Tree<M>>, i: nat)
  {
    |L'| >= |L| && forall j :: 0 <= j < |L| && j != i ==> L'[j + (|L'| - |L|)] == L[j]
  }

  lemma {:induction false} ShiftedFront<M>(L: seq<Tree<M>>, i: nat, x: Tree<M>, u: Tree<M>, v: Tree<M>)
    requires i < |L|
    ensures ShiftedBut(L, [x] + L[i := u], i)
    ensures ShiftedBut(L, ([x] + L[i := u])[i + 1 := v], i)
  {
  }

  lemma {:induction false} ShiftedTrans<M>(L: seq<Tree<M>>, L1: seq<Tree<M>>, L2: seq<Tree<M>>, i: nat)
    requires |L1| == |L| + 1 && ShiftedBut(L, L1, i) && ShiftedBut(L1, L2, i + 1)
    ensures ShiftedBut(L, L2, i) && L2[|L2| - |L1|] == L1[0]
  {
    forall j | 0 <= j < |L| && j != i
      ensures L2[j + (|L2| - |L|)] == L[j]
    {
      assert L1[j + 1] == L[j];
      assert L2[(j + 1) + (|L2| - |L1|)] == L1[j + 1];
    }
    assert L2[0 + (|L2| - |L1|)] == L1[0];
  }

  /** Everything the cascade needs to know about its first cut. */
  lemma {:induction false} CutFront(o: Order, L: seq<Tree<Color>>, i: nat, p: seq<nat>, L1: seq<Tree<Color>>)
    requires i < |L| && InTree(L[i], p) && p != []
    requires L1 == [Sub(L[i], p).(mark := White)] + L[i := Prune(L[i], p)]
    ensures |L1| == |L| + 1 && L1[i + 1] == Prune(L[i], p)
    ensures ElemsOf(L1) == ElemsOf(L)
    ensures AllWf(L) ==> AllWf(L1)
    ensures AllOrdered(o, L) ==> AllOrdered(o, L1)
    ensures OrderedCut(o, L, i, p) ==> AllOrdered(o, L1)
    ensures ShiftedBut(L, L1, i)
  {
    CutStepElems(L, i, p, White, L1);
    if AllWf(L) {
      CutStepWf(L, i, p, White, L1);
    }
    if AllOrdered(o, L) {
      CutOrdered(o, L, i, p);
    }
    if OrderedCut(o, L, i, p) {
      CutStepOrdered(o, L, i, p, L1);
    }
    ShiftedFront(L, i, Sub(L[i], p).(mark := White), Prune(L[i], p), Prune(L[i], p));
  }

  /** `decreaseKey` (`increaseKey` in a max-heap) once the node's value has
      been moved towards the top: when the node at the end of `p` in tree
      `i` now ranks above its parent, or is black, it is cut off and put
      at the front of the root list, white, and its parent loses a child;
      a white parent that has a parent itself turns black, and a black one
      is cut in turn. The cut node keeps its parent pointer. The result `k`
      is where the node ends up. */
  method Cut(o: Order, L: seq<Tree<Color>>, i: nat, p: seq<nat>) returns (L': seq<Tree<Color>>, k: nat)
    requires i < |L| && InTree(L[i], p) && CutDefined(o, L[i], p)
    ensures ElemsOf(L') == ElemsOf(L)
    ensures AllWf(L) ==> AllWf(L')
    ensures AllOrdered(o, L) ==> AllOrdered(o, L')
    ensures p == [] || Stays(o, L[i], p) ==> L' == L
    ensures ShiftedBut(L, L', i)
    ensures p != [] && !Stays(o, L[i], p) ==> k < |L'| && L'[k] == Sub(L[i], p).(mark := White)
    ensures p != [] && !Stays(o, L[i], p) && OrderedCut(o, L, i, p) ==> AllOrdered(o, L')
    decreases |p|
  {
    L', k := L, 0;
    if p == [] || Stays(o, L[i], p) {
      return;
    }
    var n := Sub(L[i], p);
    InTreeUp(L[i], p);
    var q := Up(p);
    var t := Prune(L[i], p);
    var L1 := [n.(mark := White)] + L[i := t];
    CutFront(o, L, i, p, L1);
    PruneAbove(L[i], p, |q|);
    if Sub(L[i], q).mark == White {
      L' := L1;
      if Sub(t, q).parented {
        MarkInForest(o, L1, i + 1, q, Black);
        ShiftedFront(L, i, n.(mark := White), t, SetMark(t, q, Black));
        L' := L1[i + 1 := SetMark(t, q, Black)];
      }
    } else {
      CutDefinedPrune(o, L[i], p, q);
      L', k := Cut(o, L1, i + 1, q);
      ShiftedTrans(L, L1, L', i);
      k := |L'| - |L1|;
      assert k < |L'| && L'[k] == L1[0] == n.(mark := White);
    }
  }
}
