/** The trees shared by the heaps that keep a list of roots: BinomialHeap,
    MaxBinomHeap, MinFiboHeap and MaxFiboHeap.  A node has its value, its
    `degree` field, whether its `parent` pointer is set, a per-heap mark
    (nothing for the binomial heaps, the colour for the Fibonacci heaps)
    and its children in list order.  A list of roots is a `seq` of trees;
    a list iterator into it is a position. */
module Forests {
  import opened Common
  import opened BinaryHeaps

  datatype Tree<M> = Node(data: int, degree: nat, parented: bool, mark: M, children: seq<Tree<M>>)

  /** The values stored in a tree, and in a list of trees. */
  ghost function Elems<M>(t: Tree<M>): multiset<int>
    decreases t, 1
  {
    multiset{t.data} + ElemsOf(t.children)
  }

  ghost function ElemsOf<M>(f: seq<Tree<M>>): multiset<int>
    decreases f, 0
  {
    if f == [] then multiset{} else Elems(f[0]) + ElemsOf(f[1..])
  }

  lemma {:induction false} ElemsOfAppend<M>(a: seq<Tree<M>>, b: seq<Tree<M>>)
    ensures ElemsOf(a + b) == ElemsOf(a) + ElemsOf(b)
    decreases |a|
  {
    if a == [] {
      assert a + b == b;
    } else {
      assert (a + b)[1..] == a[1..] + b;
      ElemsOfAppend(a[1..], b);
    }
  }

  lemma {:induction false} ElemsOfOne<M>(t: Tree<M>)
    ensures ElemsOf([t]) == Elems(t)
  {
    assert [t][1..] == [];
  }

  /** Some tree of the list holds each of its values. */
  lemma {:induction false} ElemsOfHas<M>(f: seq<Tree<M>>, y: int) returns (i: nat)
    requires y in ElemsOf(f)
    ensures i < |f| && y in Elems(f[i])
    decreases |f|
  {
    if y in Elems(f[0]) {
      i := 0;
    } else {
      var j := ElemsOfHas(f[1..], y);
      i := j + 1;
    }
  }

  /** Each tree's values are among the list's values. */
  lemma {:induction false} ElemsOfCovers<M>(f: seq<Tree<M>>, i: nat)
    requires i < |f|
    ensures Elems(f[i]) <= ElemsOf(f)
    decreases i
  {
    if i > 0 {
      ElemsOfCovers(f[1..], i - 1);
    }
  }

  /** Replacing one tree of a list trades its values for the new tree's. */
  lemma {:induction false} ElemsOfUpdate<M>(f: seq<Tree<M>>, i: nat, u: Tree<M>)
    requires i < |f|
    ensures ElemsOf(f[i := u]) + Elems(f[i]) == ElemsOf(f) + Elems(u)
  {
    Split(f, i);
    Split(f[i := u], i);
    assert f[i := u][..i] == f[..i] && f[i := u][i + 1..] == f[i + 1..];
    ElemsOfAppend(f[..i] + [f[i]], f[i + 1..]);
    ElemsOfAppend(f[..i], [f[i]]);
    ElemsOfAppend(f[..i] + [u], f[i + 1..]);
    ElemsOfAppend(f[..i], [u]);
    ElemsOfOne(f[i]);
    ElemsOfOne(u);
  }

  /** The list without position `i`: `list::erase`. */
  function Erase<T>(f: seq<T>, i: nat): (g: seq<T>)
    requires i < |f|
    ensures |g| == |f| - 1
    ensures forall q :: 0 <= q < |g| ==> g[q] == f[if q < i then q else q + 1]
  {
    f[..i] + f[i + 1..]
  }

  lemma {:induction false} Split<T>(f: seq<T>, i: nat)
    requires i < |f|
    ensures f == f[..i] + [f[i]] + f[i + 1..]
  {
  }

  lemma {:induction false} ElemsOfErase<M>(f: seq<Tree<M>>, i: nat)
    requires i < |f|
    ensures ElemsOf(Erase(f, i)) + Elems(f[i]) == ElemsOf(f)
  {
    Split(f, i);
    ElemsOfAppend(f[..i] + [f[i]], f[i + 1..]);
    ElemsOfAppend(f[..i], [f[i]]);
    ElemsOfAppend(f[..i], f[i + 1..]);
    ElemsOfOne(f[i]);
  }

  /** `new Node(x)`: degree 0, no parent, no children. */
  function Leaf<M>(x: int, m: M): (t: Tree<M>)
    ensures Elems(t) == multiset{x} && ElemsOf([t]) == multiset{x}
    ensures Wf(t) && Binomial(t) && !t.parented && t.degree == 0
    ensures forall o :: HeapOrdered(o, t)
  {
    Node(x, 0, false, m, [])
  }

  /** No child ranks above its parent, at every node. */
  ghost predicate HeapOrdered<M>(o: Order, t: Tree<M>)
    decreases t
  {
    forall i :: 0 <= i < |t.children| ==>
      !Comp(o, t.children[i].data, t.data) && HeapOrdered(o, t.children[i])
  }

  ghost predicate AllOrdered<M>(o: Order, f: seq<Tree<M>>)
  {
    forall i :: 0 <= i < |f| ==> HeapOrdered(o, f[i])
  }

  /** In a heap-ordered tree no stored value ranks above the root. */
  lemma {:induction false} RootFirst<M>(o: Order, t: Tree<M>, y: int)
    requires HeapOrdered(o, t) && y in Elems(t)
    ensures !Comp(o, y, t.data)
    decreases t
  {
    if y != t.data {
      var i := ElemsOfHas(t.children, y);
      RootFirst(o, t.children[i], y);
    }
  }

  /** In a list of heap-ordered trees no stored value ranks above a root
      that no other root ranks above. */
  lemma {:induction false} TopFirst<M>(o: Order, f: seq<Tree<M>>, k: nat, y: int)
    requires AllOrdered(o, f) && k < |f| && y in ElemsOf(f)
    requires forall p :: 0 <= p < |f| ==> !Comp(o, f[p].data, f[k].data)
    ensures !Comp(o, y, f[k].data)
  {
    var i := ElemsOfHas(f, y);
    RootFirst(o, f[i], y);
  }

  /** Every `degree` field counts its node's children, and every node below
      a root has its `parent` pointer set. */
  ghost predicate Wf<M>(t: Tree<M>)
    decreases t
  {
    t.degree == |t.children| &&
    forall i :: 0 <= i < |t.children| ==> t.children[i].parented && Wf(t.children[i])
  }

  ghost predicate AllWf<M>(f: seq<Tree<M>>)
  {
    forall i :: 0 <= i < |f| ==> Wf(f[i])
  }

  /** A binomial tree: the children of a degree-k node have degrees
      k-1, ..., 1, 0 in list order, each itself binomial. */
  ghost predicate Binomial<M>(t: Tree<M>)
    decreases t
  {
    t.degree == |t.children| &&
    forall i :: 0 <= i < |t.children| ==>
      t.children[i].degree == |t.children| - 1 - i && Binomial(t.children[i])
  }

  ghost predicate AllBinomial<M>(f: seq<Tree<M>>)
  {
    forall i :: 0 <= i < |f| ==> Binomial(f[i])
  }

  /** A binomial tree of degree k holds 2^k values. */
  lemma {:induction false} BinomialSize<M>(t: Tree<M>)
    requires Binomial(t)
    ensures |Elems(t)| == Pow2(t.degree)
    decreases t, 1
  {
    ChildrenSize(t.children);
  }

  lemma {:induction false} ChildrenSize<M>(cs: seq<Tree<M>>)
    requires forall i :: 0 <= i < |cs| ==> cs[i].degree == |cs| - 1 - i && Binomial(cs[i])
    ensures |ElemsOf(cs)| + 1 == Pow2(|cs|)
    decreases cs, 0
  {
    if cs != [] {
      BinomialSize(cs[0]);
      ChildrenSize(cs[1..]);
    }
  }

  /** `basic_merge` on two roots: the one that ranks above the other
      (the second on a tie) becomes the parent, takes the other as its new
      first child with its `parent` pointer set, and gains one degree. */
  function Link<M>(o: Order, f: Tree<M>, s: Tree<M>): (r: Tree<M>)
    ensures Elems(r) == Elems(f) + Elems(s)
    ensures !Comp(o, f.data, r.data) && !Comp(o, s.data, r.data)
    ensures Comp(o, f.data, s.data) ==> r.children == [s.(parented := true)] + f.children
    ensures !Comp(o, f.data, s.data) ==> r.children == [f.(parented := true)] + s.children
    ensures r.parented == (if Comp(o, f.data, s.data) then f else s).parented
    ensures HeapOrdered(o, f) && HeapOrdered(o, s) ==> HeapOrdered(o, r)
    ensures Wf(f) && Wf(s) ==> Wf(r)
    ensures Binomial(f) && Binomial(s) && f.degree == s.degree ==> Binomial(r) && r.degree == f.degree + 1
  {
    if Comp(o, f.data, s.data) then Graft(o, f, s) else Graft(o, s, f)
  }

  /** `p` takes `c` as its first child. */
  function Graft<M>(o: Order, p: Tree<M>, c: Tree<M>): (r: Tree<M>)
    ensures Elems(r) == Elems(p) + Elems(c)
    ensures r.data == p.data && r.parented == p.parented && r.children == [c.(parented := true)] + p.children
    ensures !Comp(o, c.data, p.data) && HeapOrdered(o, p) && HeapOrdered(o, c) ==> HeapOrdered(o, r)
    ensures Wf(p) && Wf(c) ==> Wf(r)
    ensures Binomial(p) && Binomial(c) && p.degree == c.degree ==> Binomial(r) && r.degree == p.degree + 1
  {
    var c' := c.(parented := true);
    var r := p.(degree := p.degree + 1, children := [c'] + p.children);
    assert r.children[1..] == p.children;
    assert Elems(c') == Elems(c);
    assert HeapOrdered(o, c) ==> HeapOrdered(o, c');
    assert Wf(c) ==> Wf(c');
    assert Binomial(c) ==> Binomial(c');
    r
  }

  /** Where a root at position `q` sits once position `e` is erased. */
  function Moved(q: nat, e: nat): nat
    requires q != e
  {
    if q < e then q else q - 1
  }

  /** `L1` is `L` with position `e` erased and every other position kept,
      except the position of `w` itself. */
  ghost predicate ErasedBut<M>(L: seq<Tree<M>>, L1: seq<Tree<M>>, e: nat, w: nat)
  {
    e < |L| && w < |L| && e != w && |L1| == |L| - 1 &&
    forall q :: 0 <= q < |L| && q != e && q != w ==> L1[Moved(q, e)] == L[q]
  }

  /** `basic_merge(f, s)` on the list of roots: the root that ranks above
      the other (the second on a tie) takes the other as a child, and the
      other is erased.  `w` is the new position of the parent, `e` the old
      position of the erased root. */
  method BasicMerge<M>(o: Order, L: seq<Tree<M>>, f: nat, s: nat) returns (L': seq<Tree<M>>, w: nat, e: nat)
    requires f < |L| && s < |L| && f != s
    ensures e == (if Comp(o, L[f].data, L[s].data) then s else f)
    ensures ErasedBut(L, L', e, if e == s then f else s)
    ensures w == Moved(if e == s then f else s, e) && L'[w] == Link(o, L[f], L[s])
    ensures ElemsOf(L') == ElemsOf(L)
  {
    var v := if Comp(o, L[f].data, L[s].data) then f else s;
    e := if v == f then s else f;
    var u := Link(o, L[f], L[s]);
    var L1 := L[v := u];
    L' := Erase(L1, e);
    w := Moved(v, e);
    ElemsOfUpdate(L, v, u);
    ElemsOfErase(L1, e);
    assert L1[e] == L[e];
    assert Elems(u) == Elems(L[v]) + Elems(L[e]);
    MultisetCancel(ElemsOf(L'), Elems(L[e]), ElemsOf(L1), Elems(L[v]), ElemsOf(L));
    UpdateErase(L, v, e, u);
  }

  /** Positions in a list updated at `w` and then erased at `e`. */
  lemma {:induction false} UpdateErase<T>(L: seq<T>, w: nat, e: nat, u: T)
    requires w < |L| && e < |L| && w != e
    ensures Erase(L[w := u], e)[Moved(w, e)] == u
    ensures forall q :: 0 <= q < |L| && q != w && q != e ==> Erase(L[w := u], e)[Moved(q, e)] == L[q]
  {
  }

  /** From x + a == l and l + b == y + (b + a), x == y. */
  lemma {:induction false} MultisetCancel(x: multiset<int>, a: multiset<int>, l: multiset<int>, b: multiset<int>, y: multiset<int>)
    requires x + a == l && l + b == y + (b + a)
    ensures x == y
  {
    forall z
      ensures x[z] == y[z]
    {
      assert (x + a)[z] == l[z];
      assert (l + b)[z] == (y + (b + a))[z];
    }
  }

  /** The degree table after erasing position `e`: every iterator past it
      now names one position earlier. */
  function Shift(D: seq<Option<nat>>, e: nat): (D': seq<Option<nat>>)
    ensures |D'| == |D|
    ensures forall k :: 0 <= k < |D| ==>
      D'[k] == if D[k].Some? && D[k].value > e then Some(D[k].value - 1) else D[k]
  {
    seq(|D|, k requires 0 <= k < |D| => if D[k].Some? && D[k].value > e then Some(D[k].value - 1) else D[k])
  }

  /** Every entry of the degree table names a root before `n` of that
      degree. */
  ghost predicate TableOk<M>(L: seq<Tree<M>>, D: seq<Option<nat>>, n: nat)
  {
    n <= |L| &&
    forall k :: 0 <= k < |D| && D[k].Some? ==> D[k].value < n && L[D[k].value].degree == k
  }

  /** The root at `p` is the table's entry for its degree. */
  ghost predicate Registered<M>(L: seq<Tree<M>>, D: seq<Option<nat>>, p: nat)
  {
    p < |L| && L[p].degree < |D| && D[L[p].degree] == Some(p)
  }

  ghost predicate DistinctDegrees<M>(L: seq<Tree<M>>)
  {
    forall p, q :: 0 <= p < q < |L| ==> L[p].degree != L[q].degree
  }

  /** Roots in the order of a multiset keyed by degree: smallest first. */
  ghost predicate DegreeSorted<M>(L: seq<Tree<M>>)
  {
    forall p, q :: 0 <= p < q < |L| ==> L[p].degree <= L[q].degree
  }

  /** The shape properties a list of roots keeps through linking. */
  ghost predicate Kept<M>(o: Order, L0: seq<Tree<M>>, L: seq<Tree<M>>)
  {
    ElemsOf(L) == ElemsOf(L0) &&
    (AllOrdered(o, L0) ==> AllOrdered(o, L)) &&
    (AllWf(L0) ==> AllWf(L)) &&
    (AllBinomial(L0) ==> AllBinomial(L)) &&
    (AllFree(L0) ==> AllFree(L))
  }

  /** No root has its `parent` pointer set. */
  ghost predicate AllFree<M>(f: seq<Tree<M>>)
  {
    forall i :: 0 <= i < |f| ==> !f[i].parented
  }

  /** One link inside `chain_merge`: the table, with the link's slot
      emptied and shifted past the erased root, still names roots of the
      right degrees. */
  lemma {:induction false} LinkedTableEntries<M>(L: seq<Tree<M>>, D: seq<Option<nat>>, it: nat, n: nat, t: nat,
                              e: nat, w: nat, L1: seq<Tree<M>>, D1: seq<Option<nat>>)
    requires it < n <= |L| && TableOk(L, D, n)
    requires L[it].degree < |D| && D[L[it].degree] == Some(t) && t != it
    requires (e == it && w == Moved(t, e)) || (e == t && w == Moved(it, e))
    requires ErasedBut(L, L1, e, if e == it then t else it)
    requires D1 == Shift(D, e)[L[it].degree := None]
    ensures TableOk(L1, D1, n - 1)
  {
    forall k | 0 <= k < |D1| && D1[k].Some?
      ensures D1[k].value < n - 1 && L1[D1[k].value].degree == k
    {
      var q := D[k].value;
      assert q != it && q != t;
      assert L1[Moved(q, e)] == L[q];
    }
  }

  /** One link inside `chain_merge`: every root before `n` other than the
      two linked is still registered. */
  lemma {:induction false} LinkedTableRegistered<M>(L: seq<Tree<M>>, D: seq<Option<nat>>, it: nat, n: nat, t: nat,
                                 e: nat, w: nat, L1: seq<Tree<M>>, D1: seq<Option<nat>>)
    requires it < n <= |L| && TableOk(L, D, n)
    requires forall p :: 0 <= p < n && p != it ==> Registered(L, D, p)
    requires L[it].degree < |D| && D[L[it].degree] == Some(t) && t != it
    requires (e == it && w == Moved(t, e)) || (e == t && w == Moved(it, e))
    requires ErasedBut(L, L1, e, if e == it then t else it)
    requires D1 == Shift(D, e)[L[it].degree := None]
    ensures w < n - 1
    ensures forall p :: 0 <= p < n - 1 && p != w ==> Registered(L1, D1, p)
  {
    var id := L[it].degree;
    assert t < n && L[t].degree == id;
    forall p | 0 <= p < n - 1 && p != w
      ensures Registered(L1, D1, p)
    {
      var q := if p < e then p else p + 1;
      assert q != it && q != t && Moved(q, e) == p;
      assert L1[p] == L[q];
      assert Registered(L, D, q);
      var k := L[q].degree;
      assert k != id;
      assert Shift(D, e)[k] == Some(p);
    }
  }

  /** Every position of `L1` but the link's holds a root of `L`. */
  lemma {:induction false} Survivor<M>(L: seq<Tree<M>>, L1: seq<Tree<M>>, e: nat, b: nat, p: nat) returns (q: nat)
    requires ErasedBut(L, L1, e, b) && p < |L1| && p != Moved(b, e)
    ensures q < |L| && L1[p] == L[q]
  {
    q := if p < e then p else p + 1;
    assert Moved(q, e) == p;
  }

  /** A link keeps the shape properties of the list. */
  lemma {:induction false} LinkedKept<M>(o: Order, L: seq<Tree<M>>, f: nat, s: nat, e: nat, w: nat, L1: seq<Tree<M>>)
    requires f < |L| && s < |L| && f != s
    requires AllBinomial(L) ==> L[f].degree == L[s].degree
    requires (e == f && w == Moved(s, e)) || (e == s && w == Moved(f, e))
    requires ErasedBut(L, L1, e, if e == f then s else f)
    requires L1[w] == Link(o, L[f], L[s]) && ElemsOf(L1) == ElemsOf(L)
    ensures Kept(o, L, L1)
  {
    var b := if e == f then s else f;
    if AllOrdered(o, L) {
      forall p | 0 <= p < |L1| ensures HeapOrdered(o, L1[p]) {
        if p != w { var q := Survivor(L, L1, e, b, p); }
      }
    }
    if AllWf(L) {
      forall p | 0 <= p < |L1| ensures Wf(L1[p]) {
        if p != w { var q := Survivor(L, L1, e, b, p); }
      }
    }
    if AllBinomial(L) {
      forall p | 0 <= p < |L1| ensures Binomial(L1[p]) {
        if p != w { var q := Survivor(L, L1, e, b, p); }
      }
    }
    if AllFree(L) {
      forall p | 0 <= p < |L1| ensures !L1[p].parented {
        if p != w { var q := Survivor(L, L1, e, b, p); }
      }
    }
  }

  /** `chain_merge(it, dg)`: the root at `it` is registered in the table
      slot of its degree, linked with the root already there, and the link's
      parent is chained on.  `.at` on a degree past the table throws
      `std::out_of_range`.  Positions before `n` other than `it` are
      registered on entry; all positions before `n'` are on success. */
  /** Everything `chain_merge` knows after one link. */
  lemma {:induction false} Linked<M>(o: Order, L: seq<Tree<M>>, D: seq<Option<nat>>, it: nat, n: nat, t: nat,
                  e: nat, w: nat, L1: seq<Tree<M>>, D1: seq<Option<nat>>)
    requires it < n <= |L| && TableOk(L, D, n)
    requires forall p :: 0 <= p < n && p != it ==> Registered(L, D, p)
    requires L[it].degree < |D| && D[L[it].degree] == Some(t) && t != it && L[t].degree == L[it].degree
    requires e == (if Comp(o, L[it].data, L[t].data) then t else it)
    requires ErasedBut(L, L1, e, if e == t then it else t)
    requires w == Moved(if e == t then it else t, e) && L1[w] == Link(o, L[it], L[t])
    requires ElemsOf(L1) == ElemsOf(L)
    requires D1 == Shift(D, e)[L[it].degree := None]
    ensures w < n - 1 && |L1| == |L| - 1 && |D1| == |D|
    ensures TableOk(L1, D1, n - 1)
    ensures forall p :: 0 <= p < n - 1 && p != w ==> Registered(L1, D1, p)
    ensures Kept(o, L, L1)
    ensures L1[n - 1..] == L[n..]
  {
    LinkedTableEntries(L, D, it, n, t, e, w, L1, D1);
    LinkedTableRegistered(L, D, it, n, t, e, w, L1, D1);
    LinkedKept(o, L, it, t, e, w, L1);
    ErasedSuffix(L, L1, e, if e == it then t else it, n);
  }

  method ChainMerge<M>(o: Order, L: seq<Tree<M>>, D: seq<Option<nat>>, it: nat, ghost n: nat)
    returns (res: Result<nat>, L': seq<Tree<M>>, D': seq<Option<nat>>, ghost n': nat)
    requires it < n <= |L| && TableOk(L, D, n)
    requires forall p :: 0 <= p < n && p != it ==> Registered(L, D, p)
    ensures |D'| == |D| && Kept(o, L, L')
    ensures |L'| <= |L| && n' <= |L'| && |L'| - n' == |L| - n && L'[n'..] == L[n..]
    ensures res.Ok? && |L'| == |L| ==> res.value == it && L' == L
    ensures res.Ok? ==> res.value < n' && TableOk(L', D', n')
    ensures res.Ok? ==> forall p :: 0 <= p < n' ==> Registered(L', D', p)
    ensures res.Err? ==> res.error == OutOfRange
    ensures AllBinomial(L) && |ElemsOf(L)| < Pow2(|D|) ==> res.Ok?
    decreases |L|
  {
    var id := L[it].degree;
    if id >= |D| {
      DegreeBound(L, it, |D|);
      return Err(OutOfRange), L, D, n;
    }
    if D[id] == Some(it) || D[id] == None {
      D' := D[id := Some(it)];
      RegisterRoot(L, D, it, n, D');
      return Ok(it), L, D', n;
    }
    var t := D[id].value;
    assert L[t].degree == id;
    var L1, w, e := BasicMerge(o, L, it, t);
    var D1 := Shift(D, e)[id := None];
    Linked(o, L, D, it, n, t, e, w, L1, D1);
    res, L', D', n' := ChainMerge(o, L1, D1, w, n - 1);
    KeptTrans(o, L, L1, L');
  }

  /** A binomial root of degree k holds 2^k values, so a list of binomial
      trees holding fewer than 2^m values has no root of degree m or more. */
  lemma {:induction false} DegreeBound<M>(L: seq<Tree<M>>, i: nat, m: nat)
    requires i < |L| && L[i].degree >= m
    ensures !(AllBinomial(L) && |ElemsOf(L)| < Pow2(m))
  {
    if AllBinomial(L) {
      BinomialSize(L[i]);
      ElemsOfCovers(L, i);
      assert ElemsOf(L) == Elems(L[i]) + (ElemsOf(L) - Elems(L[i]));
      Pow2Grows(m, L[i].degree);
    }
  }

  /** An unregistered root whose table slot is free, or a registered
      root, is registered, and with it every position before `n`. */
  /** Binomial trees of distinct degrees below `k` hold fewer than 2^k
      values together, so a forest that consolidates into a table of `k`
      slots holds fewer than 2^k values. */
  lemma {:induction false} CapacityBound<M>(L: seq<Tree<M>>, k: nat)
    requires AllBinomial(L) && DistinctDegrees(L)
    requires forall p :: 0 <= p < |L| ==> L[p].degree < k
    ensures |ElemsOf(L)| < Pow2(k)
    decreases k
  {
    if k > 0 {
      if j :| 0 <= j < |L| && L[j].degree == k - 1 {
        var R := Erase(L, j);
        forall p, q | 0 <= p < q < |R|
          ensures R[p].degree != R[q].degree
        {
          assert R[p] == L[if p < j then p else p + 1] && R[q] == L[if q < j then q else q + 1];
        }
        forall p | 0 <= p < |R|
          ensures R[p].degree < k - 1
        {
          assert R[p] == L[if p < j then p else p + 1];
        }
        CapacityBound(R, k - 1);
        ElemsOfErase(L, j);
        BinomialSize(L[j]);
      } else {
        CapacityBound(L, k - 1);
      }
    }
  }

  lemma {:induction false} RegisterRoot<M>(L: seq<Tree<M>>, D: seq<Option<nat>>, it: nat, n: nat, D': seq<Option<nat>>)
    requires it < n <= |L| && TableOk(L, D, n)
    requires forall p :: 0 <= p < n && p != it ==> Registered(L, D, p)
    requires L[it].degree < |D| && (D[L[it].degree] == Some(it) || D[L[it].degree] == None)
    requires D' == D[L[it].degree := Some(it)]
    ensures TableOk(L, D', n)
    ensures forall p :: 0 <= p < n ==> Registered(L, D', p)
  {
    forall p | 0 <= p < n
      ensures Registered(L, D', p)
    {
      if p != it {
        assert Registered(L, D, p);
      }
    }
  }

  /** Erasing a position before `n` shifts the part from `n` on by one. */
  lemma {:induction false} ErasedSuffix<M>(L: seq<Tree<M>>, L1: seq<Tree<M>>, e: nat, w: nat, n: nat)
    requires ErasedBut(L, L1, e, w) && e < n && w < n && n <= |L|
    ensures L1[n - 1..] == L[n..]
  {
    forall q | n - 1 <= q < |L1|
      ensures L1[q] == L[q + 1]
    {
      assert L1[Moved(q + 1, e)] == L[q + 1];
    }
  }

  lemma {:induction false} KeptTrans<M>(o: Order, a: seq<Tree<M>>, b: seq<Tree<M>>, c: seq<Tree<M>>)
    requires Kept(o, a, b) && Kept(o, b, c)
    ensures Kept(o, a, c)
  {
  }

  /** ceil(log2 m) for m >= 1: the least k with 2^k >= m. */
  function CeilLog2(m: nat): (k: nat)
    requires m >= 1
    ensures Pow2(k) >= m && (k > 0 ==> Pow2(k - 1) < m)
    decreases m
  {
    if m == 1 then 0 else 1 + CeilLog2((m + 1) / 2)
  }

  /** The size of `merge`'s degree table, `ceil(log2(m_size)) + 1`. */
  function Slots(m: nat): (k: nat)
    requires m >= 1
    ensures Pow2(k) > m
  {
    CeilLog2(m) + 1
  }

  /** `merge`: with fewer than two roots nothing happens; otherwise a
      table of `Slots(m_size)` empty slots is built and `chain_merge` runs
      on every root in list order.  On success no two roots share a degree;
      an `out_of_range` from `chain_merge` leaves the links made so far.
      A forest of binomial trees holding fewer than 2^slots values never
      overflows the table. */
  method Consolidate<M>(o: Order, L0: seq<Tree<M>>, size: nat) returns (res: Result<()>, L: seq<Tree<M>>)
    requires |L0| >= 2 ==> size >= 1
    ensures Kept(o, L0, L)
    ensures |L0| < 2 ==> res.Ok? && L == L0
    ensures res.Ok? ==> DistinctDegrees(L)
    ensures res.Ok? && |L0| >= 2 ==> forall p :: 0 <= p < |L| ==> L[p].degree < Slots(size)
    ensures res.Err? ==> res.error == OutOfRange
    ensures AllBinomial(L0) && |ElemsOf(L0)| <= size ==> res.Ok?
  {
    L := L0;
    if |L| < 2 {
      return Ok(()), L;
    }
    var D: seq<Option<nat>> := seq(Slots(size), _ => None);
    var ii: nat := 0;
    ghost var reach: nat := 0;
    while ii < |L|
      invariant ii <= reach <= |L| && |D| == Slots(size) && Kept(o, L0, L)
      invariant TableOk(L, D, reach)
      invariant forall p :: 0 <= p < reach ==> Registered(L, D, p)
      decreases |L|, |L| - ii
    {
      var r;
      r, L, D, reach := ChainMerge(o, L, D, ii, if ii < reach then reach else reach + 1);
      if r.Err? {
        return Err(r.error), L;
      }
      ii := r.value + 1;
    }
    forall p, q | 0 <= p < q < |L|
      ensures L[p].degree != L[q].degree
    {
      assert Registered(L, D, p) && Registered(L, D, q);
    }
    forall p | 0 <= p < |L|
      ensures L[p].degree < Slots(size)
    {
      assert Registered(L, D, p);
    }
    res := Ok(());
  }
}
