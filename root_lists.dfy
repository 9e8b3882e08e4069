/** The operations on a list of roots that BinomialHeap, MaxBinomHeap,
    MinFiboHeap and MaxFiboHeap share almost line for line: choosing the top
    root (`update_top`, `updateMin`, `updateMax`), re-rooting the children
    of the top in `remove_top`, and the search `find`/`find_internal` that
    skips every subtree whose root ranks below the value sought.  A pointer
    to a node found is a path: the index of its root, then child indices. */
module RootLists {
  import opened Common
  import opened BinaryHeaps
  import opened Forests
  import opened TreePaths

  /** No root ranks above root `k`. */
  ghost predicate Best<M>(o: Order, L: seq<Tree<M>>, k: nat)
  {
    k < |L| && forall p :: 0 <= p < |L| ==> !Comp(o, L[p].data, L[k].data)
  }

  /** Root `k` is the first root that no root ranks above. */
  ghost predicate FirstBest<M>(o: Order, L: seq<Tree<M>>, k: nat)
  {
    Best(o, L, k) && forall p :: 0 <= p < k ==> Comp(o, L[k].data, L[p].data)
  }

  /** The top is determined by the roots' values. */
  lemma {:induction false} FirstBestUnique<M>(o: Order, L: seq<Tree<M>>, a: nat, b: nat)
    requires FirstBest(o, L, a) && FirstBest(o, L, b)
    ensures a == b
  {
    assert !Comp(o, L[b].data, L[a].data) && !Comp(o, L[a].data, L[b].data);
  }

  /** A root that ranks above every other root is the top. */
  lemma {:induction false} StrictBest<M>(o: Order, L: seq<Tree<M>>, k: nat)
    requires k < |L| && forall p :: 0 <= p < |L| && p != k ==> Comp(o, L[k].data, L[p].data)
    ensures FirstBest(o, L, k)
  {
  }

  /** In heap-ordered trees nothing stored ranks above the top root. */
  lemma {:induction false} BestFirst<M>(o: Order, L: seq<Tree<M>>, k: nat, y: int)
    requires AllOrdered(o, L) && Best(o, L, k) && y in ElemsOf(L)
    ensures !Comp(o, y, L[k].data)
  {
    TopFirst(o, L, k, y);
  }

  /** `update_top` (`updateMin`, `updateMax`): the iterator to the first
      root that no later root strictly beats, `end()` (`None`) when there
      are no roots.  BinomialHeap and MinFiboHeap take a shortcut for a
      single root, which gives the same answer. */
  method UpdateTop<M>(o: Order, L: seq<Tree<M>>) returns (top: Option<nat>)
    ensures top.None? <==> L == []
    ensures top.Some? ==> FirstBest(o, L, top.value)
  {
    if |L| == 0 {
      return None;
    }
    if |L| == 1 {
      return Some(0);
    }
    var k: nat := 0;
    var ii: nat := 0;
    while ii < |L|
      invariant k <= ii <= |L| && k < |L|
      invariant forall p :: 0 <= p < ii ==> !Comp(o, L[p].data, L[k].data)
      invariant forall p :: 0 <= p < k ==> Comp(o, L[k].data, L[p].data)
    {
      if Comp(o, L[ii].data, L[k].data) {
        k := ii;
      }
      ii := ii + 1;
    }
    return Some(k);
  }

  /** Trees whose `parent` pointers have been cleared. */
  function Orphans<M>(cs: seq<Tree<M>>): (r: seq<Tree<M>>)
    ensures |r| == |cs|
    ensures forall i :: 0 <= i < |cs| ==> r[i] == cs[i].(parented := false)
  {
    seq(|cs|, i requires 0 <= i < |cs| => cs[i].(parented := false))
  }

  lemma {:induction false} OrphansSplit<M>(cs: seq<Tree<M>>, n: nat)
    requires 0 < n <= |cs|
    ensures Orphans(cs[n - 1..]) == [cs[n - 1].(parented := false)] + Orphans(cs[n..])
  {
  }

  /** The loop of `remove_top`: the top's children are popped from the back
      and pushed at the front of the root list with their `parent` pointers
      cleared, so they end up in their old order in front of the other
      roots; then the top is erased. */
  method Unroot<M>(L: seq<Tree<M>>, k: nat) returns (L': seq<Tree<M>>)
    requires k < |L|
    ensures L' == Orphans(L[k].children) + Erase(L, k)
  {
    var top;
    L', top := Hoist(L, k);
    L' := Erase(L', top);
    UnrootErase(Orphans(L[k].children), L, k, L[k].(children := []));
  }

  /** The loop of `remove_top` on its own: the children of root `k` moved
      in front of the roots, and the position the top then has. */
  method Hoist<M>(L: seq<Tree<M>>, k: nat) returns (L': seq<Tree<M>>, top: nat)
    requires k < |L|
    ensures L' == Orphans(L[k].children) + L[k := L[k].(children := [])]
    ensures top == k + |L[k].children|
  {
    var ch := L[k].children;
    var cs := ch;
    top := k;
    L' := L;
    assert ch[|cs|..] == [];
    while |cs| > 0
      invariant |cs| <= |ch| && cs == ch[..|cs|] && top == k + (|ch| - |cs|)
      invariant L' == Orphans(ch[|cs|..]) + L[k := L[k].(children := ch[..|cs|])]
      decreases |cs|
    {
      var n := |cs|;
      assert cs[n - 1] == ch[n - 1] && cs[..n - 1] == ch[..n - 1];
      UnrootStep(L, k, ch, n, L');
      L' := [cs[n - 1].(parented := false)] + L'[top := L'[top].(children := cs[..n - 1])];
      cs := cs[..n - 1];
      top := top + 1;
    }
    assert ch[..0] == [] && ch[0..] == ch;
  }

  lemma {:induction false} UnrootStep<M>(L: seq<Tree<M>>, k: nat, ch: seq<Tree<M>>, n: nat, R: seq<Tree<M>>)
    requires k < |L| && 0 < n <= |ch|
    requires R == Orphans(ch[n..]) + L[k := L[k].(children := ch[..n])]
    ensures k + (|ch| - n) < |R|
    ensures [ch[n - 1].(parented := false)] + R[k + (|ch| - n) := R[k + (|ch| - n)].(children := ch[..n - 1])]
         == Orphans(ch[n - 1..]) + L[k := L[k].(children := ch[..n - 1])]
  {
    OrphansSplit(ch, n);
    var a := [ch[n - 1].(parented := false)] + R[k + (|ch| - n) := R[k + (|ch| - n)].(children := ch[..n - 1])];
    var b := Orphans(ch[n - 1..]) + L[k := L[k].(children := ch[..n - 1])];
    assert |a| == |b|;
    var top := k + (|ch| - n);
    forall j | 0 <= j < |a|
      ensures a[j] == b[j]
    {
      if 1 <= j <= |ch| - n {
        assert a[j] == R[j - 1] == ch[n + j - 1].(parented := false);
      } else if j > |ch| - n {
        var q := j - 1 - (|ch| - n);
        if q == k {
          assert a[j] == R[top].(children := ch[..n - 1]);
        } else {
          assert a[j] == R[j - 1] == L[q];
        }
      }
    }
  }

  lemma {:induction false} UnrootErase<M>(P: seq<Tree<M>>, L: seq<Tree<M>>, k: nat, u: Tree<M>)
    requires k < |L|
    ensures Erase(P + L[k := u], |P| + k) == P + Erase(L, k)
  {
  }

  /** Re-rooting loses exactly the top's value. */
  lemma {:induction false} UnrootElems<M>(L: seq<Tree<M>>, k: nat)
    requires k < |L|
    ensures ElemsOf(Orphans(L[k].children) + Erase(L, k)) + multiset{L[k].data} == ElemsOf(L)
  {
    var cs := L[k].children;
    ElemsOfAppend(Orphans(cs), Erase(L, k));
    OrphansElems(cs);
    ElemsOfErase(L, k);
    ElemsRoot(L[k]);
  }

  lemma {:induction false} OrphansElems<M>(cs: seq<Tree<M>>)
    ensures ElemsOf(Orphans(cs)) == ElemsOf(cs)
    decreases |cs|
  {
    if cs != [] {
      assert Orphans(cs)[1..] == Orphans(cs[1..]);
      OrphansElems(cs[1..]);
      ElemsRoot(cs[0]);
      ElemsRoot(cs[0].(parented := false));
    }
  }

  /** Re-rooting keeps heap order, the degree fields and the binomial
      shapes, and the new roots have no parent pointer. */
  lemma {:induction false} UnrootKeeps<M>(o: Order, L: seq<Tree<M>>, k: nat)
    requires k < |L|
    ensures AllOrdered(o, L) ==> AllOrdered(o, Orphans(L[k].children) + Erase(L, k))
    ensures AllWf(L) ==> AllWf(Orphans(L[k].children) + Erase(L, k))
    ensures AllBinomial(L) ==> AllBinomial(Orphans(L[k].children) + Erase(L, k))
    ensures forall i :: 0 <= i < |L[k].children| ==> !(Orphans(L[k].children) + Erase(L, k))[i].parented
  {
    var cs := L[k].children;
    var R := Orphans(cs) + Erase(L, k);
    assert forall i :: |cs| <= i < |R| ==> R[i] == L[if i - |cs| < k then i - |cs| else i - |cs| + 1];
    assert forall i :: 0 <= i < |cs| ==> R[i].children == cs[i].children && R[i].data == cs[i].data;
    if AllOrdered(o, L) {
      assert Forests.HeapOrdered(o, L[k]);
    }
    if AllWf(L) {
      assert Wf(L[k]);
    }
    if AllBinomial(L) {
      assert Binomial(L[k]);
    }
  }

  /** What `find` returns: the path to the node found, a null pointer, or
      an uninitialised pointer whose value is indeterminate. */
  datatype Search = Found(path: seq<nat>) | Missing | Indeterminate

  /** `find_internal(t, x)`, where `init` is what its result variable holds
      before the first assignment (`0` in the Fibonacci heaps and
      MaxBinomHeap, uninitialised in BinomialHeap). */
  function FindIn<M>(o: Order, t: Tree<M>, x: int, init: Search): Search
    decreases t, 1
  {
    if t.data == x then Found([])
    else if t.children == [] then Missing
    else FindAmong(o, t.children, x, init, 0, init)
  }

  /** The loop over `cs` from position `i`, with `acc` the result variable:
      a tree whose root ranks below `x` is skipped without touching `acc`
      (`continue` jumps over the `if (tmp) break`); otherwise its search
      result is stored and a non-null pointer ends the loop. */
  function FindAmong<M>(o: Order, cs: seq<Tree<M>>, x: int, init: Search, i: nat, acc: Search): Search
    decreases cs, |cs| - i
  {
    if i >= |cs| then acc
    else if Comp(o, x, cs[i].data) then FindAmong(o, cs, x, init, i + 1, acc)
    else match FindIn(o, cs[i], x, init)
      case Found(p) => Found([i] + p)
      case Missing => FindAmong(o, cs, x, init, i + 1, Missing)
      case Indeterminate => Indeterminate
  }

  /** `find(x)`: nothing when there are no roots or `x` ranks above the
      top; otherwise the same loop over the roots. */
  function FindRoots<M>(o: Order, L: seq<Tree<M>>, top: nat, x: int, init: Search): Search
    requires L != [] ==> top < |L|
  {
    if L == [] || Comp(o, x, L[top].data) then Missing
    else FindAmong(o, L, x, init, 0, init)
  }

  /** `find_internal` proper: a recursive method with a loop over the
      children, returning the path to the node found relative to `t`. */
  method FindInternal<M>(o: Order, t: Tree<M>, x: int, init: Search) returns (r: Search)
    ensures r == FindIn(o, t, x, init)
    decreases t
  {
    if t.data == x {
      return Found([]);
    }
    if t.children == [] {
      return Missing;
    }
    r := Scan(o, t.children, x, init);
  }

  /** The loop shared by `find` and `find_internal`. */
  method Scan<M>(o: Order, cs: seq<Tree<M>>, x: int, init: Search) returns (r: Search)
    ensures r == FindAmong(o, cs, x, init, 0, init)
    decreases cs, 1
  {
    r := init;
    var i: nat := 0;
    while i < |cs|
      invariant i <= |cs|
      invariant FindAmong(o, cs, x, init, i, r) == FindAmong(o, cs, x, init, 0, init)
    {
      if Comp(o, x, cs[i].data) {
        i := i + 1;
        continue;
      }
      var sub := FindInternal(o, cs[i], x, init);
      match sub
      case Found(p) =>
        return Found([i] + p);
      case Indeterminate =>
        return Indeterminate;
      case Missing =>
        r := Missing;
      i := i + 1;
    }
  }

  /** `find` proper. */
  method Find<M>(o: Order, L: seq<Tree<M>>, top: nat, x: int, init: Search) returns (r: Search)
    requires L != [] ==> top < |L|
    ensures r == FindRoots(o, L, top, x, init)
  {
    if L == [] || Comp(o, x, L[top].data) {
      return Missing;
    }
    r := Scan(o, L, x, init);
  }

  /** A pointer found points at a node holding `x`. */
  lemma {:induction false} FindInSound<M>(o: Order, t: Tree<M>, x: int, init: Search)
    requires !init.Found? && FindIn(o, t, x, init).Found?
    ensures InTree(t, FindIn(o, t, x, init).path) && Sub(t, FindIn(o, t, x, init).path).data == x
    decreases t, 1
  {
    if t.data != x {
      FindAmongSound(o, t.children, x, init, 0, init);
    }
  }

  lemma {:induction false} FindAmongSound<M>(o: Order, cs: seq<Tree<M>>, x: int, init: Search, i: nat, acc: Search)
    requires !init.Found?
    requires acc.Found? ==> acc.path != [] && acc.path[0] < |cs| && InTree(cs[acc.path[0]], acc.path[1..]) &&
                            Sub(cs[acc.path[0]], acc.path[1..]).data == x
    requires FindAmong(o, cs, x, init, i, acc).Found?
    ensures var p := FindAmong(o, cs, x, init, i, acc).path;
      p != [] && p[0] < |cs| && InTree(cs[p[0]], p[1..]) && Sub(cs[p[0]], p[1..]).data == x
    decreases cs, |cs| - i
  {
    if i < |cs| {
      if Comp(o, x, cs[i].data) {
        FindAmongSound(o, cs, x, init, i + 1, acc);
      } else {
        match FindIn(o, cs[i], x, init)
        case Found(p) =>
          FindInSound(o, cs[i], x, init);
          assert ([i] + p)[1..] == p;
        case Missing =>
          FindAmongSound(o, cs, x, init, i + 1, Missing);
        case Indeterminate =>
      }
    }
  }

  /** With the result variable initialised to null, the search always
      gives a definite answer. */
  lemma {:induction false} FindInDetermined<M>(o: Order, t: Tree<M>, x: int)
    ensures FindIn(o, t, x, Missing) != Indeterminate
    decreases t, 1
  {
    if t.data != x && t.children != [] {
      FindAmongDetermined(o, t.children, x, 0, Missing);
    }
  }

  lemma {:induction false} FindAmongDetermined<M>(o: Order, cs: seq<Tree<M>>, x: int, i: nat, acc: Search)
    requires acc != Indeterminate
    ensures FindAmong(o, cs, x, Missing, i, acc) != Indeterminate
    decreases cs, |cs| - i
  {
    if i < |cs| {
      if Comp(o, x, cs[i].data) {
        FindAmongDetermined(o, cs, x, i + 1, acc);
      } else {
        FindInDetermined(o, cs[i], x);
        if FindIn(o, cs[i], x, Missing).Missing? {
          FindAmongDetermined(o, cs, x, i + 1, Missing);
        }
      }
    }
  }

  /** Skipping subtrees whose root ranks below `x` loses nothing in a
      heap-ordered tree: a stored value is found. */
  lemma {:induction false} FindInComplete<M>(o: Order, t: Tree<M>, x: int)
    requires Forests.HeapOrdered(o, t) && x in Elems(t)
    ensures FindIn(o, t, x, Missing).Found?
    decreases t, 1
  {
    if t.data != x {
      ElemsRoot(t);
      FindAmongComplete(o, t.children, x, 0, Missing);
    }
  }

  lemma {:induction false} FindAmongComplete<M>(o: Order, cs: seq<Tree<M>>, x: int, i: nat, acc: Search)
    requires AllOrdered(o, cs) && i <= |cs| && x in ElemsOf(cs[i..]) && acc != Indeterminate
    ensures FindAmong(o, cs, x, Missing, i, acc).Found?
    decreases cs, |cs| - i
  {
    ElemsOfDrop(cs, i);
    assert Forests.HeapOrdered(o, cs[i]);
    if x in Elems(cs[i]) {
      RootFirst(o, cs[i], x);
      FindInComplete(o, cs[i], x);
    } else if Comp(o, x, cs[i].data) {
      FindAmongComplete(o, cs, x, i + 1, acc);
    } else {
      FindInDetermined(o, cs[i], x);
      if FindIn(o, cs[i], x, Missing).Missing? {
        FindAmongComplete(o, cs, x, i + 1, Missing);
      }
    }
  }

  lemma {:induction false} ElemsOfDrop<M>(cs: seq<Tree<M>>, i: nat)
    requires i <= |cs|
    ensures i == |cs| ==> ElemsOf(cs[i..]) == multiset{}
    ensures i < |cs| ==> ElemsOf(cs[i..]) == Elems(cs[i]) + ElemsOf(cs[i + 1..])
  {
    if i < |cs| {
      assert cs[i..][1..] == cs[i + 1..];
    }
  }

  /** `find` over heap-ordered roots with the top chosen by `update_top`
      and a result variable initialised to null: it finds `x` exactly when
      `x` is stored, and what it finds holds `x`. */
  lemma {:induction false} FindRootsExact<M>(o: Order, L: seq<Tree<M>>, top: nat, x: int)
    requires AllOrdered(o, L) && (L != [] ==> Best(o, L, top))
    ensures FindRoots(o, L, top, x, Missing).Found? <==> x in ElemsOf(L)
    ensures FindRoots(o, L, top, x, Missing).Missing? <==> x !in ElemsOf(L)
    ensures FindRoots(o, L, top, x, Missing).Found? ==>
      var p := FindRoots(o, L, top, x, Missing).path;
      p != [] && p[0] < |L| && InTree(L[p[0]], p[1..]) && Sub(L[p[0]], p[1..]).data == x
  {
    if L == [] {
      return;
    }
    var r := FindRoots(o, L, top, x, Missing);
    if x in ElemsOf(L) {
      BestFirst(o, L, top, x);
      assert L[0..] == L;
      FindAmongComplete(o, L, x, 0, Missing);
    } else if !Comp(o, x, L[top].data) {
      FindAmongDetermined(o, L, x, 0, Missing);
    }
    if r.Found? {
      FindAmongSound(o, L, x, Missing, 0, Missing);
      ElemsSubIn(L[r.path[0]], r.path[1..]);
      ElemsOfCovers(L, r.path[0]);
    }
  }

  /** Whatever `find` finds holds `x`, heap-ordered or not: the search
      may miss a stored `x` below a root that ranks under it, but never
      reports a node that does not hold `x`. */
  lemma {:induction false} FindRootsSound<M>(o: Order, L: seq<Tree<M>>, top: nat, x: int)
    requires L != [] ==> top < |L|
    ensures var r := FindRoots(o, L, top, x, Missing);
      r.Found? ==>
        r.path != [] && r.path[0] < |L| && InTree(L[r.path[0]], r.path[1..]) &&
        Sub(L[r.path[0]], r.path[1..]).data == x && x in ElemsOf(L)
  {
    var r := FindRoots(o, L, top, x, Missing);
    if r.Found? {
      FindAmongSound(o, L, x, Missing, 0, Missing);
      ElemsSubIn(L[r.path[0]], r.path[1..]);
      ElemsOfCovers(L, r.path[0]);
    }
  }

  /** When the uninitialised result variable is never read, `find` returns
      what it returns with the variable initialised to null. */
  lemma {:induction false} FindRootsAgree<M>(o: Order, L: seq<Tree<M>>, top: nat, x: int)
    requires L != [] ==> top < |L|
    requires FindRoots(o, L, top, x, Indeterminate) != Indeterminate
    ensures FindRoots(o, L, top, x, Indeterminate) == FindRoots(o, L, top, x, Missing)
  {
    if L != [] && !Comp(o, x, L[top].data) {
      FindAmongAgree(o, L, x, 0, Indeterminate, Missing);
    }
  }

  lemma {:induction false} FindInAgree<M>(o: Order, t: Tree<M>, x: int)
    requires FindIn(o, t, x, Indeterminate) != Indeterminate
    ensures FindIn(o, t, x, Indeterminate) == FindIn(o, t, x, Missing)
    decreases t, 1
  {
    if t.data != x && t.children != [] {
      FindAmongAgree(o, t.children, x, 0, Indeterminate, Missing);
    }
  }

  lemma {:induction false} FindAmongAgree<M>(o: Order, cs: seq<Tree<M>>, x: int, i: nat, a: Search, b: Search)
    requires a == b || (a == Indeterminate && b == Missing)
    requires FindAmong(o, cs, x, Indeterminate, i, a) != Indeterminate
    ensures FindAmong(o, cs, x, Indeterminate, i, a) == FindAmong(o, cs, x, Missing, i, b)
    decreases cs, |cs| - i
  {
    if i < |cs| {
      if Comp(o, x, cs[i].data) {
        FindAmongAgree(o, cs, x, i + 1, a, b);
      } else {
        FindInAgree(o, cs[i], x);
        if FindIn(o, cs[i], x, Indeterminate).Missing? {
          FindAmongAgree(o, cs, x, i + 1, Missing, Missing);
        }
      }
    }
  }

  /** The top depends on the roots' values only. */
  lemma {:induction false} SameRootValues<M>(o: Order, L: seq<Tree<M>>, R: seq<Tree<M>>, a: nat)
    requires |L| == |R| && forall k :: 0 <= k < |L| ==> R[k].data == L[k].data
    requires FirstBest(o, L, a)
    ensures FirstBest(o, R, a)
  {
  }

  /** `modi(top, 1)` ranks above everything stored in ordered trees. */
  lemma {:induction false} SentinelAbove<M>(o: Order, L: seq<Tree<M>>, k: nat, s: int)
    requires AllOrdered(o, L) && Best(o, L, k) && Comp(o, s, L[k].data)
    ensures forall y :: y in ElemsOf(L) ==> Comp(o, s, y)
  {
    forall y | y in ElemsOf(L)
      ensures Comp(o, s, y)
    {
      BestFirst(o, L, k, y);
    }
  }

  /** `modi(top, 1)` ranks above every root, whether or not the trees
      below the roots are heap-ordered. */
  lemma {:induction false} SentinelOverRoots<M>(o: Order, L: seq<Tree<M>>, k: nat, s: int)
    requires Best(o, L, k) && Comp(o, s, L[k].data)
    ensures forall p :: 0 <= p < |L| ==> Comp(o, s, L[p].data)
  {
  }

  /** A root whose value ranks above everything stored before it replaced
      root `i` is the one top. */
  lemma {:induction false} SentinelRoot<M>(o: Order, L: seq<Tree<M>>, i: nat, u: Tree<M>, R: seq<Tree<M>>)
    requires i < |L| && R == L[i := u]
    requires forall y :: y in ElemsOf(L) ==> Comp(o, u.data, y)
    ensures FirstBest(o, R, i)
    ensures forall k :: FirstBest(o, R, k) ==> k == i
  {
    forall p | 0 <= p < |L| && p != i
      ensures Comp(o, u.data, L[p].data)
    {
      ElemsOfCovers(L, p);
      ElemsRoot(L[p]);
    }
    StrictBest(o, R, i);
    forall k | FirstBest(o, R, k)
      ensures k == i
    {
      FirstBestUnique(o, R, k, i);
    }
  }

  /** A node's value is stored in every tree it belongs to. */
  lemma {:induction false} ElemsSubIn<M>(t: Tree<M>, p: seq<nat>)
    requires InTree(t, p)
    ensures Sub(t, p).data in Elems(t)
    decreases |p|
  {
    ElemsRoot(t);
    if p != [] {
      ElemsSubIn(t.children[p[0]], p[1..]);
      ElemsOfCovers(t.children, p[0]);
    }
  }

  /** A max-heap root list: 10 with the single child 5, then 7.  It is
      heap-ordered, 10 is its top and 7 is stored. */
  function SkippedRoots(): (L: seq<Tree<()>>)
    ensures AllOrdered(Greater, L) && Best(Greater, L, 0) && 7 in ElemsOf(L)
  {
    var c := Node(5, 0, true, (), []);
    var a := Node(10, 1, false, (), [c]);
    var b := Node(7, 0, false, (), []);
    assert Forests.HeapOrdered(Greater, c) && Forests.HeapOrdered(Greater, a) && Forests.HeapOrdered(Greater, b);
    ElemsOfAppend([a], [b]);
    ElemsOfOne(b);
    ElemsRoot(b);
    [a, b]
  }

  /** BinomialHeap's `find`, whose result variable starts uninitialised:
      searching the roots above for the stored 7 enters the first root,
      skips its only child 5 and hands back the uninitialised pointer
      before reaching the root 7.  Initialised to null, it finds 7. */
  lemma {:induction false} UninitialisedFind()
    ensures FindRoots(Greater, SkippedRoots(), 0, 7, Indeterminate) == Indeterminate
    ensures FindRoots(Greater, SkippedRoots(), 0, 7, Missing) == Found([1])
  {
    var L := SkippedRoots();
    var c := L[0].children[0];
    assert FindAmong(Greater, [c], 7, Indeterminate, 1, Indeterminate) == Indeterminate;
    assert FindIn(Greater, L[0], 7, Indeterminate) == Indeterminate;
    assert FindAmong(Greater, [c], 7, Missing, 1, Missing) == Missing;
    assert FindIn(Greater, L[0], 7, Missing) == Missing;
    assert FindIn(Greater, L[1], 7, Missing) == Found([]);
  }
}
