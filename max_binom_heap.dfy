/** The binomial heap `MaxBinomHeap<int>` of include/MaxBinomHeap.hpp.  Its
    roots live in a `std::multiset` keyed by degree, which iterates them
    smallest degree first and puts a new root after the roots of its own
    degree; the iterator `m_max` names the root holding the maximum.  There
    is no size counter.  `merge` links the first two roots while their
    degrees agree and stops at the first pair that differs.

    The class is the heap as evidently intended: a root whose degree grows
    in `basic_merge` is taken out of the multiset and put back, and `add`
    chooses `m_max` after `merge`.  `MergeAsWritten` and
    `MaxBinomHeap.AddAsWritten` model the code as it stands. */
module MaxBinomHeaps {
  import opened Common
  import opened BinaryHeaps
  import opened Forests
  import opened TreePaths
  import opened RootLists
  import BinomialHeaps
  import ArrayHeaps

  /** `m_max`: an iterator to the root at a position, `end()`, or an
      iterator whose root `merge` has erased. */
  datatype Iter = End | At(pos: nat) | Dangling

  /** The roots: consistent degree fields and parent pointers, binomial
      trees, no parent pointer at a root, in the multiset's order. */
  ghost predicate Roots(L: seq<Tree<()>>)
  {
    AllWf(L) && AllBinomial(L) && AllFree(L) && DegreeSorted(L)
  }

  /** A heap: heap-ordered trees and `m_max` on the first root holding the
      maximum (`end()` when there are no roots). */
  ghost predicate Heap(L: seq<Tree<()>>, it: Iter)
  {
    Roots(L) && AllOrdered(Greater, L) && !it.Dangling? && (it.End? <==> L == []) &&
    (it.At? ==> FirstBest(Greater, L, it.pos))
  }

  /** Where `insert` puts a root of degree `d`: after every root whose
      degree is not greater, that is at the end of the roots of degree `d`. */
  function Slot(L: seq<Tree<()>>, d: nat): (k: nat)
    ensures k <= |L|
    ensures forall i :: 0 <= i < k ==> L[i].degree <= d
    ensures k < |L| ==> d < L[k].degree
  {
    if L == [] || d < L[0].degree then 0 else 1 + Slot(L[1..], d)
  }

  /** `m_roots.insert(t)`. */
  function Insert(L: seq<Tree<()>>, t: Tree<()>): (R: seq<Tree<()>>)
    ensures |R| == |L| + 1
  {
    var k := Slot(L, t.degree);
    L[..k] + [t] + L[k..]
  }

  /** Positions after an insertion at `k`. */
  lemma {:induction false} InsertIndex(L: seq<Tree<()>>, t: Tree<()>, k: nat)
    requires k == Slot(L, t.degree)
    ensures forall i :: 0 <= i < |Insert(L, t)| ==>
      Insert(L, t)[i] == (if i < k then L[i] else if i == k then t else L[i - 1])
  {
  }

  /** Inserting adds the tree's values and keeps the multiset's order and
      the shape of the roots. */
  lemma {:induction false} Inserted(o: Order, L: seq<Tree<()>>, t: Tree<()>)
    ensures ElemsOf(Insert(L, t)) == ElemsOf(L) + Elems(t)
    ensures DegreeSorted(L) ==> DegreeSorted(Insert(L, t))
    ensures AllWf(L) && Wf(t) ==> AllWf(Insert(L, t))
    ensures AllBinomial(L) && Binomial(t) ==> AllBinomial(Insert(L, t))
    ensures AllFree(L) && !t.parented ==> AllFree(Insert(L, t))
    ensures AllOrdered(o, L) && Forests.HeapOrdered(o, t) ==> AllOrdered(o, Insert(L, t))
  {
    InsertedElems(L, t);
    if DegreeSorted(L) {
      InsertedSorted(L, t);
    }
    InsertedShape(L, t);
    InsertedOrdered(o, L, t);
  }

  lemma {:induction false} InsertedElems(L: seq<Tree<()>>, t: Tree<()>)
    ensures ElemsOf(Insert(L, t)) == ElemsOf(L) + Elems(t)
  {
    var k := Slot(L, t.degree);
    assert L == L[..k] + L[k..];
    ElemsOfAppend(L[..k] + [t], L[k..]);
    ElemsOfAppend(L[..k], [t]);
    ElemsOfAppend(L[..k], L[k..]);
    ElemsOfOne(t);
  }

  lemma {:induction false} InsertedSorted(L: seq<Tree<()>>, t: Tree<()>)
    requires DegreeSorted(L)
    ensures DegreeSorted(Insert(L, t))
  {
    var k := Slot(L, t.degree);
    var R := Insert(L, t);
    InsertIndex(L, t, k);
    forall p, q | 0 <= p < q < |R|
      ensures R[p].degree <= R[q].degree
    {
      if p == k {
        assert L[k].degree <= L[q - 1].degree;
      }
    }
  }

  lemma {:induction false} InsertedShape(L: seq<Tree<()>>, t: Tree<()>)
    ensures AllWf(L) && Wf(t) ==> AllWf(Insert(L, t))
    ensures AllBinomial(L) && Binomial(t) ==> AllBinomial(Insert(L, t))
    ensures AllFree(L) && !t.parented ==> AllFree(Insert(L, t))
  {
    var k := Slot(L, t.degree);
    var R := Insert(L, t);
    InsertIndex(L, t, k);
    if AllWf(L) && Wf(t) {
      assert AllWf(R) by {
        forall i | 0 <= i < |R|
          ensures Wf(R[i])
        {
          if i < k {
            assert R[i] == L[i];
          } else if i > k {
            assert R[i] == L[i - 1];
          }
        }
      }
    }
    if AllBinomial(L) && Binomial(t) {
      assert AllBinomial(R) by {
        forall i | 0 <= i < |R|
          ensures Binomial(R[i])
        {
          if i < k {
            assert R[i] == L[i];
          } else if i > k {
            assert R[i] == L[i - 1];
          }
        }
      }
    }
    if AllFree(L) && !t.parented {
      assert AllFree(R) by {
        forall i | 0 <= i < |R|
          ensures !R[i].parented
        {
          if i < k {
            assert R[i] == L[i];
          } else if i > k {
            assert R[i] == L[i - 1];
          }
        }
      }
    }
  }

  lemma {:induction false} InsertedOrdered(o: Order, L: seq<Tree<()>>, t: Tree<()>)
    ensures AllOrdered(o, L) && Forests.HeapOrdered(o, t) ==> AllOrdered(o, Insert(L, t))
  {
    var k := Slot(L, t.degree);
    var R := Insert(L, t);
    InsertIndex(L, t, k);
    if AllOrdered(o, L) && Forests.HeapOrdered(o, t) {
      forall i | 0 <= i < |R|
        ensures Forests.HeapOrdered(o, R[i])
      {
        if i < k {
          assert R[i] == L[i];
        } else if i > k {
          assert R[i] == L[i - 1];
        }
      }
    }
  }

  /** The first two roots apart from the others. */
  lemma {:induction false} FrontTwo(L: seq<Tree<()>>)
    requires |L| >= 2
    ensures ElemsOf(L) == Elems(L[0]) + Elems(L[1]) + ElemsOf(L[2..])
    ensures AllWf(L) ==> Wf(L[0]) && Wf(L[1]) && AllWf(L[2..])
    ensures AllBinomial(L) ==> Binomial(L[0]) && Binomial(L[1]) && AllBinomial(L[2..])
    ensures AllFree(L) ==> !L[0].parented && !L[1].parented && AllFree(L[2..])
    ensures AllOrdered(Greater, L) ==>
      Forests.HeapOrdered(Greater, L[0]) && Forests.HeapOrdered(Greater, L[1]) && AllOrdered(Greater, L[2..])
    ensures DegreeSorted(L) ==> DegreeSorted(L[2..])
  {
    assert ElemsOf(L) == Elems(L[0]) + Elems(L[1]) + ElemsOf(L[2..]) by {
      assert L[0..] == L;
      ElemsFrom(L, 0);
      ElemsFrom(L, 1);
    }
    var T := L[2..];
    assert forall i :: 0 <= i < |T| ==> T[i] == L[i + 2];
    if AllWf(L) {
      assert AllWf(T) by {
        forall i | 0 <= i < |T|
          ensures Wf(T[i])
        {
          assert T[i] == L[i + 2];
        }
      }
    }
    if AllBinomial(L) {
      assert AllBinomial(T) by {
        forall i | 0 <= i < |T|
          ensures Binomial(T[i])
        {
          assert T[i] == L[i + 2];
        }
      }
    }
    if AllFree(L) {
      assert AllFree(T) by {
        forall i | 0 <= i < |T|
          ensures !T[i].parented
        {
          assert T[i] == L[i + 2];
        }
      }
    }
    if AllOrdered(Greater, L) {
      assert AllOrdered(Greater, T) by {
        forall i | 0 <= i < |T|
          ensures Forests.HeapOrdered(Greater, T[i])
        {
          assert T[i] == L[i + 2];
        }
      }
    }
    if DegreeSorted(L) {
      assert DegreeSorted(T) by {
        forall p, q | 0 <= p < q < |T|
          ensures T[p].degree <= T[q].degree
        {
          assert T[p] == L[p + 2] && T[q] == L[q + 2];
        }
      }
    }
  }

  /** Positions of a suffix. */
  lemma {:induction false} Rest<T>(L: seq<T>, n: nat)
    requires n <= |L|
    ensures forall i :: 0 <= i < |L| - n ==> L[n..][i] == L[i + n]
  {
  }

  /** A linked tree in front of the others. */
  lemma {:induction false} LinkedFirst(L: seq<Tree<()>>, R: seq<Tree<()>>)
    requires |L| >= 2 && L[0].degree == L[1].degree
    requires R == [Link(Greater, L[0], L[1])] + L[2..]
    requires AllWf(L) && AllBinomial(L) && AllFree(L)
    ensures AllWf(R) && AllBinomial(R) && AllFree(R) && ElemsOf(R) == ElemsOf(L)
    ensures AllOrdered(Greater, L) ==> AllOrdered(Greater, R)
  {
    FrontTwo(L);
    assert R[1..] == L[2..];
  }

  /** `merge` as evidently intended: while the first two roots have the
      same degree they are linked, and the tree that grew is taken out of
      the multiset and put back where its new degree belongs. */
  function Merged(L: seq<Tree<()>>): (R: seq<Tree<()>>)
    decreases |L|
  {
    if |L| >= 2 && L[0].degree == L[1].degree then Merged(Insert(L[2..], Link(Greater, L[0], L[1]))) else L
  }

  /** Merging keeps the values, the shape, the multiset's order and heap
      order, and leaves the first two roots of different degrees. */
  lemma {:induction false} MergedKeeps(L: seq<Tree<()>>)
    requires Roots(L)
    ensures Roots(Merged(L)) && ElemsOf(Merged(L)) == ElemsOf(L)
    ensures AllOrdered(Greater, L) ==> AllOrdered(Greater, Merged(L))
    ensures |Merged(L)| < 2 || Merged(L)[0].degree < Merged(L)[1].degree
    decreases |L|
  {
    if |L| >= 2 && L[0].degree == L[1].degree {
      LinkStep(L);
      MergedKeeps(Insert(L[2..], Link(Greater, L[0], L[1])));
    }
  }

  /** One link of the corrected `merge` keeps the values, the shape, the
      multiset's order and heap order. */
  lemma {:induction false} LinkStep(L: seq<Tree<()>>)
    requires Roots(L) && |L| >= 2 && L[0].degree == L[1].degree
    ensures var R := Insert(L[2..], Link(Greater, L[0], L[1]));
      Roots(R) && ElemsOf(R) == ElemsOf(L) && (AllOrdered(Greater, L) ==> AllOrdered(Greater, R))
  {
    var u := Link(Greater, L[0], L[1]);
    FrontTwo(L);
    Inserted(Greater, L[2..], u);
  }

  /** `basic_merge` on the first two roots leaves the tree that grew in
      front of the others. */
  lemma {:induction false} LinkedFront(R: seq<Tree<()>>, R1: seq<Tree<()>>, e: nat)
    requires |R| >= 2 && e <= 1 && ErasedBut(R, R1, e, 1 - e)
    requires R1[0] == Link(Greater, R[0], R[1])
    ensures R1 == [Link(Greater, R[0], R[1])] + R[2..]
  {
    forall q | 1 <= q < |R1|
      ensures R1[q] == R[q + 1]
    {
      assert R1[Moved(q + 1, e)] == R[q + 1];
    }
  }

  /** The loop of `merge`, with the tree that grew put back in its place. */
  method Merge(L: seq<Tree<()>>) returns (R: seq<Tree<()>>)
    ensures R == Merged(L)
  {
    R := L;
    while |R| >= 2
      invariant Merged(R) == Merged(L)
      decreases |R|
    {
      if R[0].degree != R[1].degree {
        return;
      }
      var R1, w, e := BasicMerge(Greater, R, 0, 1);
      LinkedFront(R, R1, e);
      R := Insert(R1[1..], R1[0]);
    }
  }

  /** Where `m_max` points once `basic_merge` has erased the root at
      position `e` of the first two. */
  function Track(it: Iter, e: nat): Iter
  {
    if it.At? && it.pos == e then Dangling
    else if it.At? then At(Moved(it.pos, e))
    else it
  }

  /** `merge` as written: the root that wins a link stays where it was in
      the multiset with its degree raised, and an iterator to the root that
      lost dangles. */
  function MergedAsWritten(L: seq<Tree<()>>, it: Iter): (seq<Tree<()>>, Iter)
    decreases |L|
  {
    if |L| >= 2 && L[0].degree == L[1].degree then
      var e := if Comp(Greater, L[0].data, L[1].data) then 1 else 0;
      MergedAsWritten([Link(Greater, L[0], L[1])] + L[2..], Track(it, e))
    else (L, it)
  }

  /** The loop of `merge` as written, carrying the iterator `m_max`. */
  method MergeAsWritten(L: seq<Tree<()>>, it: Iter) returns (R: seq<Tree<()>>, it': Iter)
    ensures (R, it') == MergedAsWritten(L, it)
  {
    R, it' := L, it;
    while |R| >= 2
      invariant MergedAsWritten(R, it') == MergedAsWritten(L, it)
      decreases |R|
    {
      if R[0].degree != R[1].degree {
        return;
      }
      var R1, w, e := BasicMerge(Greater, R, 0, 1);
      LinkedFront(R, R1, e);
      R, it' := R1, Track(it', e);
    }
  }

  /** The code as written keeps the values, the shape and heap order, but
      not the multiset's order. */
  lemma {:induction false} MergedAsWrittenKeeps(L: seq<Tree<()>>, it: Iter)
    requires AllWf(L) && AllBinomial(L) && AllFree(L)
    ensures var R := MergedAsWritten(L, it).0;
      AllWf(R) && AllBinomial(R) && AllFree(R) && ElemsOf(R) == ElemsOf(L) &&
      (AllOrdered(Greater, L) ==> AllOrdered(Greater, R))
    decreases |L|
  {
    if |L| >= 2 && L[0].degree == L[1].degree {
      var e := if Comp(Greater, L[0].data, L[1].data) then 1 else 0;
      var R := [Link(Greater, L[0], L[1])] + L[2..];
      LinkedFirst(L, R);
      MergedAsWrittenKeeps(R, Track(it, e));
    }
  }

  /** An iterator to the first root holding the maximum either still names
      a root holding the maximum after `merge` as written, or dangles; it
      dangles only when a second root also holds the maximum. */
  lemma {:induction false} MergedAsWrittenTop(L: seq<Tree<()>>, k: nat)
    requires AllOrdered(Greater, L) && FirstBest(Greater, L, k)
    ensures !MergedAsWritten(L, At(k)).1.End?
    ensures MergedAsWritten(L, At(k)).1.At? ==>
      var R := MergedAsWritten(L, At(k)).0; var j := MergedAsWritten(L, At(k)).1.pos;
      FirstBest(Greater, R, j) && R[j].data == L[k].data
    ensures MergedAsWritten(L, At(k)).1.Dangling? ==> ElemsOf(L)[L[k].data] >= 2
    decreases |L|
  {
    if |L| >= 2 && L[0].degree == L[1].degree {
      var e := if Comp(Greater, L[0].data, L[1].data) then 1 else 0;
      var R := [Link(Greater, L[0], L[1])] + L[2..];
      assert MergedAsWritten(L, At(k)) == MergedAsWritten(R, Track(At(k), e));
      if k == e {
        LostTop(L, k);
        assert MergedAsWritten(R, Dangling).1 == Dangling by {
          MergedAsWrittenDangles(R);
        }
      } else {
        WonTop(L, k, e, R);
        MergedAsWrittenTop(R, Moved(k, e));
      }
    }
  }

  /** The first root holding the maximum loses a link only to a root
      holding the same value. */
  lemma {:induction false} LostTop(L: seq<Tree<()>>, k: nat)
    requires |L| >= 2 && FirstBest(Greater, L, k)
    requires k == (if Comp(Greater, L[0].data, L[1].data) then 1 else 0)
    ensures ElemsOf(L)[L[k].data] >= 2
  {
    assert k == 0 && L[1].data == L[0].data;
    ElemsOfTwo(L, 0, 1);
  }

  /** A dangling iterator stays dangling. */
  lemma {:induction false} MergedAsWrittenDangles(L: seq<Tree<()>>)
    ensures MergedAsWritten(L, Dangling).1 == Dangling
    decreases |L|
  {
    if |L| >= 2 && L[0].degree == L[1].degree {
      MergedAsWrittenDangles([Link(Greater, L[0], L[1])] + L[2..]);
    }
  }

  /** The first root holding the maximum wins its link, or is not linked,
      and is still first once the link is in front. */
  lemma {:induction false} WonTop(L: seq<Tree<()>>, k: nat, e: nat, R: seq<Tree<()>>)
    requires |L| >= 2 && AllOrdered(Greater, L) && FirstBest(Greater, L, k)
    requires e == (if Comp(Greater, L[0].data, L[1].data) then 1 else 0) && k != e
    requires R == [Link(Greater, L[0], L[1])] + L[2..]
    ensures AllOrdered(Greater, R) && FirstBest(Greater, R, Moved(k, e)) && R[Moved(k, e)].data == L[k].data
  {
    var u := Link(Greater, L[0], L[1]);
    assert u.data == (if e == 1 then L[0].data else L[1].data);
    assert forall i :: 1 <= i < |R| ==> R[i] == L[i + 1];
    assert AllOrdered(Greater, R) by {
      forall i | 0 <= i < |R|
        ensures Forests.HeapOrdered(Greater, R[i])
      {
        if i == 0 {
          assert Forests.HeapOrdered(Greater, L[0]) && Forests.HeapOrdered(Greater, L[1]);
        } else {
          assert R[i] == L[i + 1];
        }
      }
    }
    if k < 2 {
      assert Moved(k, e) == 0 && R[0].data == L[k].data;
      assert FirstBest(Greater, R, 0) by {
        forall p | 0 <= p < |R|
          ensures !Comp(Greater, R[p].data, R[0].data)
        {
          if p > 0 {
            assert R[p] == L[p + 1];
          }
        }
      }
    } else {
      assert Moved(k, e) == k - 1 && R[k - 1] == L[k];
      assert FirstBest(Greater, R, k - 1) by {
        forall p | 0 <= p < |R|
          ensures !Comp(Greater, R[p].data, R[k - 1].data)
        {
          if p > 0 {
            assert R[p] == L[p + 1];
          }
        }
        forall p | 0 <= p < k - 1
          ensures Comp(Greater, R[k - 1].data, R[p].data)
        {
          if p > 0 {
            assert R[p] == L[p + 1];
          }
        }
      }
    }
  }

  /** Two different roots hold their values side by side. */
  lemma {:induction false} ElemsOfTwo(f: seq<Tree<()>>, a: nat, b: nat)
    requires a < |f| && b < |f| && a != b
    ensures ElemsOf(f)[f[a].data] >= (if f[a].data == f[b].data then 2 else 1)
  {
    ElemsOfErase(f, a);
    var c := if b < a then b else b - 1;
    assert Erase(f, a)[c] == f[b];
    ElemsOfCovers(Erase(f, a), c);
    ElemsRoot(f[a]);
    ElemsRoot(f[b]);
  }

  /** Part way through the loop of `removeTop`: the children of root `k`
      from position `n` on have had their parent pointers cleared and been
      inserted, and root `k` now sits at `top`.  Its degree field is not
      touched by the loop and exceeds every child's, so each child goes in
      before it. */
  ghost predicate Rerooting(L: seq<Tree<()>>, k: nat, n: nat, top: nat, R: seq<Tree<()>>)
  {
    k < |L| && n <= |L[k].children| && top < |R| && R[top] == L[k] && Roots(R) &&
    (AllOrdered(Greater, L) ==> AllOrdered(Greater, R)) &&
    ElemsOf(R) == ElemsOf(L) + ElemsOf(L[k].children[n..])
  }

  /** One turn of the loop: the last child not yet moved joins the roots. */
  lemma {:induction false} RerootStep(L: seq<Tree<()>>, k: nat, n: nat, top: nat, R: seq<Tree<()>>)
    requires Roots(L) && Rerooting(L, k, n, top, R) && 0 < n
    ensures Slot(R, L[k].children[n - 1].degree) <= top
    ensures Rerooting(L, k, n - 1, top + 1, Insert(R, L[k].children[n - 1].(parented := false)))
  {
    var c := L[k].children[n - 1];
    var t := c.(parented := false);
    var R' := Insert(R, t);
    Orphan(L, k, n);
    InsertIndex(R, t, Slot(R, t.degree));
    assert R'[top + 1] == L[k];
    Inserted(Greater, R, t);
    assert Roots(R');
    assert ElemsOf(R') == ElemsOf(L) + ElemsOf(L[k].children[n - 1..]) by {
      ElemsFrom(L[k].children, n - 1);
    }
  }

  /** Child `n - 1` of root `k` with its parent pointer cleared is a
      binomial root of smaller degree than `k`'s, holding the same values. */
  lemma {:induction false} Orphan(L: seq<Tree<()>>, k: nat, n: nat)
    requires Roots(L) && k < |L| && 0 < n <= |L[k].children|
    ensures var t := L[k].children[n - 1].(parented := false);
      Wf(t) && Binomial(t) && !t.parented && t.degree < L[k].degree && Elems(t) == Elems(L[k].children[n - 1]) &&
      (AllOrdered(Greater, L) ==> Forests.HeapOrdered(Greater, t))
  {
    var c := L[k].children[n - 1];
    var t := c.(parented := false);
    assert Wf(L[k]) && Binomial(L[k]);
    assert Wf(c) && Binomial(c) && c.degree == |L[k].children| - n;
    assert t.children == c.children;
    ElemsRoot(t);
    ElemsRoot(c);
    if AllOrdered(Greater, L) {
      assert Forests.HeapOrdered(Greater, L[k]);
      assert Forests.HeapOrdered(Greater, c);
    }
  }

  /** The values of a suffix of a list of trees. */
  lemma {:induction false} ElemsFrom(cs: seq<Tree<()>>, i: nat)
    requires i < |cs|
    ensures ElemsOf(cs[i..]) == Elems(cs[i]) + ElemsOf(cs[i + 1..])
  {
    assert cs[i..][1..] == cs[i + 1..];
  }

  /** Once every child has moved, erasing root `k` leaves the other values. */
  lemma {:induction false} RerootDone(L: seq<Tree<()>>, k: nat, top: nat, R: seq<Tree<()>>)
    requires Rerooting(L, k, 0, top, R)
    ensures Roots(Erase(R, top))
    ensures AllOrdered(Greater, L) ==> AllOrdered(Greater, Erase(R, top))
    ensures ElemsOf(Erase(R, top)) == ElemsOf(L) - multiset{L[k].data}
    ensures |ElemsOf(Erase(R, top))| + 1 == |ElemsOf(L)|
  {
    ErasedRoots(R, top);
    ElemsOfErase(R, top);
    ElemsRoot(L[k]);
    assert L[k].children[0..] == L[k].children;
    Unpaid(ElemsOf(Erase(R, top)), ElemsOf(L), ElemsOf(L[k].children), L[k].data);
  }

  /** Erasing a root keeps the shape, the multiset's order and heap order. */
  lemma {:induction false} ErasedRoots(R: seq<Tree<()>>, top: nat)
    requires Roots(R) && top < |R|
    ensures Roots(Erase(R, top))
    ensures AllOrdered(Greater, R) ==> AllOrdered(Greater, Erase(R, top))
  {
    var E := Erase(R, top);
    assert forall p :: 0 <= p < |E| ==> E[p] == R[if p < top then p else p + 1];
    assert DegreeSorted(E) by {
      forall p, q | 0 <= p < q < |E|
        ensures E[p].degree <= E[q].degree
      {
        assert E[p] == R[if p < top then p else p + 1];
        assert E[q] == R[if q < top then q else q + 1];
      }
    }
  }

  /** Multiset arithmetic for `RerootDone`. */
  lemma {:induction false} Unpaid(e: multiset<int>, l: multiset<int>, c: multiset<int>, d: int)
    requires e + (multiset{d} + c) == l + c
    ensures e == l - multiset{d} && |e| + 1 == |l|
  {
    forall z
      ensures (e + multiset{d})[z] == l[z]
    {
      assert (e + (multiset{d} + c))[z] == (l + c)[z];
    }
    assert e + multiset{d} == l;
  }

  /** The loop of `removeTop`: the children of root `k` are taken from the
      back, their parent pointers cleared, and inserted into the roots;
      then root `k` is erased.  (The node's own child list shrinks as it
      goes; only its degree field, which stays, places the children.) */
  method Reroot(L: seq<Tree<()>>, k: nat) returns (R: seq<Tree<()>>)
    requires Roots(L) && k < |L|
    ensures Roots(R) && ElemsOf(R) == ElemsOf(L) - multiset{L[k].data}
    ensures |ElemsOf(R)| + 1 == |ElemsOf(L)|
    ensures AllOrdered(Greater, L) ==> AllOrdered(Greater, R)
  {
    var n := |L[k].children|;
    var top := k;
    R := L;
    assert L[k].children[n..] == [];
    while n > 0
      invariant Rerooting(L, k, n, top, R)
      decreases n
    {
      RerootStep(L, k, n, top, R);
      R := Insert(R, L[k].children[n - 1].(parented := false));
      top, n := top + 1, n - 1;
    }
    RerootDone(L, k, top, R);
    R := Erase(R, top);
  }

  /** `updateMax` as an iterator. */
  method FindMax(L: seq<Tree<()>>) returns (it: Iter)
    ensures !it.Dangling? && (it.End? <==> L == [])
    ensures it.At? ==> FirstBest(Greater, L, it.pos)
  {
    var top := UpdateTop(Greater, L);
    it := if top.Some? then At(top.value) else End;
  }

  /** `removeTop` on roots `L` with `m_max` at `it`: the maximum goes and
      the heap stays a heap; nothing happens to an empty heap. */
  method Pop(L: seq<Tree<()>>, it: Iter) returns (L': seq<Tree<()>>, it': Iter)
    requires Heap(L, it)
    ensures Heap(L', it')
    ensures L == [] ==> L' == [] && it' == it
    ensures L != [] ==> ElemsOf(L') == ElemsOf(L) - multiset{L[it.pos].data}
    ensures L != [] ==> |ElemsOf(L')| + 1 == |ElemsOf(L)|
  {
    if L == [] {
      return L, it;
    }
    var R := Reroot(L, it.pos);
    MergedKeeps(R);
    L' := Merge(R);
    it' := FindMax(L');
  }

  /** Where `find` starts: `m_max`'s position. */
  function Index(it: Iter): nat
  {
    if it.At? then it.pos else 0
  }

  /** The middle of `remove`: the node holding `x`, at path `q` below root
      `i`, gets the sentinel `max + 1`.  A root becomes `m_max` directly;
      otherwise `increaseKey` carries it to its root and `updateMax` finds
      it there. */
  method Plant(L: seq<Tree<()>>, it: Iter, i: nat, q: seq<nat>, x: int, s: int)
    returns (L': seq<Tree<()>>, it': Iter)
    requires Heap(L, it) && it.At? && i < |L| && InTree(L[i], q) && Sub(L[i], q).data == x
    requires s == L[it.pos].data + 1
    ensures Heap(L', it') && it'.At? && L'[it'.pos].data == s
    ensures ElemsOf(L') + multiset{x} == ElemsOf(L) + multiset{s}
    ensures |ElemsOf(L')| == |ElemsOf(L)|
  {
    SentinelAbove(Greater, L, it.pos, s);
    SubKeeps(Greater, L[i], q);
    if !Sub(L[i], q).parented {
      assert q == [];
      var u := L[i].(data := s);
      L' := L[i := u];
      SentinelRoot(Greater, L, i, u, L');
      BinomialHeaps.Overwritten(Greater, L, i, u, L', x, s);
      it' := At(i);
    } else {
      var t0 := SetData(L[i], q, s);
      SetDataRaised(L[i], q, s, s);
      BinomialHeaps.ClimbsToRoot(Greater, L, i, q, s);
      var t, m := Bubble(Greater, WhileAbove, t0, q);
      InTreePrefix(t0, q, m);
      assert m == 0;
      L' := L[i := t];
      BinomialHeaps.PushedDown(Greater, L, i, q, s, L');
      SentinelRoot(Greater, L, i, t, L');
      it' := FindMax(L');
    }
  }

  /** `remove(x)` on roots `L`: the sentinel replaces the first copy of `x`
      that `find` reaches and `removeTop` removes it.  One copy of `x` goes,
      and nothing changes when `x` is absent. */
  method Delete(L: seq<Tree<()>>, it: Iter, x: int) returns (L': seq<Tree<()>>, it': Iter)
    requires Heap(L, it)
    ensures Heap(L', it') && ElemsOf(L') == ElemsOf(L) - multiset{x}
    ensures x !in ElemsOf(L) ==> L' == L && it' == it
  {
    var r := Find(Greater, L, Index(it), x, Missing);
    FindRootsExact(Greater, L, Index(it), x);
    if !r.Found? {
      return L, it;
    }
    var P, j := Plant(L, it, r.path[0], r.path[1..], x, L[it.pos].data + 1);
    ghost var s := P[j.pos].data;
    L', it' := Pop(P, j);
    Traded(ElemsOf(L'), ElemsOf(P), ElemsOf(L), x, s);
  }

  /** After `insert` of a leaf `x` into the roots of a heap whose maximum
      is at `m0`, a first root holding the maximum whose value is stored
      twice holds the old maximum, and `x` is no greater. */
  lemma {:induction false} InsertedTwice(L0: seq<Tree<()>>, m0: Iter, x: int, k: nat)
    requires Heap(L0, m0)
    requires FirstBest(Greater, Insert(L0, Leaf(x, ())), k)
    requires ElemsOf(Insert(L0, Leaf(x, ())))[Insert(L0, Leaf(x, ()))[k].data] >= 2
    ensures L0 != [] && x <= L0[m0.pos].data && Insert(L0, Leaf(x, ()))[k].data == L0[m0.pos].data
  {
    var leaf := Leaf(x, ());
    InsertedElems(L0, leaf);
    if L0 == [] {
      assert false;
    }
    var M := L0[m0.pos].data;
    InsertedTop(L0, m0.pos, x, k);
    if x > M {
      forall y | y in ElemsOf(L0)
        ensures y <= M
      {
        BestFirst(Greater, L0, m0.pos, y);
      }
      assert false;
    }
  }

  /** After `insert` of a leaf `x`, the first root holding the maximum
      holds the greater of `x` and the old maximum. */
  lemma {:induction false} InsertedTop(L0: seq<Tree<()>>, p: nat, x: int, k: nat)
    requires Best(Greater, L0, p)
    requires FirstBest(Greater, Insert(L0, Leaf(x, ())), k)
    ensures Insert(L0, Leaf(x, ()))[k].data == if x > L0[p].data then x else L0[p].data
  {
    var leaf := Leaf(x, ());
    var L := Insert(L0, leaf);
    var j := Slot(L0, 0);
    InsertIndex(L0, leaf, j);
    var pm := if p < j then p else p + 1;
    assert L[pm].data == L0[p].data && L[j].data == x;
    if k != j {
      assert L[k] == L0[if k < j then k else k - 1];
    }
  }

  /** `MaxBinomHeap<int>`: the roots in the multiset's order and the
      iterator `m_max`. */
  class MaxBinomHeap {
    var roots: seq<Tree<()>>
    var max: Iter

    ghost function Contents(): multiset<int>
      reads this
    {
      ElemsOf(roots)
    }

    ghost predicate Valid()
      reads this
    {
      Heap(roots, max)
    }

    /** The value `m_max` points at. */
    ghost function MaxData(): int
      reads this
      requires Valid() && roots != []
    {
      roots[max.pos].data
    }

    constructor ()
      ensures Valid() && roots == [] && max == End
    {
      roots := [];
      max := End;
    }

    /** The new state of the heap. */
    method Store(L: seq<Tree<()>>, it: Iter)
      modifies this
      ensures roots == L && max == it
      ensures Heap(L, it) ==> Valid()
    {
      roots, max := L, it;
    }

    /** `add` as evidently intended: the one-node tree is inserted, the
        roots are merged with the corrected `merge`, and `updateMax` runs
        once the links are made. */
    method Add(x: int)
      requires Valid()
      modifies this
      ensures Valid()
      ensures Contents() == old(Contents()) + multiset{x}
      ensures roots == Merged(Insert(old(roots), Leaf(x, ())))
    {
      var leaf := Leaf(x, ());
      var L := Insert(roots, leaf);
      Inserted(Greater, roots, leaf);
      MergedKeeps(L);
      var R := Merge(L);
      var it := FindMax(R);
      Store(R, it);
    }

    /** `add` as written: `updateMax` runs before `merge`, whose links may
        erase the root `m_max` names.  The values, the shape and heap order
        are kept; the iterator either names the first root holding the
        maximum or dangles, and it dangles only when the maximum is stored
        twice. */
    method AddAsWritten(x: int)
      requires Valid()
      modifies this
      ensures var L := Insert(old(roots), Leaf(x, ()));
        exists k :: FirstBest(Greater, L, k) && (roots, max) == MergedAsWritten(L, At(k))
      ensures Contents() == old(Contents()) + multiset{x}
      ensures AllWf(roots) && AllBinomial(roots) && AllFree(roots) && AllOrdered(Greater, roots)
      ensures roots != [] && !max.End?
      ensures max.At? ==> FirstBest(Greater, roots, max.pos)
      ensures max.Dangling? ==> var L0, m0 := old(roots), old(max);
        L0 != [] && x <= L0[m0.pos].data && Contents()[L0[m0.pos].data] >= 2
    {
      var L0, m0 := roots, max;
      var leaf := Leaf(x, ());
      var L := Insert(L0, leaf);
      Inserted(Greater, L0, leaf);
      var it := FindMax(L);
      var k := it.pos;
      MergedAsWrittenKeeps(L, At(k));
      MergedAsWrittenTop(L, k);
      var R, it' := MergeAsWritten(L, At(k));
      if it'.Dangling? {
        InsertedTwice(L0, m0, x, k);
      }
      Store(R, it');
    }

    /** `getMax`: a `runtime_error` on an empty heap, otherwise the
        greatest value stored. */
    method GetMax() returns (r: Result<int>)
      requires Valid()
      ensures r.Err? <==> Contents() == multiset{}
      ensures r.Err? ==> r.error == RuntimeError
      ensures r.Ok? ==> r.value in Contents() && forall y :: y in Contents() ==> y <= r.value
    {
      if roots == [] {
        return Err(RuntimeError);
      }
      ElemsOfCovers(roots, max.pos);
      ElemsRoot(roots[max.pos]);
      forall y | y in Contents()
        ensures y <= roots[max.pos].data
      {
        BestFirst(Greater, roots, max.pos, y);
      }
      r := Ok(roots[max.pos].data);
    }

    /** `sort` always throws a `runtime_error`. */
    method Sort() returns (r: Result<()>)
      ensures r.Err? && r.error == RuntimeError
    {
      r := Err(RuntimeError);
    }

    /** `removeTop`: the maximum's children join the roots, the maximum
        goes, the roots are merged and `m_max` is chosen again.  Nothing
        happens to an empty heap. */
    method RemoveTop()
      requires Valid()
      modifies this
      ensures Valid()
      ensures var L0, m0 := old(roots), old(max);
        (L0 == [] ==> roots == [] && max == m0) &&
        (L0 != [] ==> Contents() == ElemsOf(L0) - multiset{L0[m0.pos].data} && |Contents()| + 1 == |ElemsOf(L0)|)
    {
      var L, it := Pop(roots, max);
      Store(L, it);
    }

    /** `remove(x)`: one copy of `x` goes; nothing changes when `x` is
        absent. */
    method Remove(x: int)
      requires Valid()
      modifies this
      ensures Valid()
      ensures Contents() == old(Contents()) - multiset{x}
      ensures x !in old(Contents()) ==> roots == old(roots) && max == old(max)
    {
      var L, it := Delete(roots, max, x);
      Store(L, it);
    }
  }

  /** `add(5)` twice with `add` as written: the second leaf goes after the
      first, `updateMax` picks the first, and `basic_merge` makes the second
      the parent (5 > 5 fails) and erases the first.  `m_max` dangles. */
  method TiedAdds() returns (h: MaxBinomHeap)
    ensures h.max == Dangling && h.Contents() == multiset{5, 5}
  {
    h := new MaxBinomHeap();
    h.AddAsWritten(5);
    var leaf := Leaf(5, ());
    assert Insert([], leaf) == [leaf];
    assert h.roots == [leaf] && h.max == At(0);
    h.AddAsWritten(5);
    assert [leaf][1..] == [];
    assert Slot([leaf], 0) == 1;
    var L := [leaf, leaf];
    assert Insert([leaf], leaf) == L;
    assert forall k :: FirstBest(Greater, L, k) ==> k == 0;
    assert !Comp(Greater, 5, 5) && L[2..] == [];
    var u := Link(Greater, leaf, leaf);
    assert [Link(Greater, L[0], L[1])] + L[2..] == [u];
    assert MergedAsWritten(L, At(0)) == MergedAsWritten([u], Track(At(0), 0));
    assert MergedAsWritten([u], Dangling) == ([u], Dangling);
  }

  /** The same calls with `add` as evidently intended leave `m_max` on the
      one root, which holds 5. */
  method TiedAddsFixed() returns (h: MaxBinomHeap)
    ensures |h.roots| == 1 && h.max == At(0) && h.roots[0].data == 5 && h.Contents() == multiset{5, 5}
  {
    h := new MaxBinomHeap();
    h.Add(5);
    var leaf := Leaf(5, ());
    assert Insert([], leaf) == [leaf];
    assert h.roots == [leaf];
    h.Add(5);
    assert [leaf][1..] == [];
    assert Slot([leaf], 0) == 1;
    assert Insert([leaf], leaf) == [leaf, leaf];
    var u := Link(Greater, leaf, leaf);
    assert [leaf, leaf][2..] == [];
    assert Insert([], u) == [u];
    assert h.roots == Merged([u]) == [u];
  }

  /** The roots just before `merge` in `removeTop` after `add` of 7, 6, 5,
      4, 3, 2, 1: the leaves 1 and 6, then 3 over 2 and 5 over 4. */
  function FourRoots(): seq<Tree<()>>
  {
    [Leaf(1, ()), Leaf(6, ()), Pair(3, 2), Pair(5, 4)]
  }

  /** A root of degree 1: `a` over the leaf `b`. */
  function Pair(a: int, b: int): Tree<()>
  {
    Node(a, 1, false, (), [Node(b, 0, true, (), [])])
  }

  /** A pair whose root is the larger value is a binomial, heap-ordered
      root. */
  lemma {:induction false} PairRoot(a: int, b: int)
    requires b < a
    ensures var t := Pair(a, b);
      Wf(t) && Binomial(t) && !t.parented && t.degree == 1 && Forests.HeapOrdered(Greater, t)
  {
    var c: Tree<()> := Node(b, 0, true, (), []);
    assert Wf(c) && Binomial(c) && Forests.HeapOrdered(Greater, c);
  }

  lemma {:induction false} FourRootsHeap()
    ensures Roots(FourRoots()) && AllOrdered(Greater, FourRoots())
  {
    var L := FourRoots();
    PairRoot(3, 2);
    PairRoot(5, 4);
    assert L[0].degree == 0 && L[1].degree == 0 && L[2].degree == 1 && L[3].degree == 1;
  }

  /** `merge` as written on roots of degrees 0, 0, 1, 1: 6 takes 1, then 6
      (its degree raised to 1 in place) takes 3, and the roots end with
      degrees 2, 1, out of the multiset's order.  The corrected `merge`
      keeps the order. */
  lemma {:induction false} MergeOutOfOrder()
    ensures !DegreeSorted(MergedAsWritten(FourRoots(), End).0)
    ensures DegreeSorted(Merged(FourRoots()))
  {
    var L := FourRoots();
    FourRootsHeap();
    var a := Link(Greater, L[0], L[1]);
    assert a.data == 6 && a.degree == 1;
    var L1 := [a] + L[2..];
    assert MergedAsWritten(L, End) == MergedAsWritten(L1, End);
    var b := Link(Greater, a, L1[1]);
    assert b.data == 6 && b.degree == 2;
    var L2 := [b] + L1[2..];
    assert L2 == [b, L[3]];
    assert MergedAsWritten(L1, End) == MergedAsWritten(L2, End) == (L2, End);
    assert !DegreeSorted(L2);
    MergedKeeps(L);
  }
}
