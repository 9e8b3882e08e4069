/** `RedBlackTree<int>` of include/RedBlackTree.hpp.  The tree is held as a
    value; a slot of the source (a `Node**` into `m_root` or a child field)
    is the path of directions that leads to it, `true` for right.  A node
    keeps its colour, its value, whether its `parent` pointer still names
    its parent (the rotations leave the subtree they hand across pointing at
    its old parent), and its two children.  A search goes right when the
    node's value is smaller than the key.

    The class is the tree as evidently intended: `rebalance_case` makes the
    inner rotation exactly when the node and its parent hang on opposite
    sides, and the rotations set the parent pointer of the subtree they
    hand across.  `Fix` with `fixed` false and `RedBlackTree.AddAsWritten`
    model the code as it stands. */
module RedBlackTrees {
  import opened Common
  import opened Sorted
  import SimpleBinaryTrees

  datatype Color = Red | Black

  datatype Tree = Nil | Node(color: Color, data: int, linked: bool, left: Tree, right: Tree)

  /** `Node::child`: the left child for `false`, the right child for `true`. */
  function Son(t: Tree, id: bool): (s: Tree)
    requires t.Node?
    ensures s < t
  {
    if id then t.right else t.left
  }

  /** The node `t` with its child on side `id` replaced by `s`. */
  function SetSon(t: Tree, id: bool, s: Tree): (t': Tree)
    requires t.Node?
    ensures t'.Node? && t'.data == t.data && t'.color == t.color && t'.linked == t.linked
    ensures Son(t', id) == s && Son(t', !id) == Son(t, !id)
  {
    if id then t.(right := s) else t.(left := s)
  }

  /** `new Node(x)` (a RED node) hung under the parent the search found. */
  function Leaf(x: int): Tree
  {
    Node(Red, x, true, Nil, Nil)
  }

  /** `get_color`: a null node counts as BLACK. */
  function GetColor(t: Tree): Color
  {
    if t.Nil? then Black else t.color
  }

  function InOrder(t: Tree): seq<int>
  {
    if t.Nil? then [] else InOrder(t.left) + [t.data] + InOrder(t.right)
  }

  /** A search tree: the in-order sequence is strictly ascending. */
  ghost predicate Ordered(t: Tree)
  {
    Ascending(InOrder(t))
  }

  /** The number of BLACK nodes on the way down the left spine, null
      excluded; in a `Proper` tree every way down meets as many. */
  function BlackHeight(t: Tree): nat
  {
    if t.Nil? then 0 else BlackHeight(t.left) + (if t.color == Black then 1 else 0)
  }

  /** Below every node both children have the same black height, and a RED
      node has no RED child. */
  ghost predicate Proper(t: Tree)
  {
    t.Node? ==>
      Proper(t.left) && Proper(t.right) && BlackHeight(t.left) == BlackHeight(t.right) &&
      (t.color == Red ==> GetColor(t.left) == Black && GetColor(t.right) == Black)
  }

  /** The red-black invariants with a BLACK root. */
  ghost predicate RedBlack(t: Tree)
  {
    Proper(t) && GetColor(t) == Black
  }

  /** Every `parent` field names the node's parent (null at the root). */
  ghost predicate AllLinked(t: Tree)
  {
    t.Node? ==> t.linked && AllLinked(t.left) && AllLinked(t.right)
  }

  /** The subtree a slot holds. */
  function At(t: Tree, p: seq<bool>): Tree
  {
    if p == [] then t else if t.Nil? then Nil else At(Son(t, p[0]), p[1..])
  }

  /** Stores `s` in the slot at path `p`. */
  function ReplaceAt(t: Tree, p: seq<bool>, s: Tree): Tree
  {
    if p == [] then s else if t.Nil? then t else SetSon(t, p[0], ReplaceAt(Son(t, p[0]), p[1..], s))
  }

  /** The slot `find` ends on: the node holding `x` or the empty slot where
      it would go. */
  function SearchPath(t: Tree, x: int): seq<bool>
  {
    if t.Nil? || t.data == x then [] else [t.data < x] + SearchPath(Son(t, t.data < x), x)
  }

  /** The tree with a new leaf `x` in the empty slot the search ends on;
      unchanged when the search meets `x`. */
  function Grow(t: Tree, x: int): Tree
  {
    if t.Nil? then Leaf(x)
    else if t.data == x then t
    else SetSon(t, t.data < x, Grow(Son(t, t.data < x), x))
  }

  // Paths.

  lemma {:induction false} AtAppend(t: Tree, p: seq<bool>, d: bool)
    requires At(t, p).Node?
    ensures At(t, p + [d]) == Son(At(t, p), d)
  {
    if p != [] {
      assert (p + [d])[1..] == p[1..] + [d];
      AtAppend(Son(t, p[0]), p[1..], d);
    }
  }

  lemma {:induction false} ReplaceAppend(t: Tree, p: seq<bool>, d: bool, s: Tree)
    requires At(t, p).Node?
    ensures ReplaceAt(t, p + [d], s) == ReplaceAt(t, p, SetSon(At(t, p), d, s))
  {
    if p != [] {
      assert (p + [d])[1..] == p[1..] + [d];
      ReplaceAppend(Son(t, p[0]), p[1..], d, s);
    }
  }

  /** The slots above a node hold nodes. */
  lemma {:induction false} PrefixNode(t: Tree, p: seq<bool>, i: nat)
    requires i <= |p| && At(t, p).Node?
    ensures At(t, p[..i]).Node?
  {
    if p != [] && i > 0 {
      assert p[..i][1..] == p[1..][..i - 1];
      PrefixNode(Son(t, p[0]), p[1..], i - 1);
    } else if p != [] {
      assert t.Node?;
    }
  }

  /** The parent, grandparent and great-grandparent slots of a node hold
      nodes. */
  lemma {:induction false} Lineage(t: Tree, p: seq<bool>)
    requires At(t, p).Node?
    ensures |p| >= 1 ==> At(t, p[..|p| - 1]).Node?
    ensures |p| >= 2 ==> At(t, p[..|p| - 2]).Node?
    ensures |p| >= 3 ==> At(t, p[..|p| - 3]).Node?
  {
    if |p| >= 1 {
      PrefixNode(t, p, |p| - 1);
    }
    if |p| >= 2 {
      PrefixNode(t, p, |p| - 2);
    }
    if |p| >= 3 {
      PrefixNode(t, p, |p| - 3);
    }
  }

  /** Reading back a slot just stored. */
  lemma {:induction false} AtReplace(t: Tree, p: seq<bool>, s: Tree)
    requires p == [] || At(t, p[..|p| - 1]).Node?
    ensures At(ReplaceAt(t, p, s), p) == s
  {
    if p != [] {
      var q := p[..|p| - 1];
      PrefixNode(t, q, 0);
      assert t.Node?;
      if |p| > 1 {
        assert p[1..][..|p[1..]| - 1] == q[1..];
        assert At(Son(t, p[0]), q[1..]) == At(t, q);
      }
      AtReplace(Son(t, p[0]), p[1..], s);
    }
  }

  /** A node stored at a slot is found there only when the slot's parent
      was a node. */
  lemma {:induction false} ReplacedParent(t: Tree, p: seq<bool>, s: Tree)
    requires p != [] && At(ReplaceAt(t, p, s), p).Node?
    ensures At(t, p[..|p| - 1]).Node?
  {
    assert t.Node?;
    if |p| > 1 {
      assert p[1..][..|p[1..]| - 1] == p[..|p| - 1][1..];
      ReplacedParent(Son(t, p[0]), p[1..], s);
    }
  }

  /** Storing twice, the second time above the first, keeps the second. */
  lemma {:induction false} ReplaceTwice(t: Tree, q: seq<bool>, d: bool, s: Tree, u: Tree)
    requires At(t, q).Node?
    ensures ReplaceAt(ReplaceAt(t, q + [d], s), q, u) == ReplaceAt(t, q, u)
  {
    if q != [] {
      assert (q + [d])[1..] == q[1..] + [d];
      ReplaceTwice(Son(t, q[0]), q[1..], d, s, u);
    }
  }

  /** Storing twice in the same slot keeps the second. */
  lemma {:induction false} ReplaceSame(t: Tree, q: seq<bool>, a: Tree, r: Tree)
    ensures ReplaceAt(ReplaceAt(t, q, a), q, r) == ReplaceAt(t, q, r)
  {
    if q != [] && t.Node? {
      ReplaceSame(Son(t, q[0]), q[1..], a, r);
    }
  }

  /** The slots around a step up from `q + [d]` to `q`. */
  lemma {:induction false} PathStep(O: Tree, q: seq<bool>, d: bool, S: Tree)
    requires At(O, q).Node?
    ensures At(ReplaceAt(O, q + [d], S), q) == SetSon(At(O, q), d, S)
    ensures At(O, q + [d]) == Son(At(O, q), d)
    ensures ReplaceAt(O, q + [d], S) == ReplaceAt(O, q, SetSon(At(O, q), d, S))
  {
    ReplaceAppend(O, q, d, S);
    if q != [] {
      PrefixNode(O, q, |q| - 1);
    }
    AtReplace(O, q, SetSon(At(O, q), d, S));
    AtAppend(O, q, d);
  }

  /** A slot's subtree has the tree's properties. */
  lemma {:induction false} AtKeeps(t: Tree, p: seq<bool>)
    ensures Proper(t) ==> Proper(At(t, p))
    ensures AllLinked(t) ==> AllLinked(At(t, p))
    ensures Ordered(t) ==> Ordered(At(t, p))
  {
    if p != [] && t.Node? {
      if Ordered(t) {
        SimpleBinaryTrees.SplitAscending(InOrder(t.left), t.data, InOrder(t.right));
      }
      AtKeeps(Son(t, p[0]), p[1..]);
    }
  }

  /** The in-order sequence of a node around a part of one child's. */
  lemma {:induction false} AroundSon(t: Tree, d: bool, a: seq<int>, x: seq<int>, b: seq<int>)
    requires t.Node?
    requires InOrder(Son(t, d)) == a + x + b
    ensures InOrder(t) == (if d then InOrder(t.left) + [t.data] + a else a) + x + (if d then b else b + [t.data] + InOrder(t.right))
  {
    var l, r := InOrder(t.left), InOrder(t.right);
    if d {
      calc {
        InOrder(t);
        l + [t.data] + (a + x + b);
        (l + [t.data] + a) + x + b;
      }
    } else {
      calc {
        InOrder(t);
        (a + x + b) + [t.data] + r;
        a + x + (b + [t.data] + r);
      }
    }
  }

  /** The in-order sequence around a slot: storing a subtree replaces its
      part and leaves the values before and after. */
  lemma {:induction false} ReplaceInOrder(t: Tree, p: seq<bool>, s: Tree) returns (pre: seq<int>, post: seq<int>)
    requires At(t, p).Node? || p == []
    ensures InOrder(t) == pre + InOrder(At(t, p)) + post
    ensures InOrder(ReplaceAt(t, p, s)) == pre + InOrder(s) + post
  {
    if p == [] {
      pre, post := [], [];
    } else {
      assert t.Node?;
      var d := p[0];
      var a, b := ReplaceInOrder(Son(t, d), p[1..], s);
      var u := ReplaceAt(t, p, s);
      AroundSon(t, d, a, InOrder(At(t, p)), b);
      AroundSon(u, d, a, InOrder(s), b);
      pre := if d then InOrder(t.left) + [t.data] + a else a;
      post := if d then b else b + [t.data] + InOrder(t.right);
    }
  }

  /** Storing a subtree with the same in-order sequence keeps the tree's. */
  lemma {:induction false} SameInOrder(t: Tree, p: seq<bool>, s: Tree)
    requires At(t, p).Node? || p == []
    requires InOrder(s) == InOrder(At(t, p))
    ensures InOrder(ReplaceAt(t, p, s)) == InOrder(t)
  {
    var pre, post := ReplaceInOrder(t, p, s);
  }

  // Search.

  /** Below a node with another value, `x` can only be in the child the
      search takes. */
  lemma {:induction false} SearchSide(t: Tree, x: int)
    requires Ordered(t) && t.Node? && t.data != x
    ensures Ordered(Son(t, t.data < x))
    ensures x in InOrder(t) <==> x in InOrder(Son(t, t.data < x))
  {
    SimpleBinaryTrees.SplitAscending(InOrder(t.left), t.data, InOrder(t.right));
  }

  /** `find` ends on `x` when it is stored and on an empty slot otherwise. */
  lemma {:induction false} SearchPathEnds(t: Tree, x: int)
    requires Ordered(t)
    ensures At(t, SearchPath(t, x)).Nil? <==> x !in InOrder(t)
    ensures At(t, SearchPath(t, x)).Node? ==> At(t, SearchPath(t, x)).data == x
  {
    if t.Node? && t.data != x {
      SearchSide(t, x);
      SearchPathEnds(Son(t, t.data < x), x);
    }
  }

  /** The search path from a node that does not hold `x` goes on from
      the child on the side the search takes. */
  lemma {:induction false} SearchStep(t: Tree, x: int, path: seq<bool>)
    requires t.Node? && t.data != x
    ensures path + SearchPath(t, x) == (path + [t.data < x]) + SearchPath(Son(t, t.data < x), x)
  {
  }

  /** The new leaf sits at the end of the search path. */
  lemma {:induction false} GrowAt(t: Tree, x: int)
    requires At(t, SearchPath(t, x)).Nil?
    ensures Grow(t, x) == ReplaceAt(t, SearchPath(t, x), Leaf(x))
    ensures At(Grow(t, x), SearchPath(t, x)) == Leaf(x)
  {
    if t.Node? {
      GrowAt(Son(t, t.data < x), x);
    }
  }

  /** Growing inserts into the in-order sequence. */
  lemma {:induction false} GrowInOrder(t: Tree, x: int)
    requires Ordered(t)
    ensures InOrder(Grow(t, x)) == Insert(InOrder(t), x)
  {
    if t.Node? {
      SimpleBinaryTrees.SplitAscending(InOrder(t.left), t.data, InOrder(t.right));
      if t.data < x {
        GrowInOrder(t.right, x);
        GrowRight(t, x);
      } else if x < t.data {
        GrowInOrder(t.left, x);
        GrowLeft(t, x);
      } else {
        assert InOrder(t)[|InOrder(t.left)|] == x;
        InsertPresent(InOrder(t), x);
      }
    }
  }

  /** The step of `GrowInOrder` for a value above the node's. */
  lemma {:induction false} GrowRight(t: Tree, x: int)
    requires t.Node? && t.data < x && forall y :: y in InOrder(t.left) ==> y < t.data
    requires InOrder(Grow(t.right, x)) == Insert(InOrder(t.right), x)
    ensures InOrder(Grow(t, x)) == Insert(InOrder(t), x)
  {
    var l, r := InOrder(t.left), InOrder(t.right);
    forall i | 0 <= i < |l + [t.data]| ensures (l + [t.data])[i] < x {
      if i < |l| { assert l[i] in l; }
    }
    SimpleBinaryTrees.InsertAfterSmaller(l + [t.data], r, x);
  }

  /** The step of `GrowInOrder` for a value below the node's. */
  lemma {:induction false} GrowLeft(t: Tree, x: int)
    requires t.Node? && x < t.data
    requires InOrder(Grow(t.left, x)) == Insert(InOrder(t.left), x)
    ensures InOrder(Grow(t, x)) == Insert(InOrder(t), x)
  {
    var l, r := InOrder(t.left), InOrder(t.right);
    SimpleBinaryTrees.InsertBeforeLarger(l, [t.data] + r, x);
    assert l + [t.data] + r == l + ([t.data] + r);
  }

  // Rotations.

  /** A subtree handed to a new parent with its `parent` pointer set. */
  function Relink(t: Tree): (r: Tree)
    ensures r.Nil? <==> t.Nil?
    ensures InOrder(r) == InOrder(t) && GetColor(r) == GetColor(t) && BlackHeight(r) == BlackHeight(t)
    ensures Proper(r) <==> Proper(t)
    ensures AllLinked(t) ==> AllLinked(r)
  {
    if t.Nil? then t else t.(linked := true)
  }

  /** A subtree handed to a new parent whose `parent` pointer still names
      the old one. */
  function Unlink(t: Tree): (u: Tree)
    ensures u.Nil? <==> t.Nil?
    ensures InOrder(u) == InOrder(t)
    ensures u.Node? ==> !AllLinked(u)
  {
    if t.Nil? then t else t.(linked := false)
  }

  /** `rotate_left` (`id` true) or `rotate_right` (`id` false) of the node
      `t`: its child `c` on side `id` takes its place, `t` becomes `c`'s
      child on the other side and takes over `c`'s inner subtree.  `t`'s
      parent pointer is set to `c`, and `c` inherits `t`'s.  As written the
      inner subtree keeps its parent pointer to `c`; with `fixed` it is set
      to `t`. */
  function Rotate(t: Tree, id: bool, fixed: bool): Tree
    requires t.Node? && Son(t, id).Node?
  {
    var c := Son(t, id);
    var moved := if fixed then Relink(Son(c, !id)) else Unlink(Son(c, !id));
    SetSon(c, !id, SetSon(t, id, moved).(linked := true)).(linked := t.linked)
  }

  /** The slot a rotation of the node at `q` hangs the new subtree on:
      `m_root` when the node has no parent, otherwise the side of the parent
      that the parent's value picks (`p->data < n->data` picks the right
      child). */
  function HangPath(T: Tree, q: seq<bool>): (h: seq<bool>)
    requires q != [] ==> At(T, q).Node?
    ensures |h| == |q| && (q != [] ==> h[..|h| - 1] == q[..|q| - 1])
  {
    if q == [] then []
    else
      var g := q[..|q| - 1];
      PrefixNode(T, q, |q| - 1);
      g + [At(T, g).data < At(T, q).data]
  }

  /** The tree with the rotated subtree `r` hung where the node at `q` was. */
  function Hang(T: Tree, q: seq<bool>, r: Tree): Tree
    requires q != [] ==> At(T, q).Node?
  {
    ReplaceAt(T, HangPath(T, q), r)
  }

  /** A rotation of the node at `q` towards side `id`; `None` when it
      would read the node's stale `parent` pointer or follow a null
      child. */
  function RotateAt(T: Tree, q: seq<bool>, id: bool, fixed: bool): Option<Tree>
    requires At(T, q).Node?
  {
    var n := At(T, q);
    if !n.linked || Son(n, id).Nil? then None
    else Some(Hang(T, q, Rotate(n, id, fixed)))
  }

  /** A rotation keeps the in-order sequence. */
  lemma {:induction false} RotateInOrder(t: Tree, id: bool, fixed: bool)
    requires t.Node? && Son(t, id).Node?
    ensures InOrder(Rotate(t, id, fixed)) == InOrder(t)
  {
    var c := Son(t, id);
    var r := Rotate(t, id, fixed);
    var moved := if fixed then Relink(Son(c, !id)) else Unlink(Son(c, !id));
    if id {
      var a, b, e := InOrder(t.left), InOrder(c.left), InOrder(c.right);
      assert r.left == t.(right := moved, linked := true) && r.right == c.right;
      calc {
        InOrder(r);
        InOrder(r.left) + [c.data] + e;
        (a + [t.data] + b) + [c.data] + e;
        { Splice(a, t.data, b, c.data, e); }
        a + [t.data] + (b + [c.data] + e);
        InOrder(t);
      }
    } else {
      var a, b, e := InOrder(c.left), InOrder(c.right), InOrder(t.right);
      assert r.right == t.(left := moved, linked := true) && r.left == c.left;
      calc {
        InOrder(r);
        a + [c.data] + InOrder(r.right);
        a + [c.data] + (b + [t.data] + e);
        { Splice(a, c.data, b, t.data, e); }
        (a + [c.data] + b) + [t.data] + e;
        InOrder(t);
      }
    }
  }

  /** The regrouping of a rotation. */
  lemma {:induction false} Splice(l: seq<int>, x: int, m: seq<int>, y: int, r: seq<int>)
    ensures l + [x] + (m + [y] + r) == (l + [x] + m) + [y] + r
  {
  }

  /** In a search tree the parent's value picks the side its child hangs
      on, so the uncle is the grandparent's other child and a rotated
      subtree is hung in the rotated node's own slot. */
  lemma {:induction false} ParentPicksSlot(T: Tree, q: seq<bool>)
    requires Ordered(T) && q != [] && At(T, q).Node?
    ensures var g := q[..|q| - 1];
      At(T, g).Node? && At(T, g).data != At(T, q).data &&
      (At(T, g).data < At(T, q).data <==> q[|q| - 1])
    ensures HangPath(T, q) == q
  {
    var g, d := q[..|q| - 1], q[|q| - 1];
    assert q == g + [d];
    PrefixNode(T, q, |q| - 1);
    AtAppend(T, g, d);
    var n := At(T, g);
    var c := Son(n, d);
    AtKeeps(T, g);
    SimpleBinaryTrees.SplitAscending(InOrder(n.left), n.data, InOrder(n.right));
    assert c.data == InOrder(c)[|InOrder(c.left)|];
    assert c.data in InOrder(Son(n, d));
  }

  /** A rotation in a search tree keeps the tree's in-order sequence. */
  lemma {:induction false} RotateAtInOrder(T: Tree, q: seq<bool>, id: bool, fixed: bool)
    requires Ordered(T) && At(T, q).Node? && RotateAt(T, q, id, fixed).Some?
    ensures InOrder(RotateAt(T, q, id, fixed).value) == InOrder(T)
  {
    var n := At(T, q);
    RotateInOrder(n, id, fixed);
    if q != [] {
      ParentPicksSlot(T, q);
    }
    SameInOrder(T, q, Rotate(n, id, fixed));
  }

  // The `update` walk.

  /** `n->uncle()`: null without a parent or a grandparent, otherwise the
      grandparent's child on the side its value does not pick for the
      parent (`g->data > p->data` picks the right child). */
  function Uncle(T: Tree, p: seq<bool>): Tree
    requires At(T, p).Node?
  {
    if |p| < 2 then Nil
    else
      Lineage(T, p);
      var g, par := At(T, p[..|p| - 2]), At(T, p[..|p| - 1]);
      Son(g, g.data > par.data)
  }

  /** In a search tree the uncle is the grandparent's other child. */
  lemma {:induction false} UncleSibling(T: Tree, p: seq<bool>)
    requires Ordered(T) && |p| >= 2 && At(T, p).Node?
    ensures At(T, p[..|p| - 2]).Node? && Uncle(T, p) == Son(At(T, p[..|p| - 2]), !p[|p| - 2])
  {
    var q := p[..|p| - 1];
    Lineage(T, p);
    assert q[..|q| - 1] == p[..|p| - 2];
    ParentPicksSlot(T, q);
  }

  /** The three colour writes of the red-uncle case inside the grandparent
      `g`: the parent (on side `d`) and the uncle (on side `k`) BLACK, then
      `g` RED. */
  function Recolor(g: Tree, d: bool, k: bool): Tree
    requires g.Node? && Son(g, d).Node? && Son(g, k).Node?
  {
    var g1 := SetSon(g, d, Son(g, d).(color := Black));
    SetSon(g1, k, Son(g1, k).(color := Black)).(color := Red)
  }

  /** `update` from the node at the end of `p`: a node without a parent
      turns BLACK; below a BLACK parent nothing happens; below a RED parent
      with a RED uncle the parent and the uncle turn BLACK, the grandparent
      RED, and the walk goes on from the grandparent; otherwise
      `rebalance_case` rotates.  Reading a stale `parent` pointer gives
      `None`. */
  function Fix(T: Tree, p: seq<bool>, fixed: bool): Option<Tree>
    requires At(T, p).Node?
    decreases |p|
  {
    Lineage(T, p);
    if !At(T, p).linked then None
    else if p == [] then Some(T.(color := Black))
    else
      var q := p[..|p| - 1];
      var par := At(T, q);
      if par.color == Black then Some(T)
      else if !par.linked then None
      else if q == [] then Some(T)
      else
        var gq := p[..|p| - 2];
        var g := At(T, gq);
        var k := g.data > par.data;
        if GetColor(Son(g, k)) == Red then
          assert p[..|p| - 1] == gq + [p[|p| - 2]];
          AtAppend(T, gq, p[|p| - 2]);
          var T1 := ReplaceAt(T, gq, Recolor(g, p[|p| - 2], k));
          assert |p| >= 3 ==> gq[..|gq| - 1] == p[..|p| - 3];
          AtReplace(T, gq, Recolor(g, p[|p| - 2], k));
          Fix(T1, gq, fixed)
        else RebalanceCase(T, p, fixed)
  }

  /** `rebalance_case` for the node at the end of `p`.  As written the
      inner rotation of the parent is made when the grandparent has a left
      child and the node is that child's right child, or when it has only a
      right child and the node is that child's left child; with `fixed` it
      is made when the node and the parent hang on opposite sides.  The node
      then is the parent's old place below the rotated one. */
  function RebalanceCase(T: Tree, p: seq<bool>, fixed: bool): Option<Tree>
    requires |p| >= 2 && At(T, p).Node?
  {
    Lineage(T, p);
    var q, gq := p[..|p| - 1], p[..|p| - 2];
    var G := At(T, gq);
    var d, e := p[|p| - 2], p[|p| - 1];
    var inner :=
      if fixed then d != e
      else if G.left.Node? then !d && e
      else if G.right.Node? then d && !e
      else false;
    if !inner then Outer(T, p, fixed)
    else
      match RotateAt(T, q, e, fixed)
      case None => None
      case Some(T1) =>
        InnerRotated(T, q, e, fixed);
        Outer(T1, HangPath(T, q) + [!e], fixed)
  }

  /** After the inner rotation the node's new place holds a node. */
  lemma {:induction false} InnerRotated(T: Tree, q: seq<bool>, e: bool, fixed: bool)
    requires q != [] && At(T, q).Node? && RotateAt(T, q, e, fixed).Some?
    ensures At(RotateAt(T, q, e, fixed).value, HangPath(T, q) + [!e]).Node?
  {
    var h := HangPath(T, q);
    var r := Rotate(At(T, q), e, fixed);
    PrefixNode(T, q, |q| - 1);
    AtReplace(T, h, r);
    AtAppend(ReplaceAt(T, h, r), h, !e);
  }

  /** The end of `rebalance_case` for the node at the end of `P`: the
      grandparent rotates right when the node is its parent's left child
      and left otherwise, then the grandparent turns RED and the parent
      BLACK, wherever the rotation moved them. */
  function Outer(T: Tree, P: seq<bool>, fixed: bool): Option<Tree>
    requires |P| >= 2 && At(T, P).Node?
  {
    Lineage(T, P);
    var gq := P[..|P| - 2];
    var G := At(T, gq);
    var id := P[|P| - 1];
    if !G.linked || Son(G, id).Nil? then None
    else
      assert P[..|P| - 1] == gq + [P[|P| - 2]];
      AtAppend(T, gq, P[|P| - 2]);
      Some(Hang(T, gq, Finish(Rotate(G, id, fixed), id, P[|P| - 2] == id)))
  }

  /** The colour writes that end `rebalance_case`, inside the subtree `R`
      the rotation towards `id` made: the old grandparent (now `R`'s child
      on side `!id`) RED, then the parent BLACK: `R` itself when it was the
      pivot (`top`), otherwise still the old grandparent's child on side
      `!id`. */
  function Finish(R: Tree, id: bool, top: bool): Tree
    requires R.Node? && Son(R, !id).Node? && (top || Son(Son(R, !id), !id).Node?)
  {
    var g := Son(R, !id).(color := Red);
    var R1 := SetSon(R, !id, g);
    if top then R1.(color := Black)
    else SetSon(R1, !id, SetSon(g, !id, Son(g, !id).(color := Black)))
  }

  // The values and their order.

  /** The colour writes keep the values and their order. */
  lemma {:induction false} RecolorInOrder(g: Tree, d: bool, k: bool)
    requires g.Node? && Son(g, d).Node? && Son(g, k).Node?
    ensures InOrder(Recolor(g, d, k)) == InOrder(g)
  {
    var g1 := SetSon(g, d, Son(g, d).(color := Black));
    assert InOrder(Son(g1, d)) == InOrder(Son(g, d));
    assert InOrder(g1) == InOrder(g);
  }

  lemma {:induction false} FinishInOrder(R: Tree, id: bool, top: bool)
    requires R.Node? && Son(R, !id).Node? && (top || Son(Son(R, !id), !id).Node?)
    ensures InOrder(Finish(R, id, top)) == InOrder(R)
  {
    var g := Son(R, !id).(color := Red);
    var R1 := SetSon(R, !id, g);
    assert InOrder(R1) == InOrder(R);
    if !top {
      assert Son(g, !id) == Son(Son(R, !id), !id);
      var g2 := SetSon(g, !id, Son(g, !id).(color := Black));
      assert InOrder(g2) == InOrder(g);
    }
  }

  /** The end of `rebalance_case` keeps the values and their order. */
  lemma {:induction false} OuterInOrder(T: Tree, P: seq<bool>, fixed: bool)
    requires |P| >= 2 && At(T, P).Node? && Ordered(T) && Outer(T, P, fixed).Some?
    ensures InOrder(Outer(T, P, fixed).value) == InOrder(T)
  {
    Lineage(T, P);
    var gq, id := P[..|P| - 2], P[|P| - 1];
    var G := At(T, gq);
    assert P[..|P| - 1] == gq + [P[|P| - 2]];
    AtAppend(T, gq, P[|P| - 2]);
    var R := Rotate(G, id, fixed);
    RotateInOrder(G, id, fixed);
    FinishInOrder(R, id, P[|P| - 2] == id);
    if gq != [] {
      ParentPicksSlot(T, gq);
    }
    SameInOrder(T, gq, Finish(R, id, P[|P| - 2] == id));
  }

  /** `rebalance_case` keeps the values and their order. */
  lemma {:induction false} RebalanceInOrder(T: Tree, p: seq<bool>, fixed: bool)
    requires |p| >= 2 && At(T, p).Node? && Ordered(T) && RebalanceCase(T, p, fixed).Some?
    ensures InOrder(RebalanceCase(T, p, fixed).value) == InOrder(T)
  {
    Lineage(T, p);
    var q, gq := p[..|p| - 1], p[..|p| - 2];
    var G := At(T, gq);
    var d, e := p[|p| - 2], p[|p| - 1];
    var inner :=
      if fixed then d != e
      else if G.left.Node? then !d && e
      else if G.right.Node? then d && !e
      else false;
    if !inner {
      OuterInOrder(T, p, fixed);
    } else {
      RotateAtInOrder(T, q, e, fixed);
      InnerRotated(T, q, e, fixed);
      OuterInOrder(RotateAt(T, q, e, fixed).value, HangPath(T, q) + [!e], fixed);
    }
  }

  /** Whatever `update` ends with keeps the values and their order, as
      written or corrected. */
  lemma {:induction false} FixInOrder(T: Tree, p: seq<bool>, fixed: bool)
    requires At(T, p).Node? && Ordered(T) && Fix(T, p, fixed).Some?
    ensures InOrder(Fix(T, p, fixed).value) == InOrder(T)
    decreases |p|
  {
    Lineage(T, p);
    if p != [] {
      var q := p[..|p| - 1];
      var par := At(T, q);
      if par.color == Red && par.linked && q != [] {
        var gq := p[..|p| - 2];
        var g := At(T, gq);
        var k := g.data > par.data;
        if GetColor(Son(g, k)) == Red {
          assert q == gq + [p[|p| - 2]];
          AtAppend(T, gq, p[|p| - 2]);
          var R := Recolor(g, p[|p| - 2], k);
          assert |p| >= 3 ==> gq[..|gq| - 1] == p[..|p| - 3];
          AtReplace(T, gq, R);
          RecolorInOrder(g, p[|p| - 2], k);
          SameInOrder(T, gq, R);
          FixInOrder(ReplaceAt(T, gq, R), gq, fixed);
        } else {
          RebalanceInOrder(T, p, fixed);
        }
      }
    }
  }

  // The red-black invariants.

  /** Storing a subtree as black-high as the one it replaces, and BLACK
      unless that one was RED, keeps the invariants, the black height and
      the root's colour. */
  lemma {:induction false} ReplacedProper(O: Tree, g: seq<bool>, R: Tree)
    requires Proper(O) && AllLinked(O) && Proper(R) && AllLinked(R)
    requires BlackHeight(R) == BlackHeight(At(O, g))
    requires GetColor(R) == Black || GetColor(At(O, g)) == Red
    ensures var T := ReplaceAt(O, g, R);
      Proper(T) && AllLinked(T) && BlackHeight(T) == BlackHeight(O) &&
      (g != [] ==> GetColor(T) == GetColor(O))
  {
    if g != [] && O.Node? {
      var d := g[0];
      ReplacedProper(Son(O, d), g[1..], R);
      var X := ReplaceAt(Son(O, d), g[1..], R);
      assert g[1..] == [] ==> X == R;
    }
  }

  /** The state of `update` at the node at the end of `s`, after an
      insertion into the red-black tree `O`: the tree is `O` with the
      subtree at `s` replaced by one as black-high, RED at the top with
      BLACK children, whose invariants and parent pointers hold. */
  ghost predicate Pending(O: Tree, T: Tree, s: seq<bool>)
  {
    RedBlack(O) && AllLinked(O) &&
    var S := At(T, s);
    T == ReplaceAt(O, s, S) && S.Node? && S.color == Red && Proper(S) && AllLinked(S) &&
    BlackHeight(S) == BlackHeight(At(O, s))
  }

  /** The new RED leaf starts `update` in that state. */
  lemma {:induction false} LeafPending(t: Tree, x: int)
    requires RedBlack(t) && AllLinked(t) && At(t, SearchPath(t, x)).Nil?
    ensures Pending(t, Grow(t, x), SearchPath(t, x))
  {
    GrowAt(t, x);
  }

  /** Without a parent, the node turns BLACK and the tree is red-black. */
  lemma {:induction false} RootStop(O: Tree, T: Tree)
    requires Pending(O, T, [])
    ensures Fix(T, [], true) == Some(T.(color := Black))
    ensures RedBlack(T.(color := Black)) && AllLinked(T.(color := Black))
  {
  }

  /** The slots around the node of the state and its parent. */
  lemma {:induction false} Around(O: Tree, T: Tree, s: seq<bool>) returns (q: seq<bool>, e: bool, po: Tree)
    requires Pending(O, T, s) && s != []
    ensures q == s[..|s| - 1] && e == s[|s| - 1] && s == q + [e]
    ensures po == At(O, q) && po.Node? && Proper(po) && AllLinked(po)
    ensures At(O, s) == Son(po, e)
    ensures At(T, q) == SetSon(po, e, At(T, s))
    ensures T == ReplaceAt(O, q, SetSon(po, e, At(T, s)))
  {
    q, e := s[..|s| - 1], s[|s| - 1];
    var S := At(T, s);
    assert s == q + [e];
    ReplacedParent(O, s, S);
    po := At(O, q);
    PathStep(O, q, e, S);
    AtKeeps(O, q);
  }

  /** Below a BLACK parent `update` stops, and the tree is red-black. */
  lemma {:induction false} BlackStop(O: Tree, T: Tree, s: seq<bool>)
    requires Pending(O, T, s) && s != [] && At(T, s[..|s| - 1]).Node? && At(T, s[..|s| - 1]).color == Black
    ensures Fix(T, s, true) == Some(T)
    ensures RedBlack(T) && AllLinked(T)
  {
    var q, e, po := Around(O, T, s);
    var par := SetSon(po, e, At(T, s));
    assert BlackHeight(par.left) == BlackHeight(par.right);
    ReplacedProper(O, q, par);
  }

  /** The slots around the node of the state, its RED parent and its
      grandparent, which is BLACK; the uncle is the grandparent's other
      child. */
  lemma {:induction false} RedParent(O: Tree, T: Tree, s: seq<bool>) returns (q: seq<bool>, gq: seq<bool>, d: bool, e: bool, Go: Tree, po: Tree)
    requires Pending(O, T, s) && Ordered(T) && s != []
    requires At(T, s[..|s| - 1]).Node? && At(T, s[..|s| - 1]).color == Red
    ensures |s| >= 2 && q == s[..|s| - 1] && gq == s[..|s| - 2] && q == gq + [d] && s == q + [e]
    ensures gq == [] || At(O, gq[..|gq| - 1]).Node?
    ensures Go == At(O, gq) && Go.Node? && Proper(Go) && AllLinked(Go) && Go.color == Black
    ensures po == Son(Go, d) && po.Node? && po.color == Red && Proper(po) && AllLinked(po)
    ensures At(O, s) == Son(po, e)
    ensures At(T, q) == SetSon(po, e, At(T, s))
    ensures At(T, gq) == SetSon(Go, d, At(T, q))
    ensures T == ReplaceAt(O, gq, At(T, gq))
    ensures (At(T, gq).data > At(T, q).data) == !d
  {
    q, e, po := Around(O, T, s);
    var par := SetSon(po, e, At(T, s));
    assert q != [];
    gq, d := q[..|q| - 1], q[|q| - 1];
    assert q == gq + [d] && gq == s[..|s| - 2];
    PrefixNode(O, q, |q| - 1);
    Go := At(O, gq);
    PathStep(O, gq, d, par);
    AtKeeps(O, gq);
    if gq != [] {
      PrefixNode(O, gq, |gq| - 1);
    }
    ParentPicksSlot(T, q);
  }

  /** The colour writes of the red-uncle case give a RED subtree with
      BLACK children, as black-high as the grandparent was. */
  lemma {:induction false} RecolorProper(Go: Tree, po: Tree, S: Tree, d: bool, e: bool)
    requires Go.Node? && Proper(Go) && AllLinked(Go) && Go.color == Black
    requires po == Son(Go, d) && po.Node? && po.color == Red && GetColor(Son(Go, !d)) == Red
    requires S.Node? && S.color == Red && Proper(S) && AllLinked(S) && BlackHeight(S) == BlackHeight(Son(po, e))
    ensures var R := Recolor(SetSon(Go, d, SetSon(po, e, S)), d, !d);
      R.Node? && R.color == Red && Proper(R) && AllLinked(R) && BlackHeight(R) == BlackHeight(Go)
  {
    var p0 := SetSon(po, e, S);
    var par := p0.(color := Black);
    assert Son(Go, !d).Node?;
    var u := Son(Go, !d).(color := Black);
    assert BlackHeight(par.left) == BlackHeight(par.right) == BlackHeight(po.left);
    assert BlackHeight(u) == BlackHeight(Son(Go, !d)) + 1;
    var R := Recolor(SetSon(Go, d, SetSon(po, e, S)), d, !d);
    if d {
      assert R.right == par && R.left == u;
    } else {
      assert R.left == par && R.right == u;
    }
  }

  /** The red-uncle case: `update` goes on from the grandparent, in the
      same state two levels up. */
  lemma {:induction false} RedUncleStep(O: Tree, T: Tree, s: seq<bool>, q: seq<bool>, gq: seq<bool>, d: bool, e: bool, Go: Tree, po: Tree) returns (T1: Tree)
    requires Pending(O, T, s) && Ordered(T)
    requires |s| >= 2 && q == s[..|s| - 1] && gq == s[..|s| - 2] && q == gq + [d] && s == q + [e]
    requires gq == [] || At(O, gq[..|gq| - 1]).Node?
    requires Go == At(O, gq) && Go.Node? && Proper(Go) && AllLinked(Go) && Go.color == Black
    requires po == Son(Go, d) && po.Node? && po.color == Red && Proper(po) && AllLinked(po)
    requires At(O, s) == Son(po, e)
    requires At(T, q) == SetSon(po, e, At(T, s))
    requires At(T, gq) == SetSon(Go, d, At(T, q))
    requires T == ReplaceAt(O, gq, At(T, gq))
    requires (At(T, gq).data > At(T, q).data) == !d
    requires GetColor(Son(Go, !d)) == Red
    ensures At(T1, gq).Node? && Fix(T, s, true) == Fix(T1, gq, true)
    ensures Pending(O, T1, gq) && Ordered(T1)
  {
    var G := At(T, gq);
    var R := Recolor(G, d, !d);
    T1 := ReplaceAt(T, gq, R);
    assert s[|s| - 2] == d;
    RedUncleFix(T, s, true);
    ReplaceSame(O, gq, G, R);
    AtReplace(O, gq, R);
    RecolorProper(Go, po, At(T, s), d, e);
    RecolorInOrder(G, d, !d);
    SameInOrder(T, gq, R);
  }

  /** The end of `rebalance_case` with the node on the same side of its
      parent as the parent of the grandparent at `gq`. */
  lemma {:induction false} OuterAt(O: Tree, gq: seq<bool>, G: Tree, d: bool, fixed: bool)
    requires gq == [] || At(O, gq[..|gq| - 1]).Node?
    requires G.Node? && G.linked && Son(G, d).Node? && Son(Son(G, d), d).Node?
    requires Ordered(ReplaceAt(O, gq, G))
    ensures At(ReplaceAt(O, gq, G), gq + [d, d]).Node?
    ensures Outer(ReplaceAt(O, gq, G), gq + [d, d], fixed) ==
      Some(ReplaceAt(O, gq, Finish(Rotate(G, d, fixed), d, true)))
  {
    var T := ReplaceAt(O, gq, G);
    var P := gq + [d, d];
    AtReplace(O, gq, G);
    AtAppend(T, gq, d);
    assert P == (gq + [d]) + [d];
    AtAppend(T, gq + [d], d);
    assert P[..|P| - 2] == gq && P[..|P| - 1] == gq + [d] && P[|P| - 1] == d && P[|P| - 2] == d;
    var R := Finish(Rotate(G, d, fixed), d, true);
    if gq != [] {
      ParentPicksSlot(T, gq);
    }
    ReplaceSame(O, gq, G, R);
  }

  /** The single rotation of the outer case gives a BLACK subtree with RED
      children, as black-high as the grandparent was. */
  lemma {:induction false} OuterShape(Go: Tree, po: Tree, S: Tree, d: bool)
    requires Go.Node? && Proper(Go) && AllLinked(Go) && Go.color == Black
    requires po == Son(Go, d) && po.Node? && po.color == Red && GetColor(Son(Go, !d)) == Black
    requires S.Node? && S.color == Red && Proper(S) && AllLinked(S) && BlackHeight(S) == BlackHeight(Son(po, d))
    ensures var R := Finish(Rotate(SetSon(Go, d, SetSon(po, d, S)), d, true), d, true);
      R.Node? && R.color == Black && Proper(R) && AllLinked(R) && BlackHeight(R) == BlackHeight(Go)
  {
    var w := Relink(Son(po, !d));
    var g0 := SetSon(Go, d, w);
    var g := g0.(linked := true, color := Red);
    var R := Finish(Rotate(SetSon(Go, d, SetSon(po, d, S)), d, true), d, true);
    assert BlackHeight(po) == BlackHeight(po.left) == BlackHeight(po.right);
    assert BlackHeight(Go.left) == BlackHeight(Go.right) == BlackHeight(po);
    if d {
      assert R.right == S && R.left == g;
    } else {
      assert R.left == S && R.right == g;
    }
  }

  /** The double rotation of the inner case gives a BLACK subtree with RED
      children, as black-high as the grandparent was. */
  lemma {:induction false} InnerShape(Go: Tree, po: Tree, S: Tree, d: bool)
    requires Go.Node? && Proper(Go) && AllLinked(Go) && Go.color == Black
    requires po == Son(Go, d) && po.Node? && po.color == Red && GetColor(Son(Go, !d)) == Black
    requires S.Node? && S.color == Red && Proper(S) && AllLinked(S) && BlackHeight(S) == BlackHeight(Son(po, !d))
    ensures var R := Finish(Rotate(SetSon(Go, d, Rotate(SetSon(po, !d, S), !d, true)), d, true), d, true);
      R.Node? && R.color == Black && Proper(R) && AllLinked(R) && BlackHeight(R) == BlackHeight(Go)
  {
    var n0 := SetSon(po, !d, Relink(Son(S, d)));
    var n1 := n0.(linked := true);
    var m0 := SetSon(Go, d, Relink(Son(S, !d)));
    var n2 := m0.(linked := true, color := Red);
    var R := Finish(Rotate(SetSon(Go, d, Rotate(SetSon(po, !d, S), !d, true)), d, true), d, true);
    assert BlackHeight(po) == BlackHeight(po.left) == BlackHeight(po.right);
    assert BlackHeight(Go.left) == BlackHeight(Go.right) == BlackHeight(po);
    assert BlackHeight(S.left) == BlackHeight(S.right) == BlackHeight(po.left);
    if d {
      assert R.right == n1 && R.left == n2;
    } else {
      assert R.left == n1 && R.right == n2;
    }
  }

  /** Corrected `rebalance_case` rotates only the grandparent when the
      node and its parent hang on the same side. */
  lemma {:induction false} SameSides(T: Tree, P: seq<bool>)
    requires |P| >= 2 && At(T, P).Node? && P[|P| - 2] == P[|P| - 1]
    ensures RebalanceCase(T, P, true) == Outer(T, P, true)
  {
  }

  /** Corrected `rebalance_case` rotates the parent first when the node
      and its parent hang on opposite sides. */
  lemma {:induction false} OppositeSides(T: Tree, P: seq<bool>)
    requires |P| >= 2 && At(T, P).Node? && At(T, P[..|P| - 1]).Node? && P[|P| - 2] != P[|P| - 1]
    requires RotateAt(T, P[..|P| - 1], P[|P| - 1], true).Some?
    ensures var q, e := P[..|P| - 1], P[|P| - 1];
      At(RotateAt(T, q, e, true).value, HangPath(T, q) + [!e]).Node? &&
      RebalanceCase(T, P, true) == Outer(RotateAt(T, q, e, true).value, HangPath(T, q) + [!e], true)
  {
    InnerRotated(T, P[..|P| - 1], P[|P| - 1], true);
  }

  /** The BLACK-uncle case with the node on the same side of its parent
      as the parent of the grandparent: one rotation at the grandparent. */
  lemma {:induction false} OuterStep(O: Tree, T: Tree, gq: seq<bool>, d: bool, Go: Tree, po: Tree, S: Tree)
      returns (R: Tree)
    requires gq == [] || At(O, gq[..|gq| - 1]).Node?
    requires Go == At(O, gq) && Go.Node? && Proper(Go) && AllLinked(Go) && Go.color == Black
    requires po == Son(Go, d) && po.Node? && po.color == Red && GetColor(Son(Go, !d)) == Black
    requires S.Node? && S.color == Red && Proper(S) && AllLinked(S) && BlackHeight(S) == BlackHeight(Son(po, d))
    requires Ordered(T) && T == ReplaceAt(O, gq, SetSon(Go, d, SetSon(po, d, S)))
    ensures At(T, gq + [d, d]).Node? && Outer(T, gq + [d, d], true) == Some(ReplaceAt(O, gq, R))
    ensures R.Node? && R.color == Black && Proper(R) && AllLinked(R) && BlackHeight(R) == BlackHeight(Go)
  {
    var G := SetSon(Go, d, SetSon(po, d, S));
    OuterAt(O, gq, G, d, true);
    OuterShape(Go, po, S, d);
    R := Finish(Rotate(G, d, true), d, true);
  }

  /** The BLACK-uncle case with the node on the inner side: a rotation at
      the parent, then one at the grandparent. */
  lemma {:induction false} InnerStep(O: Tree, T: Tree, gq: seq<bool>, d: bool, Go: Tree, po: Tree, S: Tree)
      returns (R: Tree)
    requires Ordered(T)
    requires gq == [] || At(O, gq[..|gq| - 1]).Node?
    requires Go == At(O, gq) && Go.Node? && Proper(Go) && AllLinked(Go) && Go.color == Black
    requires po == Son(Go, d) && po.Node? && po.color == Red && GetColor(Son(Go, !d)) == Black
    requires S.Node? && S.color == Red && Proper(S) && AllLinked(S) && BlackHeight(S) == BlackHeight(Son(po, !d))
    requires T == ReplaceAt(O, gq, SetSon(Go, d, SetSon(po, !d, S)))
    ensures At(T, gq + [d]).Node? && RotateAt(T, gq + [d], !d, true).Some?
    ensures HangPath(T, gq + [d]) + [d] == gq + [d, d]
    ensures At(RotateAt(T, gq + [d], !d, true).value, gq + [d, d]).Node?
    ensures Outer(RotateAt(T, gq + [d], !d, true).value, gq + [d, d], true) == Some(ReplaceAt(O, gq, R))
    ensures R.Node? && R.color == Black && Proper(R) && AllLinked(R) && BlackHeight(R) == BlackHeight(Go)
  {
    var q, par := gq + [d], SetSon(po, !d, S);
    var r1 := Rotate(par, !d, true);
    assert po.linked && Son(par, !d) == S by {
      assert AllLinked(po);
    }
    AtReplace(O, gq, SetSon(Go, d, par));
    AtAppend(T, gq, d);
    PathStep(O, gq, d, par);
    PathStep(O, gq, d, r1);
    AtAppend(T, q, !d);
    assert q + [!d] == gq + [d, !d];
    ReplaceSame(O, q, par, r1);
    ParentPicksSlot(T, q);
    RotateAtInOrder(T, q, !d, true);
    assert HangPath(T, q) + [d] == gq + [d, d];
    OuterAt(O, gq, SetSon(Go, d, r1), d, true);
    InnerShape(Go, po, S, d);
    R := Finish(Rotate(SetSon(Go, d, r1), d, true), d, true);
  }

  /** `update` at a node with a RED parent and a BLACK uncle is
      `rebalance_case`. */
  lemma {:induction false} BlackUncleFix(T: Tree, s: seq<bool>, fixed: bool)
    requires |s| >= 2 && At(T, s).Node? && At(T, s).linked
    requires At(T, s[..|s| - 1]).Node? && At(T, s[..|s| - 1]).color == Red && At(T, s[..|s| - 1]).linked
    requires At(T, s[..|s| - 2]).Node?
    requires var g, par := At(T, s[..|s| - 2]), At(T, s[..|s| - 1]); GetColor(Son(g, g.data > par.data)) == Black
    ensures Fix(T, s, fixed) == RebalanceCase(T, s, fixed)
  {
  }

  /** `update` at a node with a RED parent and a RED uncle recolours and
      goes on from the grandparent. */
  lemma {:induction false} RedUncleFix(T: Tree, s: seq<bool>, fixed: bool)
    requires |s| >= 2 && At(T, s).Node? && At(T, s).linked
    requires At(T, s[..|s| - 1]).Node? && At(T, s[..|s| - 1]).color == Red && At(T, s[..|s| - 1]).linked
    requires At(T, s[..|s| - 2]).Node?
    requires var g, par := At(T, s[..|s| - 2]), At(T, s[..|s| - 1]); GetColor(Son(g, g.data > par.data)) == Red
    ensures var gq := s[..|s| - 2];
      var g, par := At(T, gq), At(T, s[..|s| - 1]);
      Son(g, s[|s| - 2]).Node? &&
      var T1 := ReplaceAt(T, gq, Recolor(g, s[|s| - 2], g.data > par.data));
      At(T1, gq).Node? && Fix(T, s, fixed) == Fix(T1, gq, fixed)
  {
    var gq := s[..|s| - 2];
    assert s[..|s| - 1] == gq + [s[|s| - 2]];
    AtAppend(T, gq, s[|s| - 2]);
    Lineage(T, s);
    assert |s| >= 3 ==> gq[..|gq| - 1] == s[..|s| - 3];
    AtReplace(T, gq, Recolor(At(T, gq), s[|s| - 2], At(T, gq).data > At(T, s[..|s| - 1]).data));
  }

  /** The BLACK-uncle case: `rebalance_case` ends the walk with the
      subtree of the grandparent rotated into a BLACK one, and the tree is
      red-black. */
  lemma {:induction false} RotateStep(O: Tree, T: Tree, s: seq<bool>, q: seq<bool>, gq: seq<bool>, d: bool, e: bool, Go: Tree, po: Tree)
    requires Pending(O, T, s) && Ordered(T)
    requires |s| >= 2 && q == s[..|s| - 1] && gq == s[..|s| - 2] && q == gq + [d] && s == q + [e]
    requires gq == [] || At(O, gq[..|gq| - 1]).Node?
    requires Go == At(O, gq) && Go.Node? && Proper(Go) && AllLinked(Go) && Go.color == Black
    requires po == Son(Go, d) && po.Node? && po.color == Red && Proper(po) && AllLinked(po)
    requires At(O, s) == Son(po, e)
    requires At(T, q) == SetSon(po, e, At(T, s))
    requires At(T, gq) == SetSon(Go, d, At(T, q))
    requires T == ReplaceAt(O, gq, At(T, gq))
    requires (At(T, gq).data > At(T, q).data) == !d
    requires GetColor(Son(Go, !d)) == Black
    ensures Fix(T, s, true).Some?
    ensures RedBlack(Fix(T, s, true).value) && AllLinked(Fix(T, s, true).value)
  {
    BlackUncleFix(T, s, true);
    var S := At(T, s);
    var R;
    if d == e {
      assert s == gq + [d, d];
      SameSides(T, s);
      R := OuterStep(O, T, gq, d, Go, po, S);
    } else {
      assert s == gq + [d, !d];
      R := InnerStep(O, T, gq, d, Go, po, S);
      OppositeSides(T, s);
    }
    assert Fix(T, s, true) == Some(ReplaceAt(O, gq, R));
    ReplacedProper(O, gq, R);
    assert gq == [] ==> ReplaceAt(O, gq, R) == R;
  }

  /** From any state of an insertion, corrected `update` ends without
      following a null or stale pointer and leaves a red-black tree whose
      parent pointers are all right. */
  lemma {:induction false} FixRedBlack(O: Tree, T: Tree, s: seq<bool>)
    requires Pending(O, T, s) && Ordered(T)
    ensures Fix(T, s, true).Some?
    ensures RedBlack(Fix(T, s, true).value) && AllLinked(Fix(T, s, true).value)
    decreases |s|
  {
    Lineage(T, s);
    if s == [] {
      RootStop(O, T);
    } else if At(T, s[..|s| - 1]).color == Black {
      BlackStop(O, T, s);
    } else {
      var q, gq, d, e, Go, po := RedParent(O, T, s);
      if GetColor(Son(Go, !d)) == Red {
        var T1 := RedUncleStep(O, T, s, q, gq, d, e, Go, po);
        FixRedBlack(O, T1, gq);
      } else {
        RotateStep(O, T, s, q, gq, d, e, Go, po);
      }
    }
  }

  // `add` on the tree value.

  /** `add`: unchanged when the search meets `x`; otherwise a new RED leaf
      in the slot the search ends on, then `update` from it. */
  function Added(t: Tree, x: int, fixed: bool): Option<Tree>
  {
    var P := SearchPath(t, x);
    if At(t, P).Node? then Some(t)
    else
      GrowAt(t, x);
      Fix(Grow(t, x), P, fixed)
  }

  /** `add` inserts `x` into the in-order sequence of a search tree
      whenever it completes, as written or corrected, and keeps it a search
      tree. */
  lemma {:induction false} AddedInOrder(t: Tree, x: int, fixed: bool)
    requires Ordered(t) && Added(t, x, fixed).Some?
    ensures InOrder(Added(t, x, fixed).value) == Insert(InOrder(t), x)
    ensures Ordered(Added(t, x, fixed).value)
  {
    var P := SearchPath(t, x);
    SearchPathEnds(t, x);
    InsertSpec(InOrder(t), x);
    if At(t, P).Node? {
      InsertPresent(InOrder(t), x);
    } else {
      GrowAt(t, x);
      GrowInOrder(t, x);
      FixInOrder(Grow(t, x), P, fixed);
    }
  }

  /** In a red-black tree whose parent pointers are all right, corrected
      `add` completes and leaves a red-black tree with a BLACK root and
      right parent pointers. */
  lemma {:induction false} AddedRedBlack(t: Tree, x: int)
    requires Ordered(t) && RedBlack(t) && AllLinked(t)
    ensures Added(t, x, true).Some?
    ensures RedBlack(Added(t, x, true).value) && AllLinked(Added(t, x, true).value)
  {
    var P := SearchPath(t, x);
    if At(t, P).Nil? {
      GrowInOrder(t, x);
      InsertSpec(InOrder(t), x);
      LeafPending(t, x);
      FixRedBlack(t, Grow(t, x), P);
    }
  }

  class RedBlackTree {
    var root: Tree

    /** A search tree, whatever `add` did to the colours. */
    ghost predicate Valid()
      reads this
    {
      Ordered(root)
    }

    /** The red-black invariants hold and every parent pointer is right. */
    ghost predicate Balanced()
      reads this
    {
      RedBlack(root) && AllLinked(root)
    }

    /** The values in order. */
    function Contents(): seq<int>
      reads this
    {
      InOrder(root)
    }

    constructor ()
      ensures Valid() && Balanced() && root == Nil
    {
      root := Nil;
    }

    /** `reset`: every node is freed and the tree is empty. */
    method Reset()
      modifies this
      ensures Valid() && Balanced() && Contents() == []
    {
      root := Nil;
    }

    /** The private `find`: walks from the root slot, right when the node's
        value is smaller than `x`, and stops on the node holding `x` or on
        the empty slot where it would go. */
    method Find(x: int) returns (found: bool, path: seq<bool>)
      ensures path == SearchPath(root, x)
      ensures found <==> At(root, path).Node?
      ensures found ==> At(root, path).data == x
      ensures Valid() ==> (found <==> x in Contents())
    {
      var t := root;
      path := [];
      while t.Node?
        invariant t == At(root, path)
        invariant SearchPath(root, x) == path + SearchPath(t, x)
        decreases t
      {
        if t.data == x {
          assert path + [] == path;
          found := true;
          break;
        }
        var d := t.data < x;
        AtAppend(root, path, d);
        SearchStep(t, x, path);
        path, t := path + [d], Son(t, d);
      }
      if t.Nil? {
        assert path + [] == path;
        found := false;
      }
      if Valid() {
        SearchPathEnds(root, x);
      }
    }

    /** `rotate_left` (`id` true) and `rotate_right` of the node at the end
        of `q`: its child on side `id` takes its place in the slot its
        parent picks by value. */
    method RotateLeft(q: seq<bool>, fixed: bool)
      requires At(root, q).Node? && RotateAt(root, q, true, fixed).Some?
      modifies this
      ensures root == old(RotateAt(root, q, true, fixed)).value
    {
      var n := At(root, q);
      root := Hang(root, q, Rotate(n, true, fixed));
    }

    method RotateRight(q: seq<bool>, fixed: bool)
      requires At(root, q).Node? && RotateAt(root, q, false, fixed).Some?
      modifies this
      ensures root == old(RotateAt(root, q, false, fixed)).value
    {
      var n := At(root, q);
      root := Hang(root, q, Rotate(n, false, fixed));
    }

    /** `rebalance_case` for the node at the end of `p`: the inner
        rotation of the parent when it is due, then `Lift`. */
    method Rebalance(p: seq<bool>, fixed: bool)
      requires |p| >= 2 && At(root, p).Node? && RebalanceCase(root, p, fixed).Some?
      modifies this
      ensures root == old(RebalanceCase(root, p, fixed)).value
    {
      Lineage(root, p);
      var q, G := p[..|p| - 1], At(root, p[..|p| - 2]);
      var d, e := p[|p| - 2], p[|p| - 1];
      var inner :=
        if fixed then d != e
        else if G.left.Node? then !d && e
        else if G.right.Node? then d && !e
        else false;
      if inner {
        InnerRotated(root, q, e, fixed);
        var P := HangPath(root, q) + [!e];
        if e {
          RotateLeft(q, fixed);
        } else {
          RotateRight(q, fixed);
        }
        Lift(P, fixed);
      } else {
        Lift(p, fixed);
      }
    }

    /** The end of `rebalance_case` for the node at the end of `P`: the
        grandparent rotates right when the node is a left child and left
        otherwise; then the colour writes of `Finish`. */
    method Lift(P: seq<bool>, fixed: bool)
      requires |P| >= 2 && At(root, P).Node? && Outer(root, P, fixed).Some?
      modifies this
      ensures root == old(Outer(root, P, fixed)).value
    {
      Lineage(root, P);
      var gp, id := P[..|P| - 2], P[|P| - 1];
      assert P[..|P| - 1] == gp + [P[|P| - 2]];
      AtAppend(root, gp, P[|P| - 2]);
      ghost var T1 := root;
      var h := HangPath(root, gp);
      var R := Rotate(At(root, gp), id, fixed);
      var F := Finish(R, id, P[|P| - 2] == id);
      if id {
        RotateLeft(gp, fixed);
      } else {
        RotateRight(gp, fixed);
      }
      ReplaceSame(T1, h, R, F);
      root := ReplaceAt(root, h, F);
    }

    /** `update` from the node at the end of `p`: the root turns BLACK; a
        BLACK parent ends the walk; a RED uncle turns BLACK with the parent,
        the grandparent turns RED and the walk goes on from it; otherwise
        `rebalance_case`. */
    method Update(p: seq<bool>, fixed: bool)
      requires At(root, p).Node? && Fix(root, p, fixed).Some?
      modifies this
      ensures root == old(Fix(root, p, fixed)).value
      decreases |p|
    {
      Lineage(root, p);
      if p == [] {
        root := root.(color := Black);
        return;
      }
      var q := p[..|p| - 1];
      var par := At(root, q);
      if par.color == Black || q == [] {
        return;
      }
      var gq := p[..|p| - 2];
      var g := At(root, gq);
      var k := g.data > par.data;
      if GetColor(Son(g, k)) == Red {
        assert p[..|p| - 1] == gq + [p[|p| - 2]];
        AtAppend(root, gq, p[|p| - 2]);
        assert |p| >= 3 ==> gq[..|gq| - 1] == p[..|p| - 3];
        AtReplace(root, gq, Recolor(g, p[|p| - 2], k));
        root := ReplaceAt(root, gq, Recolor(g, p[|p| - 2], k));
        Update(gq, fixed);
      } else {
        Rebalance(p, fixed);
      }
    }

    /** `add` as evidently intended: false and nothing changes when `x` is
        stored; otherwise `x` joins the values in order, and a red-black
        tree with right parent pointers stays so. */
    method Add(x: int) returns (added: bool)
      requires Valid() && Added(root, x, true).Some?
      modifies this
      ensures root == old(Added(root, x, true)).value
      ensures added <==> x !in old(Contents())
      ensures Valid() && Contents() == Insert(old(Contents()), x)
      ensures old(Balanced()) ==> Balanced()
    {
      ghost var t := root;
      AddedInOrder(t, x, true);
      if Balanced() {
        AddedRedBlack(t, x);
      }
      added := AddWith(x, true);
    }

    /** `add` as written: the inner rotation is chosen by whether the
        grandparent has a left child, and a rotation leaves the parent
        pointer of the subtree it hands over unchanged. */
    method AddAsWritten(x: int) returns (added: bool)
      requires Valid() && Added(root, x, false).Some?
      modifies this
      ensures root == old(Added(root, x, false)).value
      ensures added <==> x !in old(Contents())
      ensures Valid() && Contents() == Insert(old(Contents()), x)
    {
      AddedInOrder(root, x, false);
      added := AddWith(x, false);
    }

    /** The body both versions of `add` share. */
    method AddWith(x: int, fixed: bool) returns (added: bool)
      requires Valid() && Added(root, x, fixed).Some?
      modifies this
      ensures root == old(Added(root, x, fixed)).value
      ensures added <==> x !in old(Contents())
    {
      var found, path := Find(x);
      if found {
        return false;
      }
      GrowAt(root, x);
      root := ReplaceAt(root, path, Leaf(x));
      Update(path, fixed);
      added := true;
    }
  }

  // Two trees `add` reaches, where the code as written goes wrong.

  /** The slots along a path, one step at a time. */
  lemma {:induction false} Walk(t: Tree, p: seq<bool>)
    ensures forall k :: 0 <= k < |p| && At(t, p[..k]).Node? ==> At(t, p[..k + 1]) == Son(At(t, p[..k]), p[k])
  {
    forall k | 0 <= k < |p| && At(t, p[..k]).Node?
      ensures At(t, p[..k + 1]) == Son(At(t, p[..k]), p[k])
    {
      assert p[..k + 1] == p[..k] + [p[k]];
      AtAppend(t, p[..k], p[k]);
    }
  }

  /** The tree after adding 1, 2, 3, 7, 8, 4 and 5. */
  function SevenAdds(): Tree
  {
    var n3, n5 := Leaf(3), Leaf(5);
    var n4 := Node(Black, 4, true, n3, n5);
    var n7 := Node(Red, 7, true, n4, Node(Black, 8, true, Nil, Nil));
    Node(Black, 2, true, Node(Black, 1, true, Nil, Nil), n7)
  }

  /** That tree is a red-black search tree with right parent pointers. */
  lemma {:induction false} SevenAddsValid()
    ensures RedBlack(SevenAdds()) && AllLinked(SevenAdds()) && Ordered(SevenAdds())
  {
    assert InOrder(SevenAdds()) == [1, 2, 3, 4, 5, 7, 8];
  }

  /** Adding 6 there as written: the new leaf's parent 5 and uncle 3 are
      RED, so they turn BLACK and 4 RED; the walk goes on from 4, whose
      parent 7 is RED and uncle 1 BLACK, so `rebalance_case` runs at 4.
      Its grandparent 2 has a left child and 4 is not that child's right
      child, so no inner rotation is made, and 2 rotates right, lifting 1.
      The two sides of 2 then differ in black height. */
  lemma {:induction false} LeftUncleBreaks()
    ensures RedBlack(SevenAdds()) && AllLinked(SevenAdds()) && Ordered(SevenAdds())
    ensures Added(SevenAdds(), 6, false) == Some(SixAsWritten())
    ensures !Proper(SixAsWritten())
  {
    SevenAddsValid();
    SixGrows();
    SixRecolours();
    SixRotates();
    var X := SixAsWritten();
    assert BlackHeight(X.right.left) != BlackHeight(X.right.right);
  }

  /** The tree after the new leaf 6. */
  function SixGrown(): Tree
  {
    var n5 := Node(Red, 5, true, Nil, Leaf(6));
    Node(Black, 2, true, Node(Black, 1, true, Nil, Nil),
      Node(Red, 7, true, Node(Black, 4, true, Leaf(3), n5), Node(Black, 8, true, Nil, Nil)))
  }

  /** The tree after the recolouring around 4. */
  function SixRecoloured(): Tree
  {
    var n4 := Node(Red, 4, true, Node(Black, 3, true, Nil, Nil), Node(Black, 5, true, Nil, Leaf(6)));
    Node(Black, 2, true, Node(Black, 1, true, Nil, Nil), Node(Red, 7, true, n4, Node(Black, 8, true, Nil, Nil)))
  }

  /** The tree `add(6)` leaves as written. */
  function SixAsWritten(): Tree
  {
    var n4 := Node(Red, 4, true, Node(Black, 3, true, Nil, Nil), Node(Black, 5, true, Nil, Leaf(6)));
    var n7 := Node(Black, 7, true, n4, Node(Black, 8, true, Nil, Nil));
    Node(Black, 1, true, Nil, Node(Red, 2, true, Nil, n7))
  }

  lemma {:induction false} SixGrows()
    ensures At(SixGrown(), [true, false, true, true]).Node?
    ensures Added(SevenAdds(), 6, false) == Fix(SixGrown(), [true, false, true, true], false)
  {
    var P := [true, false, true, true];
    assert SearchPath(SevenAdds(), 6) == P;
    assert At(SevenAdds(), P) == Nil && Grow(SevenAdds(), 6) == SixGrown();
  }

  lemma {:induction false} SixRecolours()
    ensures At(SixGrown(), [true, false, true, true]).Node? && At(SixRecoloured(), [true, false]).Node?
    ensures Fix(SixGrown(), [true, false, true, true], false) == Fix(SixRecoloured(), [true, false], false)
  {
    var T, P := SixGrown(), [true, false, true, true];
    assert P[..3] == [true, false, true] && P[..2] == [true, false];
    Walk(T, P);
    RedUncleFix(T, P, false);
    assert ReplaceAt(T, [true, false], Recolor(At(T, [true, false]), true, false)) == SixRecoloured();
  }

  lemma {:induction false} SixRotates()
    ensures At(SixRecoloured(), [true, false]).Node?
    ensures Fix(SixRecoloured(), [true, false], false) == Some(SixAsWritten())
  {
    var T := SixRecoloured();
    assert [true, false][..1] == [true] && [true, false][..0] == [];
    Walk(T, [true, false]);
    BlackUncleFix(T, [true, false], false);
  }

  /** The tree after adding 1 to 7 in order. */
  function SevenInOrder(): Tree
  {
    var n6 := Node(Black, 6, true, Leaf(5), Leaf(7));
    var n4 := Node(Red, 4, true, Node(Black, 3, true, Nil, Nil), n6);
    Node(Black, 2, true, Node(Black, 1, true, Nil, Nil), n4)
  }

  /** That tree is a red-black search tree with right parent pointers. */
  lemma {:induction false} SevenInOrderValid()
    ensures RedBlack(SevenInOrder()) && AllLinked(SevenInOrder()) && Ordered(SevenInOrder())
  {
    assert InOrder(SevenInOrder()) == [1, 2, 3, 4, 5, 6, 7];
  }

  /** Adding 8 there as written: the new leaf's parent 7 and uncle 5 are
      RED, so they turn BLACK and 6 RED; the walk goes on from 6, whose
      parent 4 is RED and uncle 1 BLACK, and the root 2 rotates left.  The
      tree is red-black, but 3, handed from 4 to 2, still names 4 as its
      parent. */
  lemma {:induction false} StaleAfterRotation()
    ensures RedBlack(SevenInOrder()) && AllLinked(SevenInOrder()) && Ordered(SevenInOrder())
    ensures Added(SevenInOrder(), 8, false) == Some(EightAsWritten())
    ensures RedBlack(EightAsWritten()) && !AllLinked(EightAsWritten())
    ensures At(EightAsWritten(), [false, true]).Node? && !At(EightAsWritten(), [false, true]).linked
  {
    SevenInOrderValid();
    EightGrows();
    EightRecolours();
    EightRotates();
    EightAsWrittenRedBlack();
  }

  lemma {:induction false} EightAsWrittenRedBlack()
    ensures RedBlack(EightAsWritten())
  {
    var X := EightAsWritten();
    assert Proper(X.left) && Proper(X.right.left);
    assert BlackHeight(X.right.right) == 1 && Proper(X.right.right);
  }

  /** The tree after the new leaf 8. */
  function EightGrown(): Tree
  {
    var n6 := Node(Black, 6, true, Leaf(5), Node(Red, 7, true, Nil, Leaf(8)));
    Node(Black, 2, true, Node(Black, 1, true, Nil, Nil), Node(Red, 4, true, Node(Black, 3, true, Nil, Nil), n6))
  }

  /** The tree after the recolouring around 6. */
  function EightRecoloured(): Tree
  {
    var n6 := Node(Red, 6, true, Node(Black, 5, true, Nil, Nil), Node(Black, 7, true, Nil, Leaf(8)));
    Node(Black, 2, true, Node(Black, 1, true, Nil, Nil), Node(Red, 4, true, Node(Black, 3, true, Nil, Nil), n6))
  }

  /** The tree `add(8)` leaves as written: 3 is not linked. */
  function EightAsWritten(): Tree
  {
    var n2 := Node(Red, 2, true, Node(Black, 1, true, Nil, Nil), Node(Black, 3, false, Nil, Nil));
    var n6 := Node(Red, 6, true, Node(Black, 5, true, Nil, Nil), Node(Black, 7, true, Nil, Leaf(8)));
    Node(Black, 4, true, n2, n6)
  }

  lemma {:induction false} EightGrows()
    ensures At(EightGrown(), [true, true, true, true]).Node?
    ensures Added(SevenInOrder(), 8, false) == Fix(EightGrown(), [true, true, true, true], false)
  {
    var P := [true, true, true, true];
    assert SearchPath(SevenInOrder(), 8) == P;
    assert At(SevenInOrder(), P) == Nil && Grow(SevenInOrder(), 8) == EightGrown();
  }

  lemma {:induction false} EightRecolours()
    ensures At(EightGrown(), [true, true, true, true]).Node? && At(EightRecoloured(), [true, true]).Node?
    ensures Fix(EightGrown(), [true, true, true, true], false) == Fix(EightRecoloured(), [true, true], false)
  {
    var T, P := EightGrown(), [true, true, true, true];
    assert P[..3] == [true, true, true] && P[..2] == [true, true];
    Walk(T, P);
    RedUncleFix(T, P, false);
    assert ReplaceAt(T, [true, true], Recolor(At(T, [true, true]), true, false)) == EightRecoloured();
  }

  lemma {:induction false} EightRotates()
    ensures At(EightRecoloured(), [true, true]).Node?
    ensures Fix(EightRecoloured(), [true, true], false) == Some(EightAsWritten())
  {
    var T := EightRecoloured();
    assert [true, true][..1] == [true] && [true, true][..0] == [];
    Walk(T, [true, true]);
    BlackUncleFix(T, [true, true], false);
  }
}
