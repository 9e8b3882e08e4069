/** `AVL<int>` of include/AVLTree.hpp.  The tree is held as a value; a slot
    of the source (a `Node**` into `m_root` or a child field) is the path of
    directions that leads to it, `true` for right.  A node keeps its
    `bal_factor`, its value, whether its `parent` pointer still names its
    parent (`rmv` leaves a child it moves up pointing at the deleted node),
    and its two children.  A search goes right when the node's value is
    smaller than the key.

    The class is the tree as evidently intended: `double_rotate` also sets
    the factor of the node it lifts to 0, and an iterator is made at the
    node it is meant to name.  `Climb` with `fixed` false, `AVL.AddAsWritten`,
    `AVL.NextAsWritten` and `AVL.FindIterAsWritten` model the code as it
    stands. */
module AvlTrees {
  import opened Common
  import opened Sorted
  import SimpleBinaryTrees

  datatype Tree = Nil | Node(bal: int, data: int, linked: bool, left: Tree, right: Tree)

  /** `Node::child`: the left child for `false`, the right child for `true`. */
  function Son(t: Tree, id: bool): (s: Tree)
    requires t.Node?
    ensures s < t
  {
    if id then t.right else t.left
  }

  /** The node `t` with its child on side `id` replaced by `s`. */
  function SetSon(t: Tree, id: bool, s: Tree): (t': Tree)
    requires t.Node?
    ensures t'.Node? && t'.data == t.data && t'.bal == t.bal && t'.linked == t.linked
    ensures Son(t', id) == s && Son(t', !id) == Son(t, !id)
  {
    if id then t.(right := s) else t.(left := s)
  }

  /** `new Node(x)` hung under the parent the search found. */
  function Leaf(x: int): Tree
  {
    Node(0, x, true, Nil, Nil)
  }

  function InOrder(t: Tree): seq<int>
  {
    if t.Nil? then [] else InOrder(t.left) + [t.data] + InOrder(t.right)
  }

  /** A search tree: the in-order sequence is strictly ascending. */
  ghost predicate Ordered(t: Tree)
  {
    Ascending(InOrder(t))
  }

  /** The number of nodes on the longest path down, 0 for the empty tree. */
  function Height(t: Tree): nat
  {
    if t.Nil? then 0
    else
      var l, r := Height(t.left), Height(t.right);
      (if l > r then l else r) + 1
  }

  /** Every `bal_factor` is the right height minus the left height, and lies
      in -1..1. */
  ghost predicate Avl(t: Tree)
  {
    t.Node? ==>
      Avl(t.left) && Avl(t.right) &&
      t.bal == Height(t.right) - Height(t.left) && -1 <= t.bal <= 1
  }

  /** Every `parent` field names the node's parent (null at the root). */
  ghost predicate AllLinked(t: Tree)
  {
    t.Node? ==> t.linked && AllLinked(t.left) && AllLinked(t.right)
  }

  /** The subtree a slot holds. */
  function At(t: Tree, p: seq<bool>): Tree
  {
    if p == [] then t else if t.Nil? then Nil else At(Son(t, p[0]), p[1..])
  }

  /** Stores `s` in the slot at path `p`. */
  function ReplaceAt(t: Tree, p: seq<bool>, s: Tree): Tree
  {
    if p == [] then s else if t.Nil? then t else SetSon(t, p[0], ReplaceAt(Son(t, p[0]), p[1..], s))
  }

  /** The slot `find` ends on: the node holding `x` or the empty slot where
      it would go. */
  function SearchPath(t: Tree, x: int): seq<bool>
  {
    if t.Nil? || t.data == x then [] else [t.data < x] + SearchPath(Son(t, t.data < x), x)
  }

  /** The tree with a new leaf `x` in the empty slot the search ends on;
      unchanged when the search meets `x`. */
  function Grow(t: Tree, x: int): Tree
  {
    if t.Nil? then Leaf(x)
    else if t.data == x then t
    else SetSon(t, t.data < x, Grow(Son(t, t.data < x), x))
  }

  // Paths.

  lemma {:induction false} AtAppend(t: Tree, p: seq<bool>, d: bool)
    requires At(t, p).Node?
    ensures At(t, p + [d]) == Son(At(t, p), d)
  {
    if p != [] {
      assert (p + [d])[1..] == p[1..] + [d];
      AtAppend(Son(t, p[0]), p[1..], d);
    }
  }

  lemma {:induction false} ReplaceAppend(t: Tree, p: seq<bool>, d: bool, s: Tree)
    requires At(t, p).Node?
    ensures ReplaceAt(t, p + [d], s) == ReplaceAt(t, p, SetSon(At(t, p), d, s))
  {
    if p != [] {
      assert (p + [d])[1..] == p[1..] + [d];
      ReplaceAppend(Son(t, p[0]), p[1..], d, s);
    }
  }

  /** Reading back a slot just stored. */
  lemma {:induction false} AtReplace(t: Tree, p: seq<bool>, s: Tree)
    requires p == [] || At(t, p[..|p| - 1]).Node?
    ensures At(ReplaceAt(t, p, s), p) == s
  {
    if p != [] {
      var q := p[..|p| - 1];
      PrefixNode(t, q, 0);
      assert t.Node?;
      if |p| > 1 {
        assert p[1..][..|p[1..]| - 1] == q[1..];
        assert At(Son(t, p[0]), q[1..]) == At(t, q);
      }
      AtReplace(Son(t, p[0]), p[1..], s);
    }
  }

  /** The slots above a node hold nodes. */
  lemma {:induction false} PrefixNode(t: Tree, p: seq<bool>, i: nat)
    requires i <= |p| && At(t, p).Node?
    ensures At(t, p[..i]).Node?
  {
    if p != [] && i > 0 {
      assert p[..i][1..] == p[1..][..i - 1];
      PrefixNode(Son(t, p[0]), p[1..], i - 1);
    } else if p != [] {
      assert t.Node?;
    }
  }

  /** Storing twice, the second time above the first, keeps the second. */
  lemma {:induction false} ReplaceTwice(t: Tree, q: seq<bool>, d: bool, s: Tree, u: Tree)
    requires At(t, q).Node?
    ensures ReplaceAt(ReplaceAt(t, q + [d], s), q, u) == ReplaceAt(t, q, u)
  {
    if q != [] {
      assert (q + [d])[1..] == q[1..] + [d];
      ReplaceTwice(Son(t, q[0]), q[1..], d, s, u);
    }
  }

  /** A slot's subtree has the tree's properties. */
  lemma {:induction false} AtKeeps(t: Tree, p: seq<bool>)
    ensures Avl(t) ==> Avl(At(t, p))
    ensures AllLinked(t) ==> AllLinked(At(t, p))
    ensures Ordered(t) ==> Ordered(At(t, p))
  {
    if p != [] && t.Node? {
      if Ordered(t) {
        SimpleBinaryTrees.SplitAscending(InOrder(t.left), t.data, InOrder(t.right));
      }
      AtKeeps(Son(t, p[0]), p[1..]);
    }
  }

  /** The in-order sequence of a node around a part of one child's. */
  lemma {:induction false} AroundSon(t: Tree, d: bool, a: seq<int>, x: seq<int>, b: seq<int>)
    requires t.Node? && InOrder(Son(t, d)) == a + x + b
    ensures InOrder(t) == (if d then InOrder(t.left) + [t.data] + a else a) + x + (if d then b else b + [t.data] + InOrder(t.right))
  {
    if d {
      assert InOrder(t) == InOrder(t.left) + [t.data] + (a + x + b);
    } else {
      assert InOrder(t) == (a + x + b) + [t.data] + InOrder(t.right);
    }
  }

  /** The in-order sequence around a slot: storing a subtree replaces its
      part and leaves the values before and after. */
  lemma {:induction false} ReplaceInOrder(t: Tree, p: seq<bool>, s: Tree) returns (pre: seq<int>, post: seq<int>)
    requires At(t, p).Node? || p == []
    ensures InOrder(t) == pre + InOrder(At(t, p)) + post
    ensures InOrder(ReplaceAt(t, p, s)) == pre + InOrder(s) + post
  {
    if p == [] {
      pre, post := [], [];
    } else {
      assert t.Node?;
      var d := p[0];
      var a, b := ReplaceInOrder(Son(t, d), p[1..], s);
      var u := ReplaceAt(t, p, s);
      AroundSon(t, d, a, InOrder(At(t, p)), b);
      AroundSon(u, d, a, InOrder(s), b);
      pre := if d then InOrder(t.left) + [t.data] + a else a;
      post := if d then b else b + [t.data] + InOrder(t.right);
    }
  }

  /** Storing a subtree with the same in-order sequence keeps the tree's. */
  lemma {:induction false} SameInOrder(t: Tree, p: seq<bool>, s: Tree)
    requires At(t, p).Node? || p == []
    requires InOrder(s) == InOrder(At(t, p))
    ensures InOrder(ReplaceAt(t, p, s)) == InOrder(t)
  {
    var pre, post := ReplaceInOrder(t, p, s);
  }

  // Search.

  /** Below a node with another value, `x` can only be in the child the
      search takes. */
  lemma {:induction false} SearchSide(t: Tree, x: int)
    requires Ordered(t) && t.Node? && t.data != x
    ensures Ordered(Son(t, t.data < x))
    ensures x in InOrder(t) <==> x in InOrder(Son(t, t.data < x))
  {
    SimpleBinaryTrees.SplitAscending(InOrder(t.left), t.data, InOrder(t.right));
  }

  /** The search ends on `x` when it is stored and on an empty slot
      otherwise. */
  lemma {:induction false} SearchPathEnds(t: Tree, x: int)
    requires Ordered(t)
    ensures At(t, SearchPath(t, x)).Nil? <==> x !in InOrder(t)
    ensures At(t, SearchPath(t, x)).Node? ==> At(t, SearchPath(t, x)).data == x
  {
    if t.Node? && t.data != x {
      SearchSide(t, x);
      SearchPathEnds(Son(t, t.data < x), x);
    }
  }

  /** The new leaf sits at the end of the search path. */
  lemma {:induction false} GrowAt(t: Tree, x: int)
    requires At(t, SearchPath(t, x)).Nil?
    ensures Grow(t, x) == ReplaceAt(t, SearchPath(t, x), Leaf(x))
    ensures At(Grow(t, x), SearchPath(t, x)) == Leaf(x)
  {
    if t.Node? {
      GrowAt(Son(t, t.data < x), x);
    }
  }

  /** Growing inserts into the in-order sequence. */
  lemma {:induction false} GrowInOrder(t: Tree, x: int)
    requires Ordered(t)
    ensures InOrder(Grow(t, x)) == Insert(InOrder(t), x)
  {
    if t.Node? {
      SimpleBinaryTrees.SplitAscending(InOrder(t.left), t.data, InOrder(t.right));
      if t.data < x {
        GrowInOrder(t.right, x);
        GrowRight(t, x);
      } else if x < t.data {
        GrowInOrder(t.left, x);
        GrowLeft(t, x);
      } else {
        assert InOrder(t)[|InOrder(t.left)|] == x;
        InsertPresent(InOrder(t), x);
      }
    }
  }

  /** The step of `GrowInOrder` for a value above the node's. */
  lemma {:induction false} GrowRight(t: Tree, x: int)
    requires t.Node? && t.data < x && forall y :: y in InOrder(t.left) ==> y < t.data
    requires InOrder(Grow(t.right, x)) == Insert(InOrder(t.right), x)
    ensures InOrder(Grow(t, x)) == Insert(InOrder(t), x)
  {
    var l, r := InOrder(t.left), InOrder(t.right);
    forall i | 0 <= i < |l + [t.data]| ensures (l + [t.data])[i] < x {
      if i < |l| { assert l[i] in l; }
    }
    SimpleBinaryTrees.InsertAfterSmaller(l + [t.data], r, x);
  }

  /** The step of `GrowInOrder` for a value below the node's. */
  lemma {:induction false} GrowLeft(t: Tree, x: int)
    requires t.Node? && x < t.data
    requires InOrder(Grow(t.left, x)) == Insert(InOrder(t.left), x)
    ensures InOrder(Grow(t, x)) == Insert(InOrder(t), x)
  {
    var l, r := InOrder(t.left), InOrder(t.right);
    SimpleBinaryTrees.InsertBeforeLarger(l, [t.data] + r, x);
    assert l + [t.data] + r == l + ([t.data] + r);
  }

  /** A new leaf has its parent pointer set, and every pointer that was
      right stays right. */
  lemma {:induction false} GrowLinked(t: Tree, x: int)
    ensures AllLinked(t) ==> AllLinked(Grow(t, x))
  {
    if t.Node? && t.data != x {
      GrowLinked(Son(t, t.data < x), x);
    }
  }

  // Rotations.

  /** A subtree handed to a new parent gets its `parent` pointer set. */
  function Relink(t: Tree): (r: Tree)
    ensures r.Nil? <==> t.Nil?
    ensures InOrder(r) == InOrder(t) && Height(r) == Height(t)
    ensures Avl(r) <==> Avl(t)
    ensures AllLinked(t) ==> AllLinked(r)
  {
    if t.Nil? then t else t.(linked := true)
  }

  /** `simple_rotate(root, id)`: the child on side `id` (the pivot) takes
      the place of `root`, `root` becomes its child on the other side and
      takes over the pivot's inner subtree; both factors become 0.  The
      pivot inherits `root`'s parent pointer. */
  function SimpleRotate(t: Tree, id: bool): Tree
    requires t.Node? && Son(t, id).Node?
  {
    var pivot := Son(t, id);
    var root := SetSon(t, id, Relink(Son(pivot, !id))).(bal := 0, linked := true);
    SetSon(pivot, !id, root).(bal := 0, linked := t.linked)
  }

  /** `double_rotate(root, id)`: the inner grandchild `pivot_1` takes the
      place of `root`, with `pivot_0` (the child on side `id`) on side `id`
      and `root` on the other, each taking over one of its subtrees.  The
      factors of `root` and `pivot_0` follow the switch on `pivot_1`'s
      factor, and stay as they were when it is not -1, 0 or 1.  With
      `fixed` the factor of `pivot_1` becomes 0; as written it keeps its
      old value. */
  function DoubleRotate(t: Tree, id: bool, fixed: bool): Tree
    requires t.Node? && Son(t, id).Node? && Son(Son(t, id), !id).Node?
  {
    var p0 := Son(t, id);
    var p1 := Son(p0, !id);
    var rb :=
      if p1.bal == 0 then 0
      else if p1.bal == 1 then (if id then -1 else 0)
      else if p1.bal == -1 then (if id then 0 else 1)
      else t.bal;
    var pb :=
      if p1.bal == 0 then 0
      else if p1.bal == 1 then (if id then 0 else -1)
      else if p1.bal == -1 then (if id then 1 else 0)
      else p0.bal;
    var root := SetSon(t, id, Relink(Son(p1, !id))).(bal := rb, linked := true);
    var pivot := SetSon(p0, !id, Relink(Son(p1, id))).(bal := pb, linked := true);
    SetSon(SetSon(p1, id, pivot), !id, root).(bal := if fixed then 0 else p1.bal, linked := t.linked)
  }

  /** `rebalance_checking`: a factor above 1 rotates towards the right
      child, simply when that child leans right and doubly otherwise; any
      other factor rotates towards the left child, simply when it leans
      left.  `None` when the rotation would follow a null pointer or the
      stale `parent` pointer of `root`. */
  function Rebalance(t: Tree, fixed: bool): Option<Tree>
    requires t.Node?
  {
    if !t.linked then None
    else if t.bal > 1 then
      if t.right.Nil? then None
      else if t.right.bal >= 1 then Some(SimpleRotate(t, true))
      else if t.right.left.Nil? then None
      else Some(DoubleRotate(t, true, fixed))
    else
      if t.left.Nil? then None
      else if t.left.bal <= -1 then Some(SimpleRotate(t, false))
      else if t.left.right.Nil? then None
      else Some(DoubleRotate(t, false, fixed))
  }

  /** The tree with the rotated subtree `r` hung where the node at `q`
      was: on `m_root` when that node has no parent, otherwise on the side
      of the parent that the parent's value says (`parent->data < root->data`
      picks the right child). */
  function Hang(T: Tree, q: seq<bool>, r: Tree): Tree
    requires q != [] ==> At(T, q).Node?
  {
    if q == [] then r
    else
      var g := q[..|q| - 1];
      PrefixNode(T, q, |q| - 1);
      ReplaceAt(T, g + [At(T, g).data < At(T, q).data], r)
  }

  lemma {:induction false} SimpleInOrder(t: Tree, id: bool)
    requires t.Node? && Son(t, id).Node?
    ensures InOrder(SimpleRotate(t, id)) == InOrder(t)
  {
    var pv := Son(t, id);
    var r := SimpleRotate(t, id);
    if id {
      assert r.left.left == t.left && r.left.right == Relink(pv.left) && r.right == pv.right;
      SimpleSplice(InOrder(t.left), t.data, InOrder(pv.left), pv.data, InOrder(pv.right));
    } else {
      assert r.right.right == t.right && r.right.left == Relink(pv.right) && r.left == pv.left;
      SimpleSplice(InOrder(pv.left), pv.data, InOrder(pv.right), t.data, InOrder(t.right));
    }
  }

  /** The regrouping of a simple rotation. */
  lemma {:induction false} SimpleSplice(l: seq<int>, x: int, m: seq<int>, y: int, r: seq<int>)
    ensures l + [x] + (m + [y] + r) == (l + [x] + m) + [y] + r
  {
  }

  lemma {:induction false} DoubleInOrder(t: Tree, id: bool, fixed: bool)
    requires t.Node? && Son(t, id).Node? && Son(Son(t, id), !id).Node?
    ensures InOrder(DoubleRotate(t, id, fixed)) == InOrder(t)
  {
    var p0 := Son(t, id);
    var p1 := Son(p0, !id);
    var r := DoubleRotate(t, id, fixed);
    var a, b := InOrder(p1.left), InOrder(p1.right);
    assert InOrder(p1) == a + [p1.data] + b;
    if id {
      assert r.left.left == t.left && r.left.right == Relink(p1.left);
      assert r.right.left == Relink(p1.right) && r.right.right == p0.right;
      DoubleSplice(InOrder(t.left), t.data, a, p1.data, b, p0.data, InOrder(p0.right));
    } else {
      assert r.left.left == p0.left && r.left.right == Relink(p1.left);
      assert r.right.left == Relink(p1.right) && r.right.right == t.right;
      DoubleSplice(InOrder(p0.left), p0.data, a, p1.data, b, t.data, InOrder(t.right));
    }
  }

  /** The regrouping of a double rotation. */
  lemma {:induction false} DoubleSplice(l: seq<int>, x: int, a: seq<int>, y: int, b: seq<int>, z: int, r: seq<int>)
    ensures l + [x] + ((a + [y] + b) + [z] + r) == (l + [x] + a) + [y] + (b + [z] + r)
    ensures (l + [x] + (a + [y] + b)) + [z] + r == (l + [x] + a) + [y] + (b + [z] + r)
  {
  }

  /** Rebalancing keeps the values in order. */
  lemma {:induction false} RebalanceInOrder(t: Tree, fixed: bool)
    requires t.Node? && Rebalance(t, fixed).Some?
    ensures InOrder(Rebalance(t, fixed).value) == InOrder(t)
  {
    var id := t.bal > 1;
    if (id && Son(t, id).bal >= 1) || (!id && Son(t, id).bal <= -1) {
      SimpleInOrder(t, id);
    } else {
      DoubleInOrder(t, id, fixed);
    }
  }

  // Balance after an insertion.

  /** A simple rotation at a node whose child on side `id` is two levels
      higher than the other and leans the same way gives a balanced
      subtree as high as the node was before that child grew. */
  lemma {:induction false} SimpleGrown(t: Tree, id: bool)
    requires t.Node? && Son(t, id).Node? && t.linked
    requires Avl(t.left) && Avl(t.right) && AllLinked(t.left) && AllLinked(t.right)
    requires Height(Son(t, id)) == Height(Son(t, !id)) + 2
    requires Son(t, id).bal == (if id then 1 else -1)
    ensures var r := SimpleRotate(t, id);
      Avl(r) && AllLinked(r) && Height(r) == Height(Son(t, !id)) + 2
  {
    var pv := Son(t, id);
    var h := Height(Son(t, !id));
    var r := SimpleRotate(t, id);
    var root := Son(r, !id);
    if id {
      assert Height(pv.right) == h + 1 && Height(pv.left) == h;
      assert root == Node(0, t.data, true, t.left, Relink(pv.left));
      assert r == Node(0, pv.data, t.linked, root, pv.right);
    } else {
      assert Height(pv.left) == h + 1 && Height(pv.right) == h;
      assert root == Node(0, t.data, true, Relink(pv.right), t.right);
      assert r == Node(0, pv.data, t.linked, pv.left, root);
    }
    assert Height(root) == h + 1 && Avl(root) && AllLinked(root);
  }

  /** A double rotation at a node whose child on side `id` is two levels
      higher than the other and leans the other way gives a balanced
      subtree as high as the node was before that child grew, when the
      lifted node's factor is reset. */
  lemma {:induction false} DoubleGrown(t: Tree, id: bool)
    requires t.Node? && Son(t, id).Node? && Son(Son(t, id), !id).Node? && t.linked
    requires Avl(t.left) && Avl(t.right) && AllLinked(t.left) && AllLinked(t.right)
    requires Height(Son(t, id)) == Height(Son(t, !id)) + 2
    requires Son(t, id).bal == (if id then -1 else 1)
    ensures var r := DoubleRotate(t, id, true);
      Avl(r) && AllLinked(r) && Height(r) == Height(Son(t, !id)) + 2
  {
    var p0 := Son(t, id);
    var p1 := Son(p0, !id);
    var h := Height(Son(t, !id));
    assert Height(p1) == h + 1 && Height(Son(p0, id)) == h;
    assert Avl(p1) && AllLinked(p1);
    var rb, pb := Lifted(p1.bal, Height(p1.left), Height(p1.right), h, id);
    if id {
      Joined(rb, t.data, t.left, Relink(p1.left));
      Joined(pb, p0.data, Relink(p1.right), p0.right);
      Joined(0, p1.data, Node(rb, t.data, true, t.left, Relink(p1.left)), Node(pb, p0.data, true, Relink(p1.right), p0.right));
      DoubleShape(t, id, rb, pb);
    } else {
      Joined(pb, p0.data, p0.left, Relink(p1.left));
      Joined(rb, t.data, Relink(p1.right), t.right);
      Joined(0, p1.data, Node(pb, p0.data, true, p0.left, Relink(p1.left)), Node(rb, t.data, true, Relink(p1.right), t.right));
      DoubleShape(t, id, rb, pb);
    }
  }

  /** The shape of a fixed double rotation at a linked node whose lifted
      node has factor -1, 0 or 1, given the factors `rb` and `pb` the switch
      of `double_rotate` gives `root` and `pivot_0`. */
  lemma {:induction false} DoubleShape(t: Tree, id: bool, rb: int, pb: int)
    requires t.Node? && Son(t, id).Node? && Son(Son(t, id), !id).Node? && t.linked
    requires var b := Son(Son(t, id), !id).bal;
      -1 <= b <= 1 &&
      rb == (if b == 0 then 0 else if b == 1 then (if id then -1 else 0) else (if id then 0 else 1)) &&
      pb == (if b == 0 then 0 else if b == 1 then (if id then 0 else -1) else (if id then 1 else 0))
    ensures var p0 := Son(t, id);
      var p1 := Son(p0, !id);
      DoubleRotate(t, id, true) == (
        if id then Node(0, p1.data, true, Node(rb, t.data, true, t.left, Relink(p1.left)), Node(pb, p0.data, true, Relink(p1.right), p0.right))
        else Node(0, p1.data, true, Node(pb, p0.data, true, p0.left, Relink(p1.left)), Node(rb, t.data, true, Relink(p1.right), t.right)))
  {
  }

  /** A linked node over two balanced, linked subtrees whose heights differ
      by its factor is balanced and linked, one level above the higher. */
  lemma {:induction false} Joined(b: int, x: int, l: Tree, r: Tree)
    requires Avl(l) && Avl(r) && AllLinked(l) && AllLinked(r)
    requires b == Height(r) - Height(l) && -1 <= b <= 1
    ensures var n := Node(b, x, true, l, r);
      Avl(n) && AllLinked(n) && Height(n) == (if Height(l) > Height(r) then Height(l) else Height(r)) + 1
  {
  }

  /** The factors the switch of `double_rotate` gives `root` and
      `pivot_0`, for a lifted node of factor `b` with subtrees of heights
      `hl` and `hr` under which the outer subtrees have height `h`. */
  lemma {:induction false} Lifted(b: int, hl: nat, hr: nat, h: nat, id: bool) returns (rb: int, pb: int)
    requires b == hr - hl && -1 <= b <= 1 && (if hl > hr then hl else hr) == h
    ensures rb == (if b == 0 then 0 else if b == 1 then (if id then -1 else 0) else (if id then 0 else 1))
    ensures pb == (if b == 0 then 0 else if b == 1 then (if id then 0 else -1) else (if id then 1 else 0))
    ensures id ==> rb == hl - h && pb == h - hr
    ensures !id ==> rb == h - hr && pb == hl - h
  {
    rb := if b == 0 then 0 else if b == 1 then (if id then -1 else 0) else (if id then 0 else 1);
    pb := if b == 0 then 0 else if b == 1 then (if id then 0 else -1) else (if id then 1 else 0);
  }

  /** `rebalance_checking` at a node two levels heavier on one side, whose
      heavier child leans to one side, rotates without following a null
      pointer and gives a balanced subtree two levels above the lighter
      side. */
  lemma {:induction false} RebalanceGrown(t: Tree)
    requires t.Node? && t.linked
    requires Avl(t.left) && Avl(t.right) && AllLinked(t.left) && AllLinked(t.right)
    requires t.bal == Height(t.right) - Height(t.left) && (t.bal == 2 || t.bal == -2)
    requires Son(t, t.bal > 0).bal != 0
    ensures Rebalance(t, true).Some?
    ensures var r := Rebalance(t, true).value;
      Avl(r) && AllLinked(r) && Height(r) == Height(Son(t, t.bal < 0)) + 2
  {
    var id := t.bal > 0;
    var S := Son(t, id);
    assert S.Node? && Avl(S);
    if id {
      if S.bal == 1 {
        SimpleGrown(t, true);
      } else {
        assert Height(S.left) == Height(S.right) + 1;
        DoubleGrown(t, true);
      }
    } else {
      if S.bal == -1 {
        SimpleGrown(t, false);
      } else {
        assert Height(S.right) == Height(S.left) + 1;
        DoubleGrown(t, false);
      }
    }
  }

  /** Storing a balanced subtree as high as the one it replaces keeps the
      tree balanced, linked and as high. */
  lemma {:induction false} ReplacedAvl(O: Tree, q: seq<bool>, r: Tree)
    requires Avl(O) && AllLinked(O) && Avl(r) && AllLinked(r)
    requires Height(r) == Height(At(O, q))
    ensures var T := ReplaceAt(O, q, r);
      Avl(T) && AllLinked(T) && Height(T) == Height(O)
  {
    if q != [] && O.Node? {
      ReplacedAvl(Son(O, q[0]), q[1..], r);
    }
  }

  /** Storing twice in the same slot keeps the second. */
  lemma {:induction false} ReplaceSame(O: Tree, q: seq<bool>, a: Tree, r: Tree)
    ensures ReplaceAt(ReplaceAt(O, q, a), q, r) == ReplaceAt(O, q, r)
  {
    if q != [] && O.Node? {
      ReplaceSame(Son(O, q[0]), q[1..], a, r);
    }
  }

  /** The parent of a slot just stored holds the new subtree. */
  lemma {:induction false} AtAbove(O: Tree, q: seq<bool>, d: bool, S: Tree)
    requires At(O, q).Node?
    ensures At(ReplaceAt(O, q + [d], S), q) == SetSon(At(O, q), d, S)
  {
    ReplaceAppend(O, q, d, S);
    if q != [] {
      PrefixNode(O, q, |q| - 1);
    }
    AtReplace(O, q, SetSon(At(O, q), d, S));
  }

  /** In a search tree the parent's value picks the side its child hangs
      on, so `Hang` stores into the slot itself. */
  lemma {:induction false} HangSlot(T: Tree, q: seq<bool>, r: Tree)
    requires Ordered(T) && q != [] && At(T, q).Node?
    ensures Hang(T, q, r) == ReplaceAt(T, q, r)
  {
    var g, d := q[..|q| - 1], q[|q| - 1];
    assert q == g + [d];
    PrefixNode(T, q, |q| - 1);
    AtAppend(T, g, d);
    var n := At(T, g);
    var c := Son(n, d);
    AtKeeps(T, g);
    SimpleBinaryTrees.SplitAscending(InOrder(n.left), n.data, InOrder(n.right));
    assert c.data == InOrder(c)[|InOrder(c.left)|];
    assert c.data in InOrder(Son(n, d));
    assert (n.data < c.data) == d;
  }

  // The `update` walk.

  /** `update` from the node at depth `j` of path `p`: the parent's factor
      moves by one towards the side the walk comes from; the walk stops at
      a factor of 0, rotates once and stops at a factor beyond -1..1, and
      otherwise goes on from the parent.  Reading a stale `parent` pointer
      gives `None`. */
  function Climb(T: Tree, p: seq<bool>, j: nat, fixed: bool): Option<Tree>
    requires j <= |p| && At(T, p[..j]).Node?
    decreases j
  {
    if !At(T, p[..j]).linked then None
    else if j == 0 then Some(T)
    else
      var q := p[..j - 1];
      ParentSlot(T, p, j);
      var par := At(T, q);
      var b := par.bal + (if p[j - 1] then 1 else -1);
      var T' := ReplaceAt(T, q, par.(bal := b));
      AtReplace(T, q, par.(bal := b));
      if b == 0 then Some(T')
      else if b > 1 || b < -1 then
        match Rebalance(par.(bal := b), fixed)
        case None => None
        case Some(r) => Some(Hang(T', q, r))
      else Climb(T', p, j - 1, fixed)
  }

  /** The slots of the parent and the grandparent of a node hold nodes. */
  lemma {:induction false} ParentSlot(T: Tree, p: seq<bool>, j: nat)
    requires 0 < j <= |p| && At(T, p[..j]).Node?
    ensures var q := p[..j - 1]; At(T, q).Node? && (q == [] || At(T, q[..|q| - 1]).Node?)
  {
    var q := p[..j - 1];
    PrefixNode(T, p[..j], j - 1);
    assert p[..j][..j - 1] == q;
    if q != [] {
      PrefixNode(T, q, j - 2);
    }
  }

  /** Every slot strictly above the end of `p` holds a node. */
  ghost predicate Above(O: Tree, p: seq<bool>)
  {
    forall i :: 0 <= i < |p| ==> At(O, p[..i]).Node?
  }

  /** The state of `update` at depth `j` after an insertion into the
      balanced, linked tree `O` along `p`: the tree is `O` with the subtree
      at depth `j` replaced by a balanced, linked one a level higher, which
      is either the new leaf or leans to one side. */
  ghost predicate Grown(O: Tree, T: Tree, p: seq<bool>, j: nat)
  {
    j <= |p| && Above(O, p) && Avl(O) && AllLinked(O) &&
    var S := At(T, p[..j]);
    T == ReplaceAt(O, p[..j], S) && S.Node? && Avl(S) && AllLinked(S) &&
    Height(S) == Height(At(O, p[..j])) + 1 && (Height(S) == 1 || S.bal != 0)
  }

  /** One step of `update` from the node at depth `j`. */
  lemma {:induction false} ClimbStep(T: Tree, p: seq<bool>, j: nat, fixed: bool) returns (q: seq<bool>, par: Tree, T': Tree)
    requires 0 < j <= |p| && At(T, p[..j]).Node? && At(T, p[..j]).linked
    ensures q == p[..j - 1] && At(T, q).Node? && (q == [] || At(T, q[..|q| - 1]).Node?)
    ensures par == At(T, q).(bal := At(T, q).bal + (if p[j - 1] then 1 else -1))
    ensures T' == ReplaceAt(T, q, par) && At(T', q) == par
    ensures par.bal == 0 ==> Climb(T, p, j, fixed) == Some(T')
    ensures (par.bal > 1 || par.bal < -1) && Rebalance(par, fixed).None? ==> Climb(T, p, j, fixed).None?
    ensures (par.bal > 1 || par.bal < -1) && Rebalance(par, fixed).Some? ==>
      Climb(T, p, j, fixed) == Some(Hang(T', q, Rebalance(par, fixed).value))
    ensures -1 <= par.bal <= 1 && par.bal != 0 ==> Climb(T, p, j, fixed) == Climb(T', p, j - 1, fixed)
  {
    q := p[..j - 1];
    ParentSlot(T, p, j);
    par := At(T, q).(bal := At(T, q).bal + (if p[j - 1] then 1 else -1));
    T' := ReplaceAt(T, q, par);
    AtReplace(T, q, par);
  }

  /** What one step of `update` sees in the middle of an insertion: the
      parent of the grown subtree, with its factor moved, is the true
      difference of its children's heights, and the tree with it stored is
      `O` with it stored. */
  lemma {:induction false} GrownStep(O: Tree, T: Tree, p: seq<bool>, j: nat, q: seq<bool>, par: Tree, T': Tree)
    requires Grown(O, T, p, j) && 0 < j
    requires q == p[..j - 1] && At(T, q).Node?
    requires par == At(T, q).(bal := At(T, q).bal + (if p[j - 1] then 1 else -1))
    requires T' == ReplaceAt(T, q, par)
    ensures var po, d := At(O, q), p[j - 1];
      po.Node? && Avl(po) && AllLinked(po) &&
      par.Node? && par.data == po.data && par.linked && Son(par, !d) == Son(po, !d) &&
      Son(par, d) == At(T, p[..j]) && Height(Son(par, d)) == Height(Son(po, d)) + 1 &&
      Avl(par.left) && Avl(par.right) && AllLinked(par.left) && AllLinked(par.right) &&
      par.bal == Height(par.right) - Height(par.left) &&
      T' == ReplaceAt(O, q, par) && InOrder(T') == InOrder(T)
  {
    var S := At(T, p[..j]);
    var d := p[j - 1];
    assert p[..j] == q + [d];
    assert At(O, p[..j - 1]).Node?;
    AtKeeps(O, q);
    PathStep(O, q, d, S, par);
    SameInOrder(T, q, par);
    ParentGrown(At(O, q), S, d, par);
  }

  /** The slots around a step up from `q + [d]` to `q`. */
  lemma {:induction false} PathStep(O: Tree, q: seq<bool>, d: bool, S: Tree, par: Tree)
    requires At(O, q).Node?
    ensures At(ReplaceAt(O, q + [d], S), q) == SetSon(At(O, q), d, S)
    ensures At(O, q + [d]) == Son(At(O, q), d)
    ensures ReplaceAt(ReplaceAt(O, q + [d], S), q, par) == ReplaceAt(O, q, par)
  {
    AtAbove(O, q, d, S);
    AtAppend(O, q, d);
    ReplaceTwice(O, q, d, S, par);
  }

  /** The parent of a subtree grown by a level, with its factor moved
      towards that side, has its true factor and its children balanced. */
  lemma {:induction false} ParentGrown(po: Tree, S: Tree, d: bool, par: Tree)
    requires po.Node? && Avl(po) && AllLinked(po) && Avl(S) && AllLinked(S)
    requires Height(S) == Height(Son(po, d)) + 1
    requires par.Node? && Son(par, d) == S && Son(par, !d) == Son(po, !d)
    requires par.bal == po.bal + (if d then 1 else -1)
    ensures Avl(par.left) && Avl(par.right) && AllLinked(par.left) && AllLinked(par.right)
    ensures par.bal == Height(par.right) - Height(par.left)
  {
    if d {
      assert par.left == po.left && par.right == S;
    } else {
      assert par.left == S && par.right == po.right;
    }
  }

  /** The parent of the node at depth `j` with its factor moved by the
      step of `update` that comes up from that node. */
  function Moved(T: Tree, p: seq<bool>, j: nat): (m: Tree)
    requires 0 < j <= |p| && At(T, p[..j]).Node?
    ensures m.Node?
  {
    ParentSlot(T, p, j);
    var par := At(T, p[..j - 1]);
    par.(bal := par.bal + (if p[j - 1] then 1 else -1))
  }

  /** A node is a level above its higher child. */
  lemma {:induction false} HeightSides(t: Tree, d: bool)
    requires t.Node?
    ensures var a, b := Height(Son(t, d)), Height(Son(t, !d));
      Height(t) == (if a > b then a else b) + 1
  {
  }

  /** `update` stops where the moved factor is 0: the grown side was the
      lower one, so the tree is balanced as it stands. */
  lemma {:induction false} StopGrown(O: Tree, T: Tree, p: seq<bool>, j: nat)
    requires Grown(O, T, p, j) && 0 < j && Moved(T, p, j).bal == 0
    ensures Climb(T, p, j, true).Some?
    ensures Avl(Climb(T, p, j, true).value) && AllLinked(Climb(T, p, j, true).value)
  {
    var q, par, T' := ClimbStep(T, p, j, true);
    GrownStep(O, T, p, j, q, par, T');
    EvenedParent(At(O, q), par, p[j - 1]);
    ReplacedAvl(O, q, par);
  }

  /** A parent whose factor the grown child brings to 0 is balanced and as
      high as before. */
  lemma {:induction false} EvenedParent(po: Tree, par: Tree, d: bool)
    requires po.Node? && Avl(po) && AllLinked(po) && par.Node? && par.linked
    requires Son(par, !d) == Son(po, !d) && Height(Son(par, d)) == Height(Son(po, d)) + 1
    requires Avl(par.left) && Avl(par.right) && AllLinked(par.left) && AllLinked(par.right)
    requires par.bal == Height(par.right) - Height(par.left) && par.bal == 0
    ensures Avl(par) && AllLinked(par) && Height(par) == Height(po)
  {
    HeightSides(po, d);
    HeightSides(par, d);
  }

  /** The rotation of a parent whose grown child is two levels above the
      other gives a subtree as high as the parent was. */
  lemma {:induction false} RotatedParent(po: Tree, par: Tree, d: bool)
    requires po.Node? && Avl(po) && par.Node? && par.linked
    requires Son(par, !d) == Son(po, !d) && Height(Son(par, d)) == Height(Son(po, d)) + 1
    requires Avl(par.left) && Avl(par.right) && AllLinked(par.left) && AllLinked(par.right)
    requires par.bal == Height(par.right) - Height(par.left) && (par.bal > 1 || par.bal < -1)
    requires Height(Son(par, d)) == 1 || Son(par, d).bal != 0
    ensures Rebalance(par, true).Some?
    ensures var r := Rebalance(par, true).value;
      Avl(r) && AllLinked(r) && Height(r) == Height(po)
  {
    assert d == (par.bal > 0);
    HeightSides(po, d);
    RebalanceGrown(par);
  }

  /** `update` rotates where the moved factor leaves -1..1, and the
      rotated subtree is as high as the subtree before the insertion. */
  lemma {:induction false} RotateGrown(O: Tree, T: Tree, p: seq<bool>, j: nat)
    requires Grown(O, T, p, j) && Ordered(T) && 0 < j
    requires Moved(T, p, j).bal > 1 || Moved(T, p, j).bal < -1
    ensures Climb(T, p, j, true).Some?
    ensures Avl(Climb(T, p, j, true).value) && AllLinked(Climb(T, p, j, true).value)
  {
    var q, par, T' := ClimbStep(T, p, j, true);
    GrownStep(O, T, p, j, q, par, T');
    var po := At(O, q);
    RotatedParent(po, par, p[j - 1]);
    var r := Rebalance(par, true).value;
    ReplacedAvl(O, q, r);
    ReplaceSame(O, q, par, r);
    if q != [] {
      HangSlot(T', q, r);
    }
  }

  /** Otherwise `update` goes up with the parent grown a level. */
  lemma {:induction false} UpGrown(O: Tree, T: Tree, p: seq<bool>, j: nat) returns (T': Tree)
    requires Grown(O, T, p, j) && Ordered(T) && 0 < j
    requires -1 <= Moved(T, p, j).bal <= 1 && Moved(T, p, j).bal != 0
    ensures Grown(O, T', p, j - 1) && Ordered(T')
    ensures Climb(T, p, j, true) == Climb(T', p, j - 1, true)
  {
    var q, par;
    q, par, T' := ClimbStep(T, p, j, true);
    GrownStep(O, T, p, j, q, par, T');
  }

  /** From any state of an insertion, `update` (with the lifted factor
      reset) ends without following a null or stale pointer and leaves a
      balanced, linked tree. */
  lemma {:induction false} ClimbGrown(O: Tree, T: Tree, p: seq<bool>, j: nat)
    requires Grown(O, T, p, j) && Ordered(T)
    ensures Climb(T, p, j, true).Some?
    ensures Avl(Climb(T, p, j, true).value) && AllLinked(Climb(T, p, j, true).value)
    decreases j
  {
    if j == 0 {
      assert p[..0] == [];
    } else if Moved(T, p, j).bal == 0 {
      StopGrown(O, T, p, j);
    } else if Moved(T, p, j).bal > 1 || Moved(T, p, j).bal < -1 {
      RotateGrown(O, T, p, j);
    } else {
      var T' := UpGrown(O, T, p, j);
      ClimbGrown(O, T', p, j - 1);
    }
  }

  /** Whatever `update` ends with keeps the values and their order, the
      lifted factor reset or not. */
  lemma {:induction false} ClimbInOrder(T: Tree, p: seq<bool>, j: nat, fixed: bool)
    requires j <= |p| && At(T, p[..j]).Node? && Ordered(T)
    requires Climb(T, p, j, fixed).Some?
    ensures InOrder(Climb(T, p, j, fixed).value) == InOrder(T)
    decreases j
  {
    if j > 0 {
      var q, par, T' := ClimbStep(T, p, j, fixed);
      SameInOrder(T, q, par);
      if par.bal > 1 || par.bal < -1 {
        RebalanceInOrder(par, fixed);
        var r := Rebalance(par, fixed).value;
        if q != [] {
          HangSlot(T', q, r);
          SameInOrder(T', q, r);
        }
      } else if par.bal != 0 {
        ClimbInOrder(T', p, j - 1, fixed);
      }
    }
  }

  // `add` on the tree value.

  /** `add`: unchanged when the search meets `x`; otherwise a new leaf in
      the slot the search ends on, then the `update` walk from it. */
  function Added(t: Tree, x: int, fixed: bool): Option<Tree>
  {
    var P := SearchPath(t, x);
    if At(t, P).Node? then Some(t)
    else
      GrowAt(t, x);
      Updated(Grow(t, x), P, fixed)
  }

  /** `update` from the node at the end of `p`. */
  function Updated(T: Tree, p: seq<bool>, fixed: bool): Option<Tree>
    requires At(T, p).Node?
  {
    assert p[..|p|] == p;
    Climb(T, p, |p|, fixed)
  }

  /** Every slot above the end of a search holds a node. */
  lemma {:induction false} SearchAbove(t: Tree, x: int)
    ensures Above(t, SearchPath(t, x))
  {
    if t.Node? && t.data != x {
      var d := t.data < x;
      var P, R := SearchPath(t, x), SearchPath(Son(t, d), x);
      assert P == [d] + R;
      SearchAbove(Son(t, d), x);
      forall i | 0 <= i < |P|
        ensures At(t, P[..i]).Node?
      {
        if i > 0 {
          assert P[..i] == [d] + R[..i - 1];
          assert At(t, P[..i]) == At(Son(t, d), R[..i - 1]);
        }
      }
    }
  }

  /** `add` inserts `x` into the in-order sequence of a search tree
      whenever it completes, and keeps the tree a search tree. */
  lemma {:induction false} AddedInOrder(t: Tree, x: int, fixed: bool)
    requires Ordered(t) && Added(t, x, fixed).Some?
    ensures InOrder(Added(t, x, fixed).value) == Insert(InOrder(t), x)
    ensures Ordered(Added(t, x, fixed).value)
  {
    var P := SearchPath(t, x);
    SearchPathEnds(t, x);
    InsertSpec(InOrder(t), x);
    if At(t, P).Node? {
      InsertPresent(InOrder(t), x);
    } else {
      GrowAt(t, x);
      GrowInOrder(t, x);
      assert P[..|P|] == P;
      ClimbInOrder(Grow(t, x), P, |P|, fixed);
    }
  }

  /** In a balanced tree whose parent pointers are all right, `add` with
      the lifted factor reset completes and leaves the tree balanced with
      every factor the true height difference. */
  lemma {:induction false} AddedAvl(t: Tree, x: int)
    requires Ordered(t) && Avl(t) && AllLinked(t)
    ensures Added(t, x, true).Some?
    ensures Avl(Added(t, x, true).value) && AllLinked(Added(t, x, true).value)
  {
    var P := SearchPath(t, x);
    if At(t, P).Nil? {
      var T := Grow(t, x);
      GrowInOrder(t, x);
      InsertSpec(InOrder(t), x);
      LeafGrown(t, x);
      ClimbGrown(t, T, P, |P|);
    }
  }

  /** The new leaf starts the `update` walk of an insertion. */
  lemma {:induction false} LeafGrown(t: Tree, x: int)
    requires Avl(t) && AllLinked(t) && At(t, SearchPath(t, x)).Nil?
    ensures var P := SearchPath(t, x); Grown(t, Grow(t, x), P, |P|)
  {
    var P := SearchPath(t, x);
    var T, S := Grow(t, x), Leaf(x);
    GrowAt(t, x);
    SearchAbove(t, x);
    assert P[..|P|] == P;
    assert Height(Nil) == 0;
    assert Height(S) == 1;
    assert Avl(S) && AllLinked(S);
  }

  // `rmv` on the tree value.

  /** A subtree moved up by `rmv`: its `parent` pointer still names the
      deleted node. */
  function Unlink(t: Tree): (u: Tree)
    ensures u.Nil? <==> t.Nil?
    ensures InOrder(u) == InOrder(t)
  {
    if t.Nil? then t else t.(linked := false)
  }

  /** The right turns from a node down to the last node of its subtree. */
  function RightPath(n: Tree): (s: seq<bool>)
    requires n.Node?
    ensures forall i :: 0 <= i < |s| ==> s[i]
  {
    if n.right.Nil? then [] else [true] + RightPath(n.right)
  }

  /** `rmv(x)`: nothing when the search does not meet `x`; a leaf goes; a
      node with one child is replaced by that child; otherwise the last
      node of the left subtree gives its value to the node and is replaced
      by its own left child.  No factor is updated, and a child moved up
      keeps its stale `parent` pointer. */
  function Removed(t: Tree, x: int): Tree
  {
    var P := SearchPath(t, x);
    var n := At(t, P);
    if n.Nil? then t
    else if n.left.Nil? && n.right.Nil? then ReplaceAt(t, P, Nil)
    else if n.left.Nil? || n.right.Nil? then
      ReplaceAt(t, P, Unlink(if n.left.Node? then n.left else n.right))
    else
      var R := P + ([false] + RightPath(n.left));
      AtConcat(t, P, [false] + RightPath(n.left));
      RightPathEnds(n.left);
      var m := At(t, R);
      ReplaceAt(ReplaceAt(t, P, n.(data := m.data)), R, Unlink(m.left))
  }

  /** The slot `q` below the slot `P`. */
  lemma {:induction false} AtConcat(t: Tree, P: seq<bool>, q: seq<bool>)
    requires At(t, P).Node?
    ensures At(t, P + q) == At(At(t, P), q)
  {
    if P != [] {
      assert t.Node? && (P + q)[0] == P[0] && (P + q)[1..] == P[1..] + q;
      AtConcat(Son(t, P[0]), P[1..], q);
    } else {
      assert P + q == q;
    }
  }

  /** Storing below a slot just stored stores into the new subtree. */
  lemma {:induction false} ReplaceDeeper(t: Tree, P: seq<bool>, m: Tree, q: seq<bool>, X: Tree)
    requires At(t, P).Node?
    ensures ReplaceAt(ReplaceAt(t, P, m), P + q, X) == ReplaceAt(t, P, ReplaceAt(m, q, X))
  {
    if P != [] {
      assert t.Node? && (P + q)[0] == P[0] && (P + q)[1..] == P[1..] + q;
      ReplaceDeeper(Son(t, P[0]), P[1..], m, q, X);
    } else {
      assert P + q == q;
    }
  }

  /** The right turns end on a node with no right child. */
  lemma {:induction false} RightPathEnds(n: Tree)
    requires n.Node?
    ensures At(n, RightPath(n)).Node? && At(n, RightPath(n)).right.Nil?
  {
    if n.right.Node? {
      RightPathEnds(n.right);
    }
  }

  /** The last node of a subtree holds its last value: replacing it by a
      subtree with the values of its left child drops that last value. */
  lemma {:induction false} RightmostInOrder(n: Tree, X: Tree)
    requires n.Node?
    requires At(n, RightPath(n)).Node? && InOrder(X) == InOrder(At(n, RightPath(n)).left)
    ensures InOrder(n) == InOrder(ReplaceAt(n, RightPath(n), X)) + [At(n, RightPath(n)).data]
  {
    RightPathEnds(n);
    if n.right.Node? {
      RightPathEnds(n.right);
      RightmostInOrder(n.right, X);
      var m := At(n, RightPath(n));
      assert InOrder(ReplaceAt(n, RightPath(n), X)) == InOrder(n.left) + [n.data] + InOrder(ReplaceAt(n.right, RightPath(n.right), X));
    }
  }

  /** Deleting a value from between the smaller and the larger ones. */
  lemma {:induction false} DeleteSplit(a: seq<int>, x: int, b: seq<int>)
    requires Ascending(a + [x] + b)
    ensures Delete(a + [x] + b, x) == a + b
  {
    var s := a + [x] + b;
    if a != [] {
      assert s[0] == a[0] && s[0] < s[|a|] == x;
      assert s[1..] == a[1..] + [x] + b;
      assert Ascending(s[1..]) by {
        forall i, j | 0 <= i < j < |s[1..]|
          ensures s[1..][i] < s[1..][j]
        {
          assert s[1..][i] == s[i + 1] && s[1..][j] == s[j + 1];
        }
      }
      DeleteSplit(a[1..], x, b);
      assert a + b == [a[0]] + (a[1..] + b);
    }
  }

  /** Storing at a slot a subtree with the values of the old one but `x`
      deletes `x` from the in-order sequence. */
  lemma {:induction false} RemovedAt(t: Tree, P: seq<bool>, X: Tree, a: seq<int>, x: int, b: seq<int>)
    requires Ordered(t) && At(t, P).Node?
    requires InOrder(At(t, P)) == a + [x] + b && InOrder(X) == a + b
    ensures InOrder(ReplaceAt(t, P, X)) == Delete(InOrder(t), x)
  {
    var pre, post := ReplaceInOrder(t, P, X);
    Regroup(pre, a, x, b, post);
    DeleteSplit(pre + a, x, b + post);
  }

  lemma {:induction false} Regroup(pre: seq<int>, a: seq<int>, x: int, b: seq<int>, post: seq<int>)
    ensures pre + (a + [x] + b) + post == (pre + a) + [x] + (b + post)
    ensures pre + (a + b) + post == (pre + a) + (b + post)
  {
  }

  /** With two children, the node keeps its place with the value of the
      last node of its left subtree, which goes. */
  lemma {:induction false} RemovedBoth(t: Tree, x: int) returns (n': Tree)
    requires Ordered(t)
    requires var n := At(t, SearchPath(t, x)); n.Node? && n.left.Node? && n.right.Node?
    ensures var P, n := SearchPath(t, x), At(t, SearchPath(t, x));
      Removed(t, x) == ReplaceAt(t, P, n') &&
      exists a: seq<int>, y: int :: InOrder(n) == a + [y] + [n.data] + InOrder(n.right) && InOrder(n') == a + [y] + InOrder(n.right)
  {
    var P := SearchPath(t, x);
    var n := At(t, P);
    var s := RightPath(n.left);
    AtConcat(t, P, [false] + s);
    RightPathEnds(n.left);
    var m := At(n.left, s);
    var y := m.data;
    var L' := ReplaceAt(n.left, s, Unlink(m.left));
    n' := n.(data := y, left := L');
    ReplaceDeeper(t, P, n.(data := y), [false] + s, Unlink(m.left));
    RightmostInOrder(n.left, Unlink(m.left));
    assert InOrder(n) == InOrder(L') + [y] + [n.data] + InOrder(n.right);
  }

  /** `rmv` deletes `x` from the in-order sequence of a search tree, and
      leaves a search tree. */
  lemma {:induction false} RemovedInOrder(t: Tree, x: int)
    requires Ordered(t)
    ensures InOrder(Removed(t, x)) == Delete(InOrder(t), x)
    ensures Ordered(Removed(t, x))
  {
    var P := SearchPath(t, x);
    var n := At(t, P);
    SearchPathEnds(t, x);
    DeleteSpec(InOrder(t), x);
    if n.Nil? {
      DeleteAbsent(InOrder(t), x);
    } else if n.left.Nil? && n.right.Nil? {
      RemovedAt(t, P, Nil, [], x, []);
    } else if n.left.Nil? {
      RemovedAt(t, P, Unlink(n.right), [], x, InOrder(n.right));
    } else if n.right.Nil? {
      RemovedAt(t, P, Unlink(n.left), InOrder(n.left), x, []);
    } else {
      var n' := RemovedBoth(t, x);
      var a, y :| InOrder(n) == a + [y] + [n.data] + InOrder(n.right) && InOrder(n') == a + [y] + InOrder(n.right);
      RemovedAt(t, P, n', a + [y], x, InOrder(n.right));
    }
  }

  /** The search path from a node that does not hold `x` goes on from
      the child on the side the search takes. */
  lemma {:induction false} SearchStep(t: Tree, x: int, path: seq<bool>)
    requires t.Node? && t.data != x
    ensures path + SearchPath(t, x) == (path + [t.data < x]) + SearchPath(Son(t, t.data < x), x)
  {
  }

  // Iterators.

  /** An iterator's `current`: null, or the node at the end of a path. */
  datatype Position = Null | Path(p: seq<bool>)

  /** The left turns from a node down to the first node of its subtree. */
  function LeftPath(n: Tree): (s: seq<bool>)
    requires n.Node?
    ensures forall i :: 0 <= i < |s| ==> !s[i]
  {
    if n.left.Nil? then [] else [false] + LeftPath(n.left)
  }

  /** The number of right turns that end the path. */
  function Ups(p: seq<bool>): (k: nat)
    ensures k <= |p|
    ensures forall i :: |p| - k <= i < |p| ==> p[i]
    ensures k < |p| ==> !p[|p| - k - 1]
  {
    if p != [] && p[|p| - 1] then Ups(p[..|p| - 1]) + 1 else 0
  }

  /** The number of values that come before the subtree at the end of `p`
      in the in-order sequence. */
  function Offset(t: Tree, p: seq<bool>): nat
  {
    if p == [] || t.Nil? then 0
    else if p[0] then |InOrder(t.left)| + 1 + Offset(t.right, p[1..])
    else Offset(t.left, p[1..])
  }

  /** The place of the node at the end of `p` in the in-order sequence. */
  function Index(t: Tree, p: seq<bool>): nat
    requires At(t, p).Node?
  {
    Offset(t, p) + |InOrder(At(t, p).left)|
  }

  /** `operator++` from the node at the end of `p`: the first node of the
      right subtree, else the parent reached by the first left-child link
      on the way up, else null. */
  function Successor(t: Tree, p: seq<bool>): Position
    requires At(t, p).Node?
  {
    var n := At(t, p);
    if n.right.Node? then Path(p + [true] + LeftPath(n.right))
    else
      var k := Ups(p);
      if k == |p| then Null else Path(p[..|p| - k - 1])
  }

  /** The nodes whose `parent` pointers `operator++` reads from the node at
      the end of `p` when it has no right child: the node and the ones above
      it up to the first left child, all of which must still name their
      parents. */
  ghost predicate Climbable(t: Tree, p: seq<bool>)
  {
    forall k :: |p| - Ups(p) <= k <= |p| ==> At(t, p[..k]).Node? && At(t, p[..k]).linked
  }

  /** The subtree at the end of `p` fills `Offset` onwards of the in-order
      sequence. */
  lemma {:induction false} SubtreeSlice(t: Tree, p: seq<bool>)
    requires At(t, p).Node?
    ensures Offset(t, p) + |InOrder(At(t, p))| <= |InOrder(t)|
    ensures InOrder(t)[Offset(t, p)..Offset(t, p) + |InOrder(At(t, p))|] == InOrder(At(t, p))
  {
    if p != [] {
      assert t.Node?;
      if p[0] {
        SubtreeSlice(t.right, p[1..]);
        SliceRightStep(t, p);
      } else {
        SubtreeSlice(t.left, p[1..]);
        SliceLeftStep(t, p);
      }
    }
  }

  /** The step of `SubtreeSlice` on a path going right. */
  lemma {:induction false} SliceRightStep(t: Tree, p: seq<bool>)
    requires t.Node? && p != [] && p[0] && At(t.right, p[1..]).Node?
    requires var o, a := Offset(t.right, p[1..]), InOrder(At(t.right, p[1..]));
      o + |a| <= |InOrder(t.right)| && InOrder(t.right)[o..o + |a|] == a
    ensures Offset(t, p) + |InOrder(At(t, p))| <= |InOrder(t)|
    ensures InOrder(t)[Offset(t, p)..Offset(t, p) + |InOrder(At(t, p))|] == InOrder(At(t, p))
  {
    var o, a := Offset(t.right, p[1..]), InOrder(At(t.right, p[1..]));
    assert At(t, p) == At(t.right, p[1..]);
    assert Offset(t, p) == |InOrder(t.left)| + 1 + o;
    SliceAfter(t, o, a);
  }

  /** The step of `SubtreeSlice` on a path going left. */
  lemma {:induction false} SliceLeftStep(t: Tree, p: seq<bool>)
    requires t.Node? && p != [] && !p[0] && At(t.left, p[1..]).Node?
    requires var o, a := Offset(t.left, p[1..]), InOrder(At(t.left, p[1..]));
      o + |a| <= |InOrder(t.left)| && InOrder(t.left)[o..o + |a|] == a
    ensures Offset(t, p) + |InOrder(At(t, p))| <= |InOrder(t)|
    ensures InOrder(t)[Offset(t, p)..Offset(t, p) + |InOrder(At(t, p))|] == InOrder(At(t, p))
  {
    var o, a := Offset(t.left, p[1..]), InOrder(At(t.left, p[1..]));
    assert At(t, p) == At(t.left, p[1..]);
    assert Offset(t, p) == o;
    SliceBefore(t, o, a);
  }

  /** A slice of the right subtree's in-order sequence is a slice of the
      whole, past the left subtree and the node. */
  lemma {:induction false} SliceAfter(t: Tree, o: nat, a: seq<int>)
    requires t.Node? && o + |a| <= |InOrder(t.right)| && InOrder(t.right)[o..o + |a|] == a
    ensures var w := |InOrder(t.left)| + 1 + o; w + |a| <= |InOrder(t)| && InOrder(t)[w..w + |a|] == a
  {
    var l, r := InOrder(t.left), InOrder(t.right);
    var w := |l| + 1 + o;
    assert InOrder(t) == l + [t.data] + r;
    assert (l + [t.data] + r)[|l| + 1..] == r;
    assert (l + [t.data] + r)[w..w + |a|] == (l + [t.data] + r)[|l| + 1..][o..o + |a|];
  }

  /** A slice of the left subtree's in-order sequence is a slice of the
      whole. */
  lemma {:induction false} SliceBefore(t: Tree, o: nat, a: seq<int>)
    requires t.Node? && o + |a| <= |InOrder(t.left)| && InOrder(t.left)[o..o + |a|] == a
    ensures o + |a| <= |InOrder(t)| && InOrder(t)[o..o + |a|] == a
  {
    var l, r := InOrder(t.left), InOrder(t.right);
    assert InOrder(t) == l + [t.data] + r;
    assert (l + [t.data] + r)[..|l|] == l;
    assert (l + [t.data] + r)[o..o + |a|] == (l + [t.data] + r)[..|l|][o..o + |a|];
  }

  /** The node at the end of `p` holds the value at its `Index`. */
  lemma {:induction false} IndexData(t: Tree, p: seq<bool>)
    requires At(t, p).Node?
    ensures Index(t, p) < |InOrder(t)| && InOrder(t)[Index(t, p)] == At(t, p).data
  {
    SubtreeSlice(t, p);
    var n := At(t, p);
    assert InOrder(n)[|InOrder(n.left)|] == n.data;
  }

  /** One more turn down. */
  lemma {:induction false} OffsetAppend(t: Tree, p: seq<bool>, d: bool)
    requires At(t, p).Node?
    ensures Offset(t, p + [d]) == Offset(t, p) + (if d then |InOrder(At(t, p).left)| + 1 else 0)
  {
    if p != [] {
      assert (p + [d])[0] == p[0] && (p + [d])[1..] == p[1..] + [d];
      OffsetAppend(Son(t, p[0]), p[1..], d);
    } else {
      assert [d][1..] == [];
    }
  }

  /** The left turns from a node end on the first node of its subtree. */
  lemma {:induction false} LeftmostIndex(t: Tree, a: seq<bool>)
    requires At(t, a).Node?
    ensures var q := a + LeftPath(At(t, a));
      At(t, q).Node? && At(t, q).left.Nil? && Index(t, q) == Offset(t, a)
    decreases At(t, a)
  {
    var n := At(t, a);
    if n.left.Node? {
      AtAppend(t, a, false);
      OffsetAppend(t, a, false);
      LeftmostIndex(t, a + [false]);
      assert a + LeftPath(n) == (a + [false]) + LeftPath(n.left);
    } else {
      assert a + LeftPath(n) == a;
    }
  }

  /** Right turns from the end of `a` to a node with no right child end on
      the last node of the subtree at `a`. */
  lemma {:induction false} RightmostIndex(t: Tree, a: seq<bool>, s: seq<bool>)
    requires At(t, a + s).Node? && At(t, a + s).right.Nil?
    requires forall i :: 0 <= i < |s| ==> s[i]
    ensures At(t, a).Node?
    ensures Index(t, a + s) + 1 == Offset(t, a) + |InOrder(At(t, a))|
    decreases |s|
  {
    PrefixNode(t, a + s, |a|);
    assert (a + s)[..|a|] == a;
    var n := At(t, a);
    if s == [] {
      assert a + s == a;
    } else {
      assert s[0];
      AtAppend(t, a, true);
      OffsetAppend(t, a, true);
      assert a + s == (a + [true]) + s[1..];
      RightmostIndex(t, a + [true], s[1..]);
    }
  }

  /** `operator++` moves to the next place of the in-order sequence, and to
      null from the last one. */
  lemma SuccessorIndex(t: Tree, p: seq<bool>)
    requires At(t, p).Node?
    ensures Successor(t, p).Null? <==> Index(t, p) + 1 == |InOrder(t)|
    ensures Successor(t, p).Path? ==>
      At(t, Successor(t, p).p).Node? && Index(t, Successor(t, p).p) == Index(t, p) + 1
  {
    var n := At(t, p);
    IndexData(t, p);
    if n.right.Node? {
      AtAppend(t, p, true);
      OffsetAppend(t, p, true);
      LeftmostIndex(t, p + [true]);
      IndexData(t, Successor(t, p).p);
    } else {
      var k := Ups(p);
      var a := p[..|p| - k];
      assert p == a + p[|p| - k..];
      RightmostIndex(t, a, p[|p| - k..]);
      if k == |p| {
        assert a == [];
      } else {
        var b := p[..|p| - k - 1];
        assert a == b + [false];
        PrefixNode(t, a, |b|);
        assert a[..|b|] == b;
        AtAppend(t, b, false);
        OffsetAppend(t, b, false);
        IndexData(t, b);
      }
    }
  }

  /** `begin`: the first node of the tree, or null when it is empty. */
  function First(t: Tree): (it: Position)
    ensures it.Path? ==> At(t, it.p).Node? && Index(t, it.p) == 0
    ensures it.Null? <==> InOrder(t) == []
  {
    if t.Nil? then Null
    else
      assert [] + LeftPath(t) == LeftPath(t);
      LeftmostIndex(t, []);
      Path(LeftPath(t))
  }

  /** Correct `parent` pointers let `operator++` climb from any node. */
  lemma {:induction false} LinkedClimbable(t: Tree, p: seq<bool>)
    requires AllLinked(t) && At(t, p).Node?
    ensures Climbable(t, p)
  {
    forall k | |p| - Ups(p) <= k <= |p|
      ensures At(t, p[..k]).Node? && At(t, p[..k]).linked
    {
      PrefixNode(t, p, k);
      AtKeeps(t, p[..k]);
    }
  }

  class AVL {
    var root: Tree

    /** A search tree; `rmv` keeps this but not the balance. */
    ghost predicate Valid()
      reads this
    {
      Ordered(root)
    }

    /** Every factor is the true height difference in -1..1 and every
        parent pointer is right, as after any sequence of `add`s. */
    ghost predicate Balanced()
      reads this
    {
      Avl(root) && AllLinked(root)
    }

    /** The values in iteration order. */
    function Contents(): seq<int>
      reads this
    {
      InOrder(root)
    }

    constructor ()
      ensures Valid() && Balanced() && root == Nil
    {
      root := Nil;
    }

    /** `clear`: every node is freed and the tree is empty. */
    method Clear()
      modifies this
      ensures Valid() && Balanced() && Contents() == []
    {
      root := Nil;
    }

    /** The private `find`: walks from the root slot, right when the node's
        value is smaller than `x`, and stops on the node holding `x` or on
        the empty slot where it would go. */
    method Find(x: int) returns (found: bool, path: seq<bool>)
      ensures path == SearchPath(root, x)
      ensures found <==> At(root, path).Node?
      ensures found ==> At(root, path).data == x
      ensures Valid() ==> (found <==> x in Contents())
    {
      var t := root;
      path := [];
      while t.Node?
        invariant t == At(root, path)
        invariant SearchPath(root, x) == path + SearchPath(t, x)
        decreases t
      {
        if t.data == x {
          assert path + [] == path;
          found := true;
          break;
        }
        var d := t.data < x;
        AtAppend(root, path, d);
        SearchStep(t, x, path);
        path, t := path + [d], Son(t, d);
      }
      if t.Nil? {
        assert path + [] == path;
        found := false;
      }
      if Valid() {
        SearchPathEnds(root, x);
      }
    }

    /** `update`: from the node at the end of `p`, the parent's factor
        moves by one towards the side the walk comes from; the walk stops
        at a factor of 0, rotates once and stops at a factor beyond -1..1,
        and otherwise goes on from the parent until the root. */
    method Update(p: seq<bool>, fixed: bool)
      requires At(root, p).Node? && Updated(root, p, fixed).Some?
      modifies this
      ensures root == old(Updated(root, p, fixed)).value
    {
      var j := |p|;
      assert p[..j] == p;
      ghost var goal := Climb(root, p, j, fixed);
      while j > 0
        invariant j <= |p| && At(root, p[..j]).Node? && Climb(root, p, j, fixed) == goal && goal.Some?
        decreases j
      {
        assert At(root, p[..j]).linked;
        ghost var q', par', T' := ClimbStep(root, p, j, fixed);
        var q := p[..j - 1];
        var par := At(root, q);
        var b := par.bal + (if p[j - 1] then 1 else -1);
        root := ReplaceAt(root, q, par.(bal := b));
        assert root == T' && par.(bal := b) == par';
        if b == 0 {
          return;
        }
        if b > 1 || b < -1 {
          var r := Rebalance(par.(bal := b), fixed);
          root := Hang(root, q, r.value);
          return;
        }
        j := j - 1;
      }
    }

    /** `add` as evidently intended: false and nothing changes when `x` is
        stored; otherwise `x` joins the values in order, and a balanced
        tree with right parent pointers stays so. */
    method Add(x: int) returns (added: bool)
      requires Valid() && Added(root, x, true).Some?
      modifies this
      ensures root == old(Added(root, x, true)).value
      ensures added <==> x !in old(Contents())
      ensures Valid() && Contents() == Insert(old(Contents()), x)
      ensures old(Balanced()) ==> Balanced()
    {
      ghost var t := root;
      AddedInOrder(t, x, true);
      if Balanced() {
        AddedAvl(t, x);
      }
      added := AddWith(x, true);
    }

    /** `add` as written, where a double rotation leaves the lifted node's
        old factor: the same search, leaf and walk. */
    method AddAsWritten(x: int) returns (added: bool)
      requires Valid() && Added(root, x, false).Some?
      modifies this
      ensures root == old(Added(root, x, false)).value
      ensures added <==> x !in old(Contents())
      ensures Valid() && Contents() == Insert(old(Contents()), x)
    {
      AddedInOrder(root, x, false);
      added := AddWith(x, false);
    }

    /** The body both versions of `add` share. */
    method AddWith(x: int, fixed: bool) returns (added: bool)
      requires Valid() && Added(root, x, fixed).Some?
      modifies this
      ensures root == old(Added(root, x, fixed)).value
      ensures added <==> x !in old(Contents())
    {
      var found, path := Find(x);
      if found {
        return false;
      }
      GrowAt(root, x);
      assert path[..|path|] == path;
      root := ReplaceAt(root, path, Leaf(x));
      Update(path, fixed);
      added := true;
    }
  
    /** `rmv(x)`: false when the search does not meet `x`.  Otherwise the
        value goes as in `Removed`, without rebalancing, and the function
        ends without a return statement, so no result is defined: `None`. */
    method Rmv(x: int) returns (res: Option<bool>)
      requires Valid()
      modifies this
      ensures root == Removed(old(root), x)
      ensures res.Some? <==> x !in old(Contents())
      ensures res.Some? ==> !res.value
      ensures Valid() && Contents() == Delete(old(Contents()), x)
    {
      ghost var t := root;
      RemovedInOrder(t, x);
      var found, path := Find(x);
      if !found {
        return Some(false);
      }
      var n := At(root, path);
      if n.left.Nil? && n.right.Nil? {
        root := ReplaceAt(root, path, Nil);
        assert root == Removed(t, x);
      } else if n.left.Nil? || n.right.Nil? {
        var temp := if n.left.Node? then n.left else n.right;
        root := ReplaceAt(root, path, Unlink(temp));
        assert root == Removed(t, x);
      } else {
        var r := path + [false];
        AtAppend(root, path, false);
        ghost var R := path + ([false] + RightPath(n.left));
        assert path + [false] + RightPath(n.left) == R;
        while At(root, r).right.Node?
          invariant root == t
          invariant At(root, r).Node? && r + RightPath(At(root, r)) == R
          decreases At(root, r)
        {
          AtAppend(root, r, true);
          assert r + RightPath(At(root, r)) == (r + [true]) + RightPath(At(root, r).right);
          r := r + [true];
        }
        assert r == R;
        var m := At(root, r);
        root := ReplaceAt(root, path, n.(data := m.data));
        root := ReplaceAt(root, r, Unlink(m.left));
        assert root == Removed(t, x);
      }
      res := None;
    }

    /** `begin`: an iterator made from the root, at the first node. */
    method Begin() returns (it: Iterator)
      ensures fresh(it) && it.tree == this && it.current == First(root)
    {
      it := new Iterator(this, []);
      if root.Node? {
        assert [] + LeftPath(root) == LeftPath(root);
      }
    }

    /** `end`: the null iterator. */
    method End() returns (it: Iterator)
      ensures fresh(it) && it.tree == this && it.current == Null
    {
      it := new Iterator.Exact(this, Null);
    }

    /** The public `find` as evidently intended: an iterator at the node
        holding `x`, or `end` when there is none. */
    method FindIter(x: int) returns (it: Iterator)
      ensures fresh(it) && it.tree == this && it.Valid()
      ensures Valid() ==> (it.current.Path? <==> x in Contents())
      ensures it.current.Path? ==> Index(root, it.current.p) < |Contents()| && Contents()[Index(root, it.current.p)] == x
    {
      var found, path := Find(x);
      if found {
        IndexData(root, path);
        it := new Iterator.Exact(this, Path(path));
      } else {
        it := new Iterator.Exact(this, Null);
      }
    }

    /** The public `find` as written: `Iterator(*p)` goes down the left
        children of the node holding `x`, so the iterator is at the first
        value of that node's subtree. */
    method FindIterAsWritten(x: int) returns (it: Iterator)
      ensures fresh(it) && it.tree == this && it.Valid()
      ensures Valid() ==> (it.current.Path? <==> x in Contents())
      ensures it.current.Path? ==> var P := SearchPath(root, x);
        At(root, P).Node? && it.current.p == P + LeftPath(At(root, P)) && Index(root, it.current.p) == Offset(root, P)
    {
      var found, path := Find(x);
      if found {
        it := new Iterator(this, path);
      } else {
        it := new Iterator.Exact(this, Null);
      }
    }

    /** `last` as evidently intended: the last node, down the right
        children from the root.  The empty tree is dereferenced. */
    method Last() returns (r: Result<Iterator>)
      ensures r.Err? <==> root.Nil?
      ensures r.Err? ==> r.error == Undefined
      ensures r.Ok? ==> fresh(r.value) && r.value.tree == this && r.value.current.Path?
      ensures r.Ok? ==> At(root, r.value.current.p).Node? && Index(root, r.value.current.p) + 1 == |Contents()|
    {
      if root.Nil? {
        return Err(Undefined);
      }
      var path := Rightmost();
      var it := new Iterator.Exact(this, Path(path));
      r := Ok(it);
    }

    /** `last` as written: `Iterator(temp)` goes on down the left children
        of the last node, to the first value of its subtree. */
    method LastAsWritten() returns (r: Result<Iterator>)
      ensures r.Err? <==> root.Nil?
      ensures r.Err? ==> r.error == Undefined
      ensures r.Ok? ==> fresh(r.value) && r.value.tree == this && r.value.current.Path?
      ensures r.Ok? ==> At(root, RightPath(root)).Node? && At(root, r.value.current.p).Node?
      ensures r.Ok? ==> var R := RightPath(root); r.value.current.p == R + LeftPath(At(root, R))
      ensures r.Ok? ==> Index(root, r.value.current.p) == Offset(root, RightPath(root))
    {
      if root.Nil? {
        return Err(Undefined);
      }
      var path := Rightmost();
      var it := new Iterator(this, path);
      r := Ok(it);
    }

    /** The loop of `last`: from the root down the right children. */
    method Rightmost() returns (path: seq<bool>)
      requires root.Node?
      ensures path == RightPath(root)
      ensures At(root, path).Node? && At(root, path).right.Nil? && Index(root, path) + 1 == |Contents()|
    {
      var t := root;
      path := [];
      while t.right.Node?
        invariant t.Node? && t == At(root, path) && path + RightPath(t) == RightPath(root)
        decreases t
      {
        AtAppend(root, path, true);
        assert path + RightPath(t) == (path + [true]) + RightPath(t.right);
        path, t := path + [true], t.right;
      }
      assert path + [] == path;
      assert [] + path == path;
      RightmostIndex(root, [], path);
    }

    /** A loop over the tree with `begin`, `end`, `operator*` and prefix
        `operator++`: it meets every value once, in the in-order sequence.
        It reads every node's `parent` pointer. */
    method Walk() returns (vs: seq<int>)
      requires AllLinked(root)
      ensures vs == Contents()
      ensures Valid() ==> Ascending(vs)
    {
      var it := Begin();
      var stop := End();
      vs := [];
      while it.current != stop.current
        invariant it.tree == this && it.Valid() && it != stop && stop.current == Null
        invariant |vs| <= |Contents()| && vs == Contents()[..|vs|]
        invariant it.current.Path? ==> Index(root, it.current.p) == |vs|
        invariant it.current.Null? ==> |vs| == |Contents()|
        decreases |Contents()| - |vs|
      {
        var v := it.Deref();
        assert Contents()[..|vs| + 1] == vs + [v.value];
        LinkedClimbable(root, it.current.p);
        SuccessorIndex(root, it.current.p);
        var _ := it.Next();
        vs := vs + [v.value];
      }
      assert Contents()[..|vs|] == Contents();
    }
  }

  /** The loop of `Iterator(Node*)` and of `operator++` below a right
      child: from the node in slot `p` down the left children. */
  method DescendLeft(t: Tree, p: seq<bool>) returns (q: seq<bool>)
    requires At(t, p).Node?
    ensures q == p + LeftPath(At(t, p))
    ensures At(t, q).Node? && At(t, q).left.Nil? && Index(t, q) == Offset(t, p)
  {
    LeftmostIndex(t, p);
    var n := At(t, p);
    q := p;
    while n.left.Node?
      invariant n.Node? && n == At(t, q) && q + LeftPath(n) == p + LeftPath(At(t, p))
      decreases n
    {
      AtAppend(t, q, false);
      assert q + LeftPath(n) == (q + [false]) + LeftPath(n.left);
      q, n := q + [false], n.left;
    }
    assert q + [] == q;
  }

  /** `AVL::Iterator`: the node `current` points at, null for `end`. */
  class Iterator {
    const tree: AVL
    var current: Position

    /** `current` is null or names a node of the tree. */
    ghost predicate Valid()
      reads this, tree
    {
      current.Null? || At(tree.root, current.p).Node?
    }

    /** `Iterator(Node*)` on the node in slot `p`: down its left children
        to the first node of its subtree; null when the slot is empty. */
    constructor (h: AVL, p: seq<bool>)
      ensures tree == h && Valid()
      ensures current.Null? <==> At(h.root, p).Nil?
      ensures current.Path? ==>
        (current.p == p + LeftPath(At(h.root, p)) &&
         At(h.root, current.p).left.Nil? && Index(h.root, current.p) == Offset(h.root, p))
    {
      tree := h;
      var n := At(h.root, p);
      if n.Nil? {
        current := Null;
      } else {
        var q := DescendLeft(h.root, p);
        current := Path(q);
      }
    }

    /** An iterator at a given position: the copy constructor, and
        `Iterator()` and `Iterator(nullptr)` for `Null`. */
    constructor Exact(h: AVL, pos: Position)
      ensures tree == h && current == pos
    {
      tree := h;
      current := pos;
    }

    /** `operator++` as evidently intended: a copy of the iterator as it
        was, and the iterator moved to the next node. */
    method Next() returns (r: Iterator)
      requires Valid()
      requires current.Path? && At(tree.root, current.p).right.Nil? ==> Climbable(tree.root, current.p)
      modifies this
      ensures fresh(r) && r.tree == tree && r.current == old(current)
      ensures current == if old(current).Null? then Null else Successor(tree.root, old(current).p)
      ensures Valid()
    {
      r := new Iterator.Exact(tree, current);
      Advance();
    }

    /** `operator++` as written: the copy it returns is `Iterator(current)`,
        which goes down the left children of the old node. */
    method NextAsWritten() returns (r: Iterator)
      requires Valid()
      requires current.Path? && At(tree.root, current.p).right.Nil? ==> Climbable(tree.root, current.p)
      modifies this
      ensures fresh(r) && r.tree == tree
      ensures r.current == if old(current).Null? then Null else Path(old(current).p + LeftPath(At(tree.root, old(current).p)))
      ensures current == if old(current).Null? then Null else Successor(tree.root, old(current).p)
      ensures Valid()
    {
      if current.Null? {
        r := new Iterator.Exact(tree, current);
        return;
      }
      r := new Iterator(tree, current.p);
      Advance();
    }

    /** The move of `operator++`: down the right child and its left
        children, or up the `parent` pointers to the first node reached
        from its left child, or to null above the root. */
    method Advance()
      requires Valid()
      requires current.Path? && At(tree.root, current.p).right.Nil? ==> Climbable(tree.root, current.p)
      modifies this
      ensures current == if old(current).Null? then Null else Successor(tree.root, old(current).p)
      ensures Valid()
    {
      if current.Null? {
        return;
      }
      var t, p := tree.root, current.p;
      SuccessorIndex(t, p);
      var n := At(t, p);
      if n.right.Node? {
        AtAppend(t, p, true);
        var q := DescendLeft(t, p + [true]);
        current := Path(q);
        return;
      }
      current := Climb(t, p);
    }

    /** The climb of `operator++` from a node without a right child: up the
        `parent` pointers while the node is a right child; the parent of
        the first left child reached, or null above the root. */
    static method Climb(t: Tree, p: seq<bool>) returns (r: Position)
      requires At(t, p).Node? && Climbable(t, p)
      ensures r == if Ups(p) == |p| then Null else Path(p[..|p| - Ups(p) - 1])
    {
      var q := p;
      while true
        invariant |p| - Ups(p) <= |q| <= |p| && q == p[..|q|]
        invariant Ups(q) + (|p| - |q|) == Ups(p)
        decreases |q|
      {
        // The `parent` pointer read here names the parent.
        assert At(t, p[..|q|]).linked;
        if q == [] {
          return Null;
        }
        if !q[|q| - 1] {
          assert q[..|q| - 1] == p[..|q| - 1];
          return Path(q[..|q| - 1]);
        }
        assert q[..|q| - 1] == p[..|q| - 1];
        q := q[..|q| - 1];
      }
    }

    /** `operator*`: a `runtime_error` on null, otherwise the value of the
        node, which is its place in the in-order sequence. */
    method Deref() returns (r: Result<int>)
      requires Valid()
      ensures r.Err? <==> current.Null?
      ensures r.Err? ==> r.error == RuntimeError
      ensures r.Ok? ==>
        (Index(tree.root, current.p) < |InOrder(tree.root)| &&
         r.value == InOrder(tree.root)[Index(tree.root, current.p)])
    {
      if current.Null? {
        return Err(RuntimeError);
      }
      IndexData(tree.root, current.p);
      r := Ok(At(tree.root, current.p).data);
    }
  }

  /** The tree after `add(2)` then `add(1)`: 2 with the left child 1. */
  lemma {:induction false} TwoThenOne()
    ensures Added(Nil, 2, true) == Some(Leaf(2))
    ensures Added(Leaf(2), 1, true) == Some(Node(-1, 2, true, Leaf(1), Nil))
  {
    assert SearchPath(Nil, 2) == [] && Grow(Nil, 2) == Leaf(2);
    assert Updated(Leaf(2), [], true) == Some(Leaf(2));
    var P := [false];
    assert SearchPath(Leaf(2), 1) == P && P[..1] == P && P[..0] == [];
    var G := Node(0, 2, true, Leaf(1), Nil);
    assert Grow(Leaf(2), 1) == G;
    assert Climb(G, P, 1, true) == Climb(G.(bal := -1), P, 0, true);
  }

  /** The tree after `add(2)` then `add(1)`, built with the class. */
  method TwoThenOneTree() returns (h: AVL)
    ensures fresh(h) && h.root == Node(-1, 2, true, Leaf(1), Nil)
  {
    h := new AVL();
    TwoThenOne();
    var _ := h.Add(2);
    var _ := h.Add(1);
  }

  /** What the iterators see in that tree: 1 then 2 in order, 2 at the
      root, and every `parent` pointer right. */
  lemma {:induction false} TwoThenOneWalk(t: Tree)
    requires t == Node(-1, 2, true, Leaf(1), Nil)
    ensures First(t) == Path([false]) && LeftPath(t) == [false] && LeftPath(At(t, [false])) == []
    ensures Climbable(t, [false]) && Successor(t, [false]) == Path([])
    ensures Climbable(t, []) && Successor(t, []) == Null
    ensures SearchPath(t, 2) == [] && InOrder(t) == [1, 2]
    ensures Index(t, [false]) == 0 && Index(t, []) == 1
  {
    assert [false][..0] == [] && [false][..1] == [false];
    assert Ups([false]) == 0 && Ups([]) == 0;
    assert [false] + [] == [false];
  }

  /** `add(2)`, `add(1)`, then `begin`, `++` twice, `*` on what the second
      `++` returned, and `*` on `find(2)`: as written both give 1, the first
      value of the subtree of 2, where 2 is meant. */
  method IteratorsDescend() returns (stepped: Result<int>, found: Result<int>)
    ensures stepped == Ok(1) && found == Ok(1)
  {
    var h := TwoThenOneTree();
    TwoThenOneWalk(h.root);
    var it := h.Begin();
    var _ := it.NextAsWritten();
    var r := it.NextAsWritten();
    stepped := r.Deref();
    var f := h.FindIterAsWritten(2);
    found := f.Deref();
  }

  /** The same calls as evidently intended give 2 both times. */
  method IteratorsStay() returns (stepped: Result<int>, found: Result<int>)
    ensures stepped == Ok(2) && found == Ok(2)
  {
    var h := TwoThenOneTree();
    TwoThenOneWalk(h.root);
    var it := h.Begin();
    var _ := it.Next();
    var r := it.Next();
    stepped := r.Deref();
    var f := h.FindIter(2);
    found := f.Deref();
  }

  /** The tree after adding 10, 5, 20, 15 and 25: 10 leaning right over 5
      and 20, with 15 and 25 under 20. */
  function FiveAdds(): Tree
  {
    Node(1, 10, true, Node(0, 5, true, Nil, Nil), Node(0, 20, true, Node(0, 15, true, Nil, Nil), Node(0, 25, true, Nil, Nil)))
  }

  /** What adding 13 to `FiveAdds` builds: 15 lifted over 10 and 20 by the
      double rotation at 10, with `factor` as the lifted node's factor. */
  function ThirteenAdded(factor: int): Tree
  {
    var l := Node(0, 10, true, Node(0, 5, true, Nil, Nil), Node(0, 13, true, Nil, Nil));
    Node(factor, 15, true, l, Node(1, 20, true, Nil, Node(0, 25, true, Nil, Nil)))
  }

  /** `FiveAdds` with the leaf 13 hung under 15, the factors of 20 and 15
      as given. */
  function ThirteenGrown(b20: int, b15: int): Tree
  {
    var r := Node(b20, 20, true, Node(b15, 15, true, Node(0, 13, true, Nil, Nil), Nil), Node(0, 25, true, Nil, Nil));
    Node(1, 10, true, Node(0, 5, true, Nil, Nil), r)
  }

  /** The search for 13 goes right, left, left and ends on an empty slot. */
  lemma {:induction false} ThirteenGrows()
    ensures SearchPath(FiveAdds(), 13) == [true, false, false]
    ensures At(FiveAdds(), [true, false, false]).Nil?
    ensures Grow(FiveAdds(), 13) == ThirteenGrown(0, 0)
  {
  }

  /** The climb from 13 lowers 15 to -1 and goes on to 20. */
  lemma {:induction false} FifteenLeans(fixed: bool)
    ensures At(ThirteenGrown(0, 0), [true, false, false]).Node?
    ensures At(ThirteenGrown(0, -1), [true, false, false][..2]).Node?
    ensures Updated(ThirteenGrown(0, 0), [true, false, false], fixed)
         == Climb(ThirteenGrown(0, -1), [true, false, false], 2, fixed)
  {
    var P := [true, false, false];
    assert P[..3] == P && P[..2] == [true, false];
  }

  /** The climb lowers 20 to -1 and goes on to 10. */
  lemma {:induction false} TwentyLeans(fixed: bool)
    ensures At(ThirteenGrown(0, -1), [true, false, false][..2]).Node?
    ensures At(ThirteenGrown(-1, -1), [true]).Node?
    ensures Climb(ThirteenGrown(0, -1), [true, false, false], 2, fixed)
         == Climb(ThirteenGrown(-1, -1), [true, false, false], 1, fixed)
  {
    var P := [true, false, false];
    assert P[..2] == [true, false] && P[..1] == [true];
  }

  /** 10 reaches 2 and `rebalance_checking` rotates doubly because 20 leans
      left. */
  lemma {:induction false} ThirteenRotates(fixed: bool)
    ensures At(ThirteenGrown(-1, -1), [true]).Node?
    ensures Climb(ThirteenGrown(-1, -1), [true, false, false], 1, fixed) == Some(ThirteenAdded(if fixed then 0 else -1))
  {
    var P := [true, false, false];
    assert P[..1] == [true] && P[..0] == [];
    var G2 := ThirteenGrown(-1, -1);
    var R := DoubleRotate(G2.(bal := 2), true, fixed);
    assert Rebalance(G2.(bal := 2), fixed) == Some(R);
    assert R == ThirteenAdded(if fixed then 0 else -1);
  }

  /** The climb from the new leaf 13: 15 and 20 lean left, 10 reaches 2, and
      `rebalance_checking` rotates doubly because 20 leans left. */
  lemma {:induction false} ThirteenClimbs(fixed: bool)
    ensures Added(FiveAdds(), 13, fixed) == Some(ThirteenAdded(if fixed then 0 else -1))
  {
    var P := [true, false, false];
    ThirteenGrows();
    FifteenLeans(fixed);
    TwentyLeans(fixed);
    ThirteenRotates(fixed);
  }

  /** `double_rotate` as written never resets the factor of `pivot_1`:
      adding 13 to the balanced tree `FiveAdds` leaves 15 at the root with
      factor -1 over two subtrees of height 2.  Resetting it gives a
      balanced tree. */
  lemma {:induction false} FactorKept()
    ensures Avl(FiveAdds()) && AllLinked(FiveAdds()) && Ordered(FiveAdds())
    ensures Added(FiveAdds(), 13, false) == Some(ThirteenAdded(-1)) && !Avl(ThirteenAdded(-1))
    ensures Added(FiveAdds(), 13, true) == Some(ThirteenAdded(0)) && Avl(ThirteenAdded(0))
  {
    FiveAddsValid();
    ThirteenClimbs(false);
    ThirteenClimbs(true);
    ThirteenFactors();
  }

  lemma {:induction false} FiveAddsValid()
    ensures Avl(FiveAdds()) && AllLinked(FiveAdds()) && Ordered(FiveAdds())
  {
    FiveAddsBalanced();
    FiveAddsLinked();
    FiveAddsOrdered();
  }

  lemma FiveAddsBalanced()
    ensures Avl(FiveAdds())
  {
  }

  lemma FiveAddsLinked()
    ensures AllLinked(FiveAdds())
  {
  }

  lemma FiveAddsOrdered()
    ensures Ordered(FiveAdds())
  {
    assert InOrder(FiveAdds()) == [5, 10, 15, 20, 25];
  }

  /** Both sides of 15 have height 2 in the tree adding 13 builds. */
  lemma {:induction false} ThirteenFactors()
    ensures !Avl(ThirteenAdded(-1)) && Avl(ThirteenAdded(0))
  {
    ThirteenLeft();
    ThirteenRight();
  }

  /** The subtree rooted at 10 after the double rotation: balanced, height 2. */
  lemma ThirteenLeft()
    ensures Avl(ThirteenAdded(0).left) && Height(ThirteenAdded(0).left) == 2
    ensures ThirteenAdded(-1).left == ThirteenAdded(0).left
  {
  }

  /** The subtree rooted at 20 after the double rotation: balanced, height 2. */
  lemma ThirteenRight()
    ensures Avl(ThirteenAdded(0).right) && Height(ThirteenAdded(0).right) == 2
    ensures ThirteenAdded(-1).right == ThirteenAdded(0).right
  {
  }
}
