/** SBT: the plain binary search tree. A search goes to the right child when
    the node's value is smaller than the key and to the left child otherwise,
    and stops on an equal value. The tree is held as a value; a slot of the
    source (a `Node**` into the root or a child field) is the path of
    directions that leads to it, `true` for right. */
module SimpleBinaryTrees {
  import opened Common
  import opened Sorted

  datatype Tree = Nil | Node(left: Tree, data: int, right: Tree)

  /** `Node::son`: the left child for `false`, the right child for `true`. */
  function Son(t: Tree, id: bool): (s: Tree)
    requires t.Node?
    ensures s < t
  {
    if id then t.right else t.left
  }

  /** The node `t` with its child on side `id` replaced by `s`. */
  function SetSon(t: Tree, id: bool, s: Tree): (t': Tree)
    requires t.Node?
    ensures t'.Node? && t'.data == t.data && Son(t', id) == s && Son(t', !id) == Son(t, !id)
  {
    if id then Node(t.left, t.data, s) else Node(s, t.data, t.right)
  }

  function Elems(t: Tree): set<int>
  {
    if t.Nil? then {} else Elems(t.left) + {t.data} + Elems(t.right)
  }

  /** Every value of a left subtree is smaller than its node's value and
      every value of a right subtree larger. */
  ghost predicate Bst(t: Tree)
  {
    t.Node? ==>
      Bst(t.left) && Bst(t.right) &&
      (forall y :: y in Elems(t.left) ==> y < t.data) &&
      (forall y :: y in Elems(t.right) ==> t.data < y)
  }

  function InOrder(t: Tree): seq<int>
  {
    if t.Nil? then [] else InOrder(t.left) + [t.data] + InOrder(t.right)
  }

  /** The order `print_pre` writes the values in. */
  function PreOrder(t: Tree): seq<int>
  {
    if t.Nil? then [] else [t.data] + PreOrder(t.left) + PreOrder(t.right)
  }

  /** `count`: the number of nodes. */
  function Count(t: Tree): nat
  {
    if t.Nil? then 0 else 1 + Count(t.left) + Count(t.right)
  }

  /** `get_height`: -1 for the empty tree, else one more than the higher
      child. */
  function Height(t: Tree): (h: int)
    ensures h >= -1
  {
    if t.Nil? then -1
    else
      var l, r := Height(t.left), Height(t.right);
      (if l > r then l else r) + 1
  }

  /** The subtree a slot holds: the root for the empty path, then one child
      per direction. */
  function At(t: Tree, p: seq<bool>): Tree
  {
    if p == [] then t else if t.Nil? then Nil else At(Son(t, p[0]), p[1..])
  }

  /** Stores `s` in the slot at path `p`. */
  function ReplaceAt(t: Tree, p: seq<bool>, s: Tree): Tree
  {
    if p == [] then s else if t.Nil? then t else SetSon(t, p[0], ReplaceAt(Son(t, p[0]), p[1..], s))
  }

  /** Where `add` puts `x`: a new leaf at the empty slot the search ends on,
      and nothing new when the search meets `x`. */
  function BstInsert(t: Tree, x: int): (r: Tree)
    ensures Elems(r) == Elems(t) + {x}
    ensures Bst(t) ==> Bst(r)
    ensures Bst(t) && x in Elems(t) ==> r == t
    ensures x !in Elems(t) ==> Count(r) == Count(t) + 1
  {
    if t.Nil? then Node(Nil, x, Nil)
    else if t.data == x then t
    else if t.data < x then Node(t.left, t.data, BstInsert(t.right, x))
    else Node(BstInsert(t.left, x), t.data, t.right)
  }

  /** `father_recursive`: the node whose child on the search side holds `x`;
      Nil when the tree is empty, `x` is at its root, or `x` is absent. */
  function FatherRecursive(t: Tree, x: int): (f: Tree)
    ensures f.Node? ==> Son(f, f.data < x).Node? && Son(f, f.data < x).data == x
    ensures f.Node? ==> f.data != x
  {
    if t.Nil? || t.data == x then Nil
    else
      var son := Son(t, t.data < x);
      if son.Nil? then Nil
      else if son.data == x then t
      else FatherRecursive(son, x)
  }

  /** The search moves towards `x`: below a node with another value, `x` can
      only be in the child the search takes. */
  lemma {:induction false} SearchSide(t: Tree, x: int)
    requires Bst(t) && t.Node? && t.data != x
    ensures x in Elems(t) <==> x in Elems(Son(t, t.data < x))
  {
  }

  /** The in-order sequence lists exactly the stored values. */
  lemma {:induction false} InOrderElems(t: Tree)
    ensures forall y :: y in InOrder(t) <==> y in Elems(t)
  {
    if t.Node? {
      InOrderElems(t.left);
      InOrderElems(t.right);
    }
  }

  /** A search tree lists its values in strictly ascending order, and a tree
      that lists them so is a search tree. */
  lemma {:induction false} BstAscending(t: Tree)
    ensures Bst(t) <==> Ascending(InOrder(t))
  {
    if t.Node? {
      BstAscending(t.left);
      BstAscending(t.right);
      InOrderElems(t.left);
      InOrderElems(t.right);
      if Bst(t) {
        JoinAscending(InOrder(t.left), t.data, InOrder(t.right));
      }
      if Ascending(InOrder(t)) {
        SplitAscending(InOrder(t.left), t.data, InOrder(t.right));
      }
    }
  }

  /** Two ascending sequences joined around a value between them. */
  lemma {:induction false} JoinAscending(l: seq<int>, v: int, r: seq<int>)
    requires Ascending(l) && Ascending(r)
    requires forall y :: y in l ==> y < v
    requires forall y :: y in r ==> v < y
    ensures Ascending(l + [v] + r)
  {
    var s := l + [v] + r;
    forall i, j | 0 <= i < j < |s| ensures s[i] < s[j] {
      if j < |l| {
      } else if i > |l| {
        assert s[i] == r[i - |l| - 1] && s[j] == r[j - |l| - 1];
      } else if i < |l| {
        assert s[i] in l;
        if j > |l| { assert s[j] == r[j - |l| - 1] && s[j] in r; }
      } else {
        assert s[j] == r[j - |l| - 1] && s[j] in r;
      }
    }
  }

  /** The parts of an ascending sequence around one of its values. */
  lemma {:induction false} SplitAscending(l: seq<int>, v: int, r: seq<int>)
    requires Ascending(l + [v] + r)
    ensures Ascending(l) && Ascending(r)
    ensures forall y :: y in l ==> y < v
    ensures forall y :: y in r ==> v < y
  {
    var s := l + [v] + r;
    assert Ascending(l) by {
      forall i, j | 0 <= i < j < |l| ensures l[i] < l[j] { assert s[i] == l[i] && s[j] == l[j]; }
    }
    assert Ascending(r) by {
      forall i, j | 0 <= i < j < |r| ensures r[i] < r[j] {
        assert s[|l| + 1 + i] == r[i] && s[|l| + 1 + j] == r[j];
      }
    }
    forall y | y in l ensures y < v {
      var i :| 0 <= i < |l| && l[i] == y;
      assert s[i] == y && s[|l|] == v;
    }
    forall y | y in r ensures v < y {
      var i :| 0 <= i < |r| && r[i] == y;
      assert s[|l| + 1 + i] == y && s[|l|] == v;
    }
  }

  /** Sorted insertion skips a prefix of smaller values. */
  lemma {:induction false} InsertAfterSmaller(a: seq<int>, b: seq<int>, x: int)
    requires forall i :: 0 <= i < |a| ==> a[i] < x
    ensures Insert(a + b, x) == a + Insert(b, x)
  {
    if a != [] {
      assert (a + b)[0] == a[0] < x && (a + b)[1..] == a[1..] + b;
      InsertAfterSmaller(a[1..], b, x);
      assert [a[0]] + (a[1..] + Insert(b, x)) == a + Insert(b, x);
    } else {
      assert a + b == b && a + Insert(b, x) == Insert(b, x);
    }
  }

  /** Sorted insertion before a larger value stays in front of it. */
  lemma {:induction false} InsertBeforeLarger(a: seq<int>, b: seq<int>, x: int)
    requires b != [] && x < b[0]
    ensures Insert(a + b, x) == Insert(a, x) + b
  {
    if a == [] {
      assert a + b == b;
    } else {
      assert (a + b)[0] == a[0] && (a + b)[1..] == a[1..] + b;
      if a[0] < x {
        InsertBeforeLarger(a[1..], b, x);
      }
    }
  }

  /** Adding to the search tree inserts into its in-order sequence. */
  lemma {:induction false} InsertInOrder(t: Tree, x: int)
    requires Bst(t)
    ensures InOrder(BstInsert(t, x)) == Insert(InOrder(t), x)
  {
    if t.Node? {
      if t.data < x {
        InsertInOrder(t.right, x);
        InsertRight(t, x);
      } else if x < t.data {
        InsertInOrder(t.left, x);
        InsertLeft(t, x);
      } else {
        BstAscending(t);
        assert InOrder(t)[|InOrder(t.left)|] == x;
        InsertPresent(InOrder(t), x);
      }
    }
  }

  /** The step of `InsertInOrder` for a value above the node's. */
  lemma {:induction false} InsertRight(t: Tree, x: int)
    requires Bst(t) && t.Node? && t.data < x
    requires InOrder(BstInsert(t.right, x)) == Insert(InOrder(t.right), x)
    ensures InOrder(BstInsert(t, x)) == Insert(InOrder(t), x)
  {
    var l, r := InOrder(t.left), InOrder(t.right);
    InOrderElems(t.left);
    forall i | 0 <= i < |l + [t.data]| ensures (l + [t.data])[i] < x {
      if i < |l| { assert l[i] in l; }
    }
    InsertAfterSmaller(l + [t.data], r, x);
    assert BstInsert(t, x) == Node(t.left, t.data, BstInsert(t.right, x));
  }

  /** The step of `InsertInOrder` for a value below the node's. */
  lemma {:induction false} InsertLeft(t: Tree, x: int)
    requires t.Node? && x < t.data
    requires InOrder(BstInsert(t.left, x)) == Insert(InOrder(t.left), x)
    ensures InOrder(BstInsert(t, x)) == Insert(InOrder(t), x)
  {
    var l, r := InOrder(t.left), InOrder(t.right);
    InsertBeforeLarger(l, [t.data] + r, x);
    assert l + [t.data] + r == l + ([t.data] + r);
    assert BstInsert(t, x) == Node(BstInsert(t.left, x), t.data, t.right);
  }

  lemma {:induction false} AtAppend(t: Tree, p: seq<bool>, d: bool)
    requires At(t, p).Node?
    ensures At(t, p + [d]) == Son(At(t, p), d)
  {
    if p != [] {
      assert (p + [d])[1..] == p[1..] + [d];
      AtAppend(Son(t, p[0]), p[1..], d);
    }
  }

  /** Storing through a longer path rebuilds the node at the shorter one. */
  lemma {:induction false} ReplaceAppend(t: Tree, p: seq<bool>, d: bool, s: Tree)
    requires At(t, p).Node?
    ensures ReplaceAt(t, p + [d], s) == ReplaceAt(t, p, SetSon(At(t, p), d, s))
  {
    if p != [] {
      assert (p + [d])[1..] == p[1..] + [d];
      ReplaceAppend(Son(t, p[0]), p[1..], d, s);
    }
  }

  /** Every subtree of a search tree is one. */
  lemma {:induction false} BstAt(t: Tree, p: seq<bool>)
    requires Bst(t)
    ensures Bst(At(t, p))
  {
    if p != [] && t.Node? {
      BstAt(Son(t, p[0]), p[1..]);
    }
  }

  /** A tree of height h has more than h and fewer than 2^(h+1) nodes. */
  lemma {:induction false} HeightCount(t: Tree)
    ensures Height(t) < Count(t) && Count(t) < Pow2(Height(t) + 1)
  {
    if t.Node? {
      HeightCount(t.left);
      HeightCount(t.right);
      var h := Height(t);
      Pow2Grows(Height(t.left) + 1, h);
      Pow2Grows(Height(t.right) + 1, h);
    }
  }

  /** `count` of a search tree is the number of values it stores. */
  lemma {:induction false} CountElems(t: Tree)
    requires Bst(t)
    ensures Count(t) == |Elems(t)| == |InOrder(t)|
  {
    if t.Node? {
      CountElems(t.left);
      CountElems(t.right);
      var L, R := Elems(t.left), Elems(t.right);
      assert L !! {t.data} && (L + {t.data}) !! R by {
        forall y | y in L ensures y < t.data { }
        forall y | y in R ensures t.data < y { }
      }
    }
  }

  /** The father found for `x` in a search tree exists exactly when `x` is
      stored below the root. */
  lemma {:induction false} FatherExists(t: Tree, x: int)
    requires Bst(t)
    ensures FatherRecursive(t, x).Node? <==> t.Node? && t.data != x && x in Elems(t)
  {
    if t.Node? && t.data != x {
      var son := Son(t, t.data < x);
      SearchSide(t, x);
      if son.Node? && son.data != x {
        FatherExists(son, x);
      }
    }
  }

  /** What the explicit stack of `printIterative` has left to write: the
      stack's top is its last element, and the pre-orders of the stacked
      trees are written from the top down. */
  function Pending(st: seq<Tree>): seq<int>
  {
    if st == [] then [] else PreOrder(st[|st| - 1]) + Pending(st[..|st| - 1])
  }

  /** Pushing the right and then the left child puts the left child's values
      first. */
  lemma {:induction false} PendingPush(st: seq<Tree>, a: Tree, b: Tree)
    ensures Pending(st + [a, b]) == PreOrder(b) + PreOrder(a) + Pending(st)
  {
    var st' := st + [a, b];
    assert st'[..|st'| - 1] == st + [a] && (st + [a])[..|st|] == st;
  }

  /** Popping a node off the stack writes its value and leaves its children,
      the left one on top. */
  lemma {:induction false} PendingPop(st: seq<Tree>)
    requires st != [] && st[|st| - 1].Node?
    ensures var n, rest := st[|st| - 1], st[..|st| - 1];
      Pending(st) == [n.data] + Pending(rest + [n.right, n.left])
  {
    var n, rest := st[|st| - 1], st[..|st| - 1];
    assert Pending(st) == PreOrder(n) + Pending(rest);
    PendingPush(rest, n.right, n.left);
    calc {
      Pending(st);
      PreOrder(n) + Pending(rest);
      [n.data] + PreOrder(n.left) + PreOrder(n.right) + Pending(rest);
      [n.data] + (PreOrder(n.left) + PreOrder(n.right) + Pending(rest));
    }
  }

  class SBT {
    var root: Tree

    ghost predicate Valid()
      reads this
    {
      Bst(root)
    }

    constructor ()
      ensures Valid() && root == Nil
    {
      root := Nil;
    }

    /** `clear`: the tree becomes empty. */
    method Clear()
      modifies this
      ensures Valid() && root == Nil
    {
      root := Nil;
    }

    /** The private `find`: walks from the root slot towards `x` and stops
        on the node holding it or on the empty slot where it would go. */
    method Find(x: int) returns (found: bool, path: seq<bool>)
      requires Valid()
      ensures found <==> x in Elems(root)
      ensures found ==> At(root, path).Node? && At(root, path).data == x
      ensures !found ==> At(root, path) == Nil && ReplaceAt(root, path, Node(Nil, x, Nil)) == BstInsert(root, x)
    {
      var t := root;
      path := [];
      while t.Node?
        invariant t == At(root, path) && Bst(t)
        invariant x in Elems(root) <==> x in Elems(t)
        invariant BstInsert(root, x) == ReplaceAt(root, path, BstInsert(t, x))
        decreases t
      {
        if t.data == x {
          return true, path;
        }
        var d := t.data < x;
        SearchSide(t, x);
        AtAppend(root, path, d);
        ReplaceAppend(root, path, d, BstInsert(Son(t, d), x));
        path, t := path + [d], Son(t, d);
      }
      found := false;
    }

    /** `add`: false when `x` is stored; otherwise a new leaf holding `x`
        fills the slot the search ended on. */
    method Add(x: int) returns (added: bool)
      requires Valid()
      modifies this
      ensures Valid()
      ensures added <==> x !in old(Elems(root))
      ensures root == BstInsert(old(root), x)
    {
      var found, path := Find(x);
      if found {
        return false;
      }
      root := ReplaceAt(root, path, Node(Nil, x, Nil));
      return true;
    }

    /** `countNodes`. */
    method CountNodes() returns (n: nat)
      requires Valid()
      ensures n == Count(root) == |Elems(root)|
    {
      CountElems(root);
      n := Count(root);
    }

    /** `getHeight`. */
    method GetHeight() returns (h: int)
      ensures h == Height(root)
      ensures h < Count(root) < Pow2(h + 1)
    {
      HeightCount(root);
      h := Height(root);
    }

    /** `father_iterative`: the same node as `father_recursive`, found by a
        loop that keeps the father and the son it is about to look at. */
    method FatherIterative(x: int) returns (f: Tree)
      ensures f == FatherRecursive(root, x)
    {
      if root.Nil? || root.data == x {
        return Nil;
      }
      var father := root;
      var son := Son(root, root.data < x);
      while son.Node?
        invariant father.Node? && father.data != x && son == Son(father, father.data < x)
        invariant FatherRecursive(root, x) == FatherRecursive(father, x)
        decreases son
      {
        if son.data == x {
          return father;
        }
        father := son;
        son := Son(father, father.data < x);
      }
      return Nil;
    }

    /** `getFatherOf`: the father of `x`, found recursively or iteratively;
        a runtime_error when there is none. */
    method GetFatherOf(x: int, recursive: bool) returns (r: Result<Tree>)
      requires Valid()
      ensures r.Ok? <==> root.Node? && root.data != x && x in Elems(root)
      ensures r.Ok? ==> r.value.Node? && Son(r.value, r.value.data < x).Node? && Son(r.value, r.value.data < x).data == x
      ensures r.Err? ==> r.error == RuntimeError
      ensures r.Ok? <==> FatherRecursive(root, x).Node?
      ensures r.Ok? ==> r.value == FatherRecursive(root, x)
    {
      var father;
      if recursive {
        father := FatherRecursive(root, x);
      } else {
        father := FatherIterative(x);
      }
      FatherExists(root, x);
      if father.Nil? {
        return Err(RuntimeError);
      }
      return Ok(father);
    }

    /** `getBrotherOf`: the father's child on the side away from `x`. Every
        exception is caught and rethrown by copy as a plain std::exception. */
    method GetBrotherOf(x: int, recursive: bool) returns (r: Result<Tree>)
      requires Valid()
      ensures r.Ok? <==> (var f := FatherRecursive(root, x); f.Node? && Son(f, !(f.data < x)).Node?)
      ensures r.Ok? ==> var f := FatherRecursive(root, x); r.value == Son(f, !(f.data < x))
      ensures r.Err? ==> r.error == Exception
    {
      var father := GetFatherOf(x, recursive);
      if father.Err? {
        return Err(Exception);
      }
      var f := father.value;
      var bro := Son(f, !(f.data < x));
      if bro.Nil? {
        return Err(Exception);
      }
      return Ok(bro);
    }

    /** `getUncleOf`: the brother of the father of `x`. */
    method GetUncleOf(x: int, recursive: bool) returns (r: Result<Tree>)
      requires Valid()
      ensures r.Ok? <==> (var f := FatherRecursive(root, x);
        f.Node? && (var g := FatherRecursive(root, f.data); g.Node? && Son(g, !(g.data < f.data)).Node?))
      ensures r.Ok? ==> (var f := FatherRecursive(root, x); var g := FatherRecursive(root, f.data);
        r.value == Son(g, !(g.data < f.data)))
      ensures r.Err? ==> r.error == Exception
    {
      var father := GetFatherOf(x, recursive);
      if father.Err? {
        return Err(Exception);
      }
      var uncle := GetBrotherOf(father.value.data, recursive);
      if uncle.Err? {
        return Err(Exception);
      }
      return uncle;
    }

    /** `printIterative`: a stack seeded with the root; each popped node is
        written, then its right and its left child are pushed. */
    method PrintIterative() returns (out: seq<int>)
      ensures out == PreOrder(root)
    {
      var stack := [root];
      out := [];
      assert Pending(stack) == PreOrder(root) + Pending([]);
      while stack != []
        invariant out + Pending(stack) == PreOrder(root)
        decreases |PreOrder(root)| - |out|, |stack|
      {
        var node := stack[|stack| - 1];
        var rest := stack[..|stack| - 1];
        if node.Node? {
          PendingPop(stack);
          out := out + [node.data];
          stack := rest + [node.right, node.left];
        } else {
          assert Pending(stack) == Pending(rest);
          stack := rest;
        }
      }
    }
  }

  /** The tree built by adding 6, 1, 5, 7, 8, 4, 3 to an empty tree. */
  function ScenarioTree(): Tree
  {
    Node(Node(Nil, 1, Node(Node(Node(Nil, 3, Nil), 4, Nil), 5, Nil)), 6, Node(Nil, 7, Node(Nil, 8, Nil)))
  }

  lemma {:induction false} ScenarioFacts()
    ensures Count(ScenarioTree()) == 7 && Height(ScenarioTree()) == 4
    ensures FatherRecursive(ScenarioTree(), 7) == ScenarioTree()
    ensures FatherRecursive(ScenarioTree(), 5) == ScenarioTree().left
    ensures PreOrder(ScenarioTree()) == [6, 1, 5, 4, 3, 7, 8]
  {
    var t := ScenarioTree();
    assert Count(t.left.right) == 3 && Height(t.left.right) == 2;
    assert FatherRecursive(t.left, 5) == t.left;
  }

  /** The tree of the scenario, built with `add` 6, 1, 5, 7, 8, 4 and 3. */
  method ScenarioBuild() returns (t: SBT)
    ensures fresh(t) && t.Valid() && t.root == ScenarioTree()
  {
    t := new SBT();
    var b := t.Add(6);
    b := t.Add(1);
    b := t.Add(5);
    assert t.root == Node(Node(Nil, 1, Node(Nil, 5, Nil)), 6, Nil);
    b := t.Add(7);
    b := t.Add(8);
    ScenarioLastAdds(t);
  }

  /** The last two additions of the scenario, 4 and 3, below 5. */
  method ScenarioLastAdds(t: SBT)
    requires t.Valid() && t.root == Node(Node(Nil, 1, Node(Nil, 5, Nil)), 6, Node(Nil, 7, Node(Nil, 8, Nil)))
    modifies t
    ensures t.Valid() && t.root == ScenarioTree()
  {
    var b := t.Add(4);
    b := t.Add(3);
  }

  /** Adding 6, 1, 5, 7, 8, 4, 3: seven nodes written in pre-order as
      6 1 5 4 3 7 8, 6 is the father of 7, 1 its brother, 7 the uncle of 5,
      and the height is 4. */
  method Scenario() returns (count: nat, pre: seq<int>, father: Result<Tree>, brother: Result<Tree>, uncle: Result<Tree>, height: int)
    ensures count == 7 && height == 4 && pre == [6, 1, 5, 4, 3, 7, 8]
    ensures father.Ok? && father.value.Node? && father.value.data == 6
    ensures brother.Ok? && brother.value.Node? && brother.value.data == 1
    ensures uncle.Ok? && uncle.value.Node? && uncle.value.data == 7
  {
    var t := ScenarioBuild();
    ScenarioFacts();
    count := t.CountNodes();
    pre := t.PrintIterative();
    father := t.GetFatherOf(7, false);
    brother := t.GetBrotherOf(7, false);
    uncle := t.GetUncleOf(5, false);
    height := t.GetHeight();
  }
}
