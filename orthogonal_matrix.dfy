/** Matrix: a sparse matrix kept as orthogonal linked lists. Every stored cell
    is one node that sits in two lists at once: the list of its row, chained
    through `next_col` in ascending column order from `m_rows[row]`, and the
    list of its column, chained through `next_row` in ascending row order from
    `m_cols[col]`. Lookups walk a list through a slot (the head entry or a
    node's link field) and stop at the first node whose key is not smaller.

    Nodes live in an arena `nodes` and links are arena indices. The class
    `Matrix` is the intended structure; the functions named `...AsWritten`
    follow the source, whose column walk starts from `m_rows[col]`. */
module OrthogonalMatrices {
  import opened Common

  datatype Link = Null | At(index: nat)

  /** A node: its value, its position, and its two links. */
  datatype MNode = MNode(data: int, row: nat, col: nat, nextRow: Link, nextCol: Link)

  /** Row lists are chained through `nextCol` and ordered by column; column
      lists through `nextRow` and ordered by row. */
  datatype Axis = Row | Col

  /** A place holding a link: the head entry of list `line`, or the link
      field of node `node` along the walked axis. */
  datatype Slot = Head(line: nat) | Field(node: nat)

  function Other(a: Axis): Axis
  {
    if a == Row then Col else Row
  }

  /** The list of axis `a` that `n` belongs to. */
  function Line(n: MNode, a: Axis): nat
  {
    if a == Row then n.row else n.col
  }

  /** The key that orders the lists of axis `a`. */
  function Key(n: MNode, a: Axis): nat
  {
    if a == Row then n.col else n.row
  }

  /** The link of `n` along axis `a`. */
  function Next(n: MNode, a: Axis): Link
  {
    if a == Row then n.nextCol else n.nextRow
  }

  function SetNext(n: MNode, a: Axis, l: Link): (n': MNode)
    ensures Next(n', a) == l && Next(n', Other(a)) == Next(n, Other(a))
    ensures n'.data == n.data && n'.row == n.row && n'.col == n.col
  {
    if a == Row then n.(nextCol := l) else n.(nextRow := l)
  }

  function First(s: seq<nat>): Link
  {
    if s == [] then Null else At(s[0])
  }

  /** `s` with `x` inserted at position `i`. */
  function Ins(s: seq<nat>, i: nat, x: nat): (r: seq<nat>)
    requires i <= |s|
    ensures |r| == |s| + 1
  {
    s[..i] + [x] + s[i..]
  }

  /** `s` without its element at position `i`. */
  function Del(s: seq<nat>, i: nat): (r: seq<nat>)
    requires i < |s|
    ensures |r| == |s| - 1
  {
    s[..i] + s[i + 1..]
  }

  /** `s` is the list of axis `a` numbered `k`: `head` and the links walk it
      in order, all its nodes belong to list `k`, and their keys ascend
      strictly. */
  ghost predicate LineOk(head: Link, s: seq<nat>, nodes: seq<MNode>, a: Axis, k: nat)
  {
    head == First(s) &&
    (forall i :: 0 <= i < |s| ==> s[i] < |nodes| && Line(nodes[s[i]], a) == k) &&
    (|s| > 0 ==> Next(nodes[s[|s| - 1]], a) == Null) &&
    (forall i, j :: 0 <= i && j == i + 1 && j < |s| ==> Next(nodes[s[i]], a) == At(s[j])) &&
    (forall i, j :: 0 <= i < j < |s| ==> Key(nodes[s[i]], a) < Key(nodes[s[j]], a))
  }

  /** The link out of the node at position `i` leads to the rest of the list. */
  lemma {:induction false} LinkAt(head: Link, s: seq<nat>, nodes: seq<MNode>, a: Axis, k: nat, i: nat)
    requires LineOk(head, s, nodes, a, k) && i < |s|
    ensures Next(nodes[s[i]], a) == First(s[i + 1..])
  {
    if i + 1 < |s| {
      assert s[i + 1..][0] == s[i + 1];
    }
  }

  /** Every list of axis `a` is described by its spine. */
  ghost predicate LinesOk(heads: seq<Link>, spine: seq<seq<nat>>, nodes: seq<MNode>, a: Axis)
  {
    |heads| == |spine| &&
    forall k {:trigger LineOk(heads[k], spine[k], nodes, a, k)} :: 0 <= k < |spine| ==> LineOk(heads[k], spine[k], nodes, a, k)
  }

  predicate SlotIn(heads: seq<Link>, nodes: seq<MNode>, s: Slot)
  {
    match s
    case Head(k) => k < |heads|
    case Field(n) => n < |nodes|
  }

  /** The link a slot holds: `*n` in the source. */
  function Deref(heads: seq<Link>, nodes: seq<MNode>, a: Axis, s: Slot): Link
    requires SlotIn(heads, nodes, s)
  {
    match s
    case Head(k) => heads[k]
    case Field(n) => Next(nodes[n], a)
  }

  /** Storing `l` through a slot: `*n = l` in the source. */
  function Write(heads: seq<Link>, nodes: seq<MNode>, a: Axis, s: Slot, l: Link): (r: (seq<Link>, seq<MNode>))
    requires SlotIn(heads, nodes, s)
    ensures |r.0| == |heads| && |r.1| == |nodes|
    ensures Deref(r.0, r.1, a, s) == l
    ensures forall k :: 0 <= k < |heads| && s != Head(k) ==> r.0[k] == heads[k]
    ensures forall n :: 0 <= n < |nodes| ==> Keeps(nodes[n], r.1[n], Other(a))
    ensures forall n :: 0 <= n < |nodes| ==> Pos(r.1[n]) == Pos(nodes[n]) && r.1[n].data == nodes[n].data
    ensures forall n :: 0 <= n < |nodes| && s != Field(n) ==> r.1[n] == nodes[n]
  {
    match s
    case Head(k) => (heads[k := l], nodes)
    case Field(n) => (heads, nodes[n := SetNext(nodes[n], a, l)])
  }

  /** `n'` is `n` as far as the lists of axis `b` can tell. */
  predicate Keeps(n: MNode, n': MNode, b: Axis)
  {
    n'.data == n.data && n'.row == n.row && n'.col == n.col && Next(n', b) == Next(n, b)
  }

  /** The slot a walk along list `k` stands on after passing `i` nodes. */
  function SlotAt(s: seq<nat>, k: nat, i: nat): Slot
    requires i <= |s|
  {
    if i == 0 then Head(k) else Field(s[i - 1])
  }

  /** The lists of axis `b` only read the position and the `b` link of each
      node, so changing anything else, or appending nodes, keeps them. */
  lemma {:induction false} KeepLines(heads: seq<Link>, spine: seq<seq<nat>>, nodes: seq<MNode>, nodes': seq<MNode>, b: Axis)
    requires LinesOk(heads, spine, nodes, b)
    requires |nodes| <= |nodes'| && forall n :: 0 <= n < |nodes| ==> Keeps(nodes[n], nodes'[n], b)
    ensures LinesOk(heads, spine, nodes', b)
  {
    forall k | 0 <= k < |spine|
      ensures LineOk(heads[k], spine[k], nodes', b, k)
    {
      var s := spine[k];
      assert LineOk(heads[k], s, nodes, b, k);
      assert forall i :: 0 <= i < |s| ==> Keeps(nodes[s[i]], nodes'[s[i]], b);
    }
  }

  /** Linking node `idx` into list `k` of axis `a` through the slot a walk
      stopped on after `i` nodes inserts it into the spine at `i`. The other
      lists of axis `a` are untouched, since their nodes are not in list `k`. */
  lemma {:induction false} InsertLine(heads: seq<Link>, spine: seq<seq<nat>>, nodes: seq<MNode>, a: Axis, k: nat, i: nat, idx: nat)
    requires LinesOk(heads, spine, nodes, a) && k < |spine| && LineOk(heads[k], spine[k], nodes, a, k)
    requires i <= |spine[k]| && idx < |nodes|
    requires Line(nodes[idx], a) == k && Next(nodes[idx], a) == First(spine[k][i..])
    requires forall j :: 0 <= j < i ==> Key(nodes[spine[k][j]], a) < Key(nodes[idx], a)
    requires i < |spine[k]| ==> Key(nodes[idx], a) < Key(nodes[spine[k][i]], a)
    ensures var r := Write(heads, nodes, a, SlotAt(spine[k], k, i), At(idx));
      LinesOk(r.0, spine[k := Ins(spine[k], i, idx)], r.1, a)
  {
    var s := spine[k];
    var r := Write(heads, nodes, a, SlotAt(s, k, i), At(idx));
    var s' := Ins(s, i, idx);
    var spine' := spine[k := s'];
    forall k' | 0 <= k' < |spine'|
      ensures LineOk(r.0[k'], spine'[k'], r.1, a, k')
    {
      if k' == k {
        InsertedLine(heads[k], s, nodes, a, k, i, idx, r.0[k], r.1);
      } else {
        var t := spine[k'];
        assert LineOk(heads[k'], t, nodes, a, k');
        forall j | 0 <= j < |t|
          ensures r.1[t[j]] == nodes[t[j]]
        {
          assert Line(nodes[t[j]], a) == k';
          assert i > 0 ==> Line(nodes[s[i - 1]], a) == k;
        }
      }
    }
  }

  /** The list `k` itself after the insertion. */
  lemma {:induction false} InsertedLine(head: Link, s: seq<nat>, nodes: seq<MNode>, a: Axis, k: nat, i: nat, idx: nat, head': Link, nodes': seq<MNode>)
    requires LineOk(head, s, nodes, a, k) && i <= |s| && idx < |nodes| && |nodes'| == |nodes|
    requires Line(nodes[idx], a) == k && Next(nodes[idx], a) == First(s[i..])
    requires forall j :: 0 <= j < i ==> Key(nodes[s[j]], a) < Key(nodes[idx], a)
    requires i < |s| ==> Key(nodes[idx], a) < Key(nodes[s[i]], a)
    requires i == 0 ==> head' == At(idx) && nodes' == nodes
    requires i > 0 ==> head' == head && nodes' == nodes[s[i - 1] := SetNext(nodes[s[i - 1]], a, At(idx))]
    ensures LineOk(head', Ins(s, i, idx), nodes', a, k)
  {
    var s' := Ins(s, i, idx);
    InsertedOrder(s, nodes, a, i, idx);
    assert forall n :: 0 <= n < |nodes| ==> Key(nodes'[n], a) == Key(nodes[n], a);
    if i > 0 {
      Distinct(head, s, nodes, a, k, i - 1);
    }
    InsertedLinks(head, s, nodes, a, k, i, idx, nodes');
    assert head' == First(s') by {
      if i > 0 {
        assert s'[0] == s[0];
      }
    }
  }

  /** The keys of a list ascend strictly, so its nodes are distinct. */
  lemma {:induction false} Distinct(head: Link, s: seq<nat>, nodes: seq<MNode>, a: Axis, k: nat, m: nat)
    requires LineOk(head, s, nodes, a, k) && m < |s|
    ensures forall j :: 0 <= j < |s| && j != m ==> s[j] != s[m]
  {
    forall j | 0 <= j < |s| && j != m
      ensures s[j] != s[m]
    {
      if j < m {
        assert Key(nodes[s[j]], a) < Key(nodes[s[m]], a);
      } else {
        assert Key(nodes[s[m]], a) < Key(nodes[s[j]], a);
      }
    }
  }

  lemma {:induction false} InsertedOrder(s: seq<nat>, nodes: seq<MNode>, a: Axis, i: nat, idx: nat)
    requires i <= |s| && idx < |nodes| && forall j :: 0 <= j < |s| ==> s[j] < |nodes|
    requires forall j, j' :: 0 <= j < j' < |s| ==> Key(nodes[s[j]], a) < Key(nodes[s[j']], a)
    requires forall j :: 0 <= j < i ==> Key(nodes[s[j]], a) < Key(nodes[idx], a)
    requires i < |s| ==> Key(nodes[idx], a) < Key(nodes[s[i]], a)
    ensures var s' := Ins(s, i, idx);
      forall j, j' :: 0 <= j < j' < |s'| ==> Key(nodes[s'[j]], a) < Key(nodes[s'[j']], a)
  {
    var s' := Ins(s, i, idx);
    forall j, j' | 0 <= j < j' < |s'|
      ensures Key(nodes[s'[j]], a) < Key(nodes[s'[j']], a)
    {
      if j' > i {
        assert s'[j'] == s[j' - 1];
        if i < |s| && j' - 1 > i {
          assert Key(nodes[s[i]], a) < Key(nodes[s[j' - 1]], a);
        }
      }
      if j < i {
        assert s'[j] == s[j];
      }
      if j == i {
        assert s'[j] == idx;
      }
    }
  }

  lemma {:induction false} InsertedLinks(head: Link, s: seq<nat>, nodes: seq<MNode>, a: Axis, k: nat, i: nat, idx: nat, nodes': seq<MNode>)
    requires LineOk(head, s, nodes, a, k) && i <= |s| && idx < |nodes| && |nodes'| == |nodes|
    requires i > 0 ==> s[i - 1] != idx && forall j :: 0 <= j < |s| && j != i - 1 ==> s[j] != s[i - 1]
    requires Line(nodes[idx], a) == k && Next(nodes[idx], a) == First(s[i..])
    requires i == 0 ==> nodes' == nodes
    requires i > 0 ==> nodes' == nodes[s[i - 1] := SetNext(nodes[s[i - 1]], a, At(idx))]
    ensures var s' := Ins(s, i, idx);
      (forall j :: 0 <= j < |s'| ==> s'[j] < |nodes'| && Line(nodes'[s'[j]], a) == k) &&
      Next(nodes'[s'[|s'| - 1]], a) == Null &&
      (forall j, j' :: 0 <= j && j' == j + 1 && j' < |s'| ==> Next(nodes'[s'[j]], a) == At(s'[j']))
  {
    var s' := Ins(s, i, idx);
    forall j | 0 <= j < |s'|
      ensures s'[j] < |nodes'| && Line(nodes'[s'[j]], a) == k
    {
      if j < i {
        assert s'[j] == s[j];
      } else if j == i {
        assert s'[j] == idx;
      } else {
        assert s'[j] == s[j - 1];
      }
    }
    if i == |s| {
      assert s'[|s'| - 1] == idx && s[i..] == [];
    } else {
      assert s'[|s'| - 1] == s[|s| - 1];
    }
    forall j, j' | 0 <= j && j' == j + 1 && j' < |s'|
      ensures Next(nodes'[s'[j]], a) == At(s'[j'])
    {
      if j + 1 < i {
        assert s'[j] == s[j] && s'[j'] == s[j'];
      } else if j + 1 == i {
        assert s'[j] == s[i - 1] && s'[j'] == idx;
      } else if j == i {
        assert s'[j] == idx && s'[j'] == s[i] && s[i..][0] == s[i];
      } else {
        assert s'[j] == s[j - 1] && s'[j'] == s[j];
      }
    }
  }

  /** Unlinking the node at position `i` of list `k`, by storing its own link
      through the slot before it, deletes it from the spine. */
  lemma {:induction false} RemoveLine(heads: seq<Link>, spine: seq<seq<nat>>, nodes: seq<MNode>, a: Axis, k: nat, i: nat)
    requires LinesOk(heads, spine, nodes, a) && k < |spine| && LineOk(heads[k], spine[k], nodes, a, k)
    requires i < |spine[k]|
    ensures var r := Write(heads, nodes, a, SlotAt(spine[k], k, i), Next(nodes[spine[k][i]], a));
      LinesOk(r.0, spine[k := Del(spine[k], i)], r.1, a)
  {
    var s := spine[k];
    var r := Write(heads, nodes, a, SlotAt(s, k, i), Next(nodes[s[i]], a));
    var s' := Del(s, i);
    var spine' := spine[k := s'];
    forall k' | 0 <= k' < |spine'|
      ensures LineOk(r.0[k'], spine'[k'], r.1, a, k')
    {
      if k' == k {
        RemovedLine(heads[k], s, nodes, a, k, i, r.0[k], r.1);
      } else {
        var t := spine[k'];
        assert LineOk(heads[k'], t, nodes, a, k');
        forall j | 0 <= j < |t|
          ensures r.1[t[j]] == nodes[t[j]]
        {
          assert Line(nodes[t[j]], a) == k';
          assert i > 0 ==> Line(nodes[s[i - 1]], a) == k;
        }
      }
    }
  }

  /** The list `k` itself after the removal. */
  lemma {:induction false} RemovedLine(head: Link, s: seq<nat>, nodes: seq<MNode>, a: Axis, k: nat, i: nat, head': Link, nodes': seq<MNode>)
    requires LineOk(head, s, nodes, a, k) && i < |s| && |nodes'| == |nodes|
    requires i == 0 ==> head' == Next(nodes[s[0]], a) && nodes' == nodes
    requires i > 0 ==> head' == head && nodes' == nodes[s[i - 1] := SetNext(nodes[s[i - 1]], a, Next(nodes[s[i]], a))]
    ensures LineOk(head', Del(s, i), nodes', a, k)
  {
    if i == 0 {
      RemovedFirst(head, s, nodes, a, k);
    } else {
      RemovedLater(head, s, nodes, a, k, i, nodes');
    }
  }

  /** Unlinking the first node: the head moves to its successor. */
  lemma {:induction false} RemovedFirst(head: Link, s: seq<nat>, nodes: seq<MNode>, a: Axis, k: nat)
    requires LineOk(head, s, nodes, a, k) && 0 < |s|
    ensures LineOk(Next(nodes[s[0]], a), Del(s, 0), nodes, a, k)
  {
    LinkAt(head, s, nodes, a, k, 0);
    assert Del(s, 0) == s[1..];
    var t := s[1..];
    assert forall i :: 0 <= i < |t| ==> t[i] == s[i + 1];
    assert LineOk(First(t), t, nodes, a, k) by {
      forall i, j | 0 <= i && j == i + 1 && j < |t|
        ensures Next(nodes[t[i]], a) == At(t[j])
      {
        assert Next(nodes[s[i + 1]], a) == At(s[j + 1]);
      }
      forall i, j | 0 <= i < j < |t|
        ensures Key(nodes[t[i]], a) < Key(nodes[t[j]], a)
      {
        assert Key(nodes[s[i + 1]], a) < Key(nodes[s[j + 1]], a);
      }
    }
  }

  /** Unlinking a later node: its predecessor takes over its link. */
  lemma {:induction false} RemovedLater(head: Link, s: seq<nat>, nodes: seq<MNode>, a: Axis, k: nat, i: nat, nodes': seq<MNode>)
    requires LineOk(head, s, nodes, a, k) && 0 < i < |s|
    requires nodes' == nodes[s[i - 1] := SetNext(nodes[s[i - 1]], a, Next(nodes[s[i]], a))]
    ensures LineOk(head, Del(s, i), nodes', a, k)
  {
    var s' := Del(s, i);
    Distinct(head, s, nodes, a, k, i - 1);
    RemovedLinks(head, s, nodes, a, k, i, nodes');
    forall n | 0 <= n < |nodes|
      ensures Key(nodes'[n], a) == Key(nodes[n], a)
    {
    }
    RemovedOrder(s, nodes, nodes', a, i);
    assert s'[0] == s[0];
  }

  lemma {:induction false} RemovedOrder(s: seq<nat>, nodes: seq<MNode>, nodes': seq<MNode>, a: Axis, i: nat)
    requires i < |s| && |nodes'| == |nodes| && forall j :: 0 <= j < |s| ==> s[j] < |nodes|
    requires forall n :: 0 <= n < |nodes| ==> Key(nodes'[n], a) == Key(nodes[n], a)
    requires forall j, j' :: 0 <= j < j' < |s| ==> Key(nodes[s[j]], a) < Key(nodes[s[j']], a)
    ensures var s' := Del(s, i);
      forall j, j' :: 0 <= j < j' < |s'| ==> Key(nodes'[s'[j]], a) < Key(nodes'[s'[j']], a)
  {
    var s' := Del(s, i);
    forall j, j' | 0 <= j < j' < |s'|
      ensures Key(nodes'[s'[j]], a) < Key(nodes'[s'[j']], a)
    {
      var u := if j < i then j else j + 1;
      var u' := if j' < i then j' else j' + 1;
      assert s'[j] == s[u] && s'[j'] == s[u'];
    }
  }

  lemma {:induction false} RemovedLinks(head: Link, s: seq<nat>, nodes: seq<MNode>, a: Axis, k: nat, i: nat, nodes': seq<MNode>)
    requires LineOk(head, s, nodes, a, k) && i < |s| && |nodes'| == |nodes|
    requires i > 0 ==> forall j :: 0 <= j < |s| && j != i - 1 ==> s[j] != s[i - 1]
    requires i == 0 ==> nodes' == nodes
    requires i > 0 ==> nodes' == nodes[s[i - 1] := SetNext(nodes[s[i - 1]], a, Next(nodes[s[i]], a))]
    ensures var s' := Del(s, i);
      (forall j :: 0 <= j < |s'| ==> s'[j] < |nodes'| && Line(nodes'[s'[j]], a) == k) &&
      (|s'| > 0 ==> Next(nodes'[s'[|s'| - 1]], a) == Null) &&
      (forall j, j' :: 0 <= j && j' == j + 1 && j' < |s'| ==> Next(nodes'[s'[j]], a) == At(s'[j']))
  {
    var s' := Del(s, i);
    forall j | 0 <= j < |s'|
      ensures s'[j] < |nodes'| && Line(nodes'[s'[j]], a) == k
    {
      if j < i {
        assert s'[j] == s[j];
      } else {
        assert s'[j] == s[j + 1];
      }
    }
    if |s'| > 0 {
      if i == |s| - 1 {
        assert s'[|s'| - 1] == s[i - 1];
      } else {
        assert s'[|s'| - 1] == s[|s| - 1];
      }
    }
    forall j, j' | 0 <= j && j' == j + 1 && j' < |s'|
      ensures Next(nodes'[s'[j]], a) == At(s'[j'])
    {
      if j + 1 < i {
        assert s'[j] == s[j] && s'[j'] == s[j'];
      } else if j + 1 == i {
        assert s'[j] == s[i - 1] && s'[j'] == s[i + 1];
      } else {
        assert s'[j] == s[j + 1] && s'[j'] == s[j + 2];
      }
    }
  }

  /** Walking list `k` of axis `a` from its head for `key`: stops on the
      slot of the first node whose key is not smaller, reporting whether the
      key is equal (`find_by_row` for rows, `find_by_col` for columns). */
  method Walk(heads: seq<Link>, nodes: seq<MNode>, ghost spine: seq<seq<nat>>, a: Axis, k: nat, key: nat)
    returns (found: bool, slot: Slot, ghost i: nat)
    requires LinesOk(heads, spine, nodes, a) && Bounded(spine, |nodes|) && k < |spine|
    ensures i <= |spine[k]| && slot == SlotAt(spine[k], k, i)
    ensures SlotIn(heads, nodes, slot) && Deref(heads, nodes, a, slot) == First(spine[k][i..])
    ensures forall j :: 0 <= j < i ==> Key(nodes[spine[k][j]], a) < key
    ensures found <==> i < |spine[k]| && Key(nodes[spine[k][i]], a) == key
    ensures !found && i < |spine[k]| ==> key < Key(nodes[spine[k][i]], a)
  {
    ghost var s := spine[k];
    assert LineOk(heads[k], s, nodes, a, k);
    slot, i := Head(k), 0;
    while Deref(heads, nodes, a, slot) != Null
      invariant i <= |s| && slot == SlotAt(s, k, i)
      invariant SlotIn(heads, nodes, slot) && Deref(heads, nodes, a, slot) == First(s[i..])
      invariant forall j :: 0 <= j < i ==> Key(nodes[s[j]], a) < key
      decreases |s| - i
    {
      var n := Deref(heads, nodes, a, slot).index;
      assert n == s[i];
      LinkAt(heads[k], s, nodes, a, k, i);
      if Key(nodes[n], a) == key {
        return true, slot, i;
      }
      if Key(nodes[n], a) > key {
        return false, slot, i;
      }
      slot, i := Field(n), i + 1;
    }
    found := false;
  }

  /** The position of the node with key `key` in list `k` of axis `a`. */
  function PosOf(a: Axis, k: nat, key: nat): (nat, nat)
  {
    if a == Row then (k, key) else (key, k)
  }

  function Pos(n: MNode): (nat, nat)
  {
    (n.row, n.col)
  }

  /** Every listed node is the one recorded for its position. */
  ghost predicate Indexed(where: map<(nat, nat), nat>, spine: seq<seq<nat>>, nodes: seq<MNode>)
  {
    forall k, i :: 0 <= k < |spine| && 0 <= i < |spine[k]| && spine[k][i] < |nodes| ==>
      Pos(nodes[spine[k][i]]) in where && where[Pos(nodes[spine[k][i]])] == spine[k][i]
  }

  /** `where` maps each stored position to its node, which sits at that
      position in both its row list and its column list, and every listed
      node is recorded. */
  ghost predicate Placed(where: map<(nat, nat), nat>, rs: seq<seq<nat>>, cs: seq<seq<nat>>, nodes: seq<MNode>)
  {
    (forall p: (nat, nat) :: p in where ==>
       where[p] < |nodes| && Pos(nodes[where[p]]) == p &&
       p.0 < |rs| && p.1 < |cs| && where[p] in rs[p.0] && where[p] in cs[p.1]) &&
    Indexed(where, rs, nodes) && Indexed(where, cs, nodes)
  }

  /** The stored values by position. */
  ghost function Cells(where: map<(nat, nat), nat>, nodes: seq<MNode>): map<(nat, nat), int>
  {
    map p | p in where && where[p] < |nodes| :: nodes[where[p]].data
  }

  /** A walk finds its key exactly when the position is stored, and then
      stops on that position's node. */
  lemma {:induction false} WalkLocates(where: map<(nat, nat), nat>, heads: seq<Link>, spine: seq<seq<nat>>, nodes: seq<MNode>,
                    a: Axis, k: nat, key: nat, i: nat, found: bool)
    requires LinesOk(heads, spine, nodes, a) && Bounded(spine, |nodes|) && Indexed(where, spine, nodes) && k < |spine|
    requires PosOf(a, k, key) in where ==>
      where[PosOf(a, k, key)] < |nodes| && Pos(nodes[where[PosOf(a, k, key)]]) == PosOf(a, k, key) &&
      where[PosOf(a, k, key)] in spine[k]
    requires i <= |spine[k]| && forall j :: 0 <= j < i ==> Key(nodes[spine[k][j]], a) < key
    requires found <==> i < |spine[k]| && Key(nodes[spine[k][i]], a) == key
    requires !found && i < |spine[k]| ==> key < Key(nodes[spine[k][i]], a)
    ensures found <==> PosOf(a, k, key) in where
    ensures found ==> where[PosOf(a, k, key)] == spine[k][i]
  {
    var s := spine[k];
    assert LineOk(heads[k], s, nodes, a, k);
    var p := PosOf(a, k, key);
    if found {
      assert Pos(nodes[s[i]]) == p;
    } else {
      forall j | 0 <= j < |s|
        ensures Key(nodes[s[j]], a) != key
      {
        if i < j {
          assert Key(nodes[s[i]], a) < Key(nodes[s[j]], a);
        }
      }
    }
  }

  /** Every listed node is in the arena. */
  ghost predicate Bounded(spine: seq<seq<nat>>, size: nat)
  {
    forall k, i :: 0 <= k < |spine| && 0 <= i < |spine[k]| ==> spine[k][i] < size
  }

  lemma {:induction false} LinesBounded(heads: seq<Link>, spine: seq<seq<nat>>, nodes: seq<MNode>, a: Axis)
    requires LinesOk(heads, spine, nodes, a)
    ensures Bounded(spine, |nodes|)
  {
    forall k, i | 0 <= k < |spine| && 0 <= i < |spine[k]|
      ensures spine[k][i] < |nodes|
    {
      assert LineOk(heads[k], spine[k], nodes, a, k);
    }
  }

  /** The positions of the old nodes are kept, and the new node `idx` at the
      unrecorded position `p` is recorded: list `k` with `idx` inserted is
      still indexed. */
  lemma {:induction false} IndexedInsert(where: map<(nat, nat), nat>, spine: seq<seq<nat>>, nodes: seq<MNode>, nodes': seq<MNode>,
                      p: (nat, nat), k: nat, i: nat, idx: nat)
    requires Indexed(where, spine, nodes) && Bounded(spine, |nodes|) && p !in where
    requires k < |spine| && i <= |spine[k]| && idx == |nodes| && |nodes'| == |nodes| + 1 && Pos(nodes'[idx]) == p
    requires forall n :: 0 <= n < |nodes| ==> Pos(nodes'[n]) == Pos(nodes[n])
    ensures Indexed(where[p := idx], spine[k := Ins(spine[k], i, idx)], nodes')
  {
    var spine' := spine[k := Ins(spine[k], i, idx)];
    var where' := where[p := idx];
    forall k', t | 0 <= k' < |spine'| && 0 <= t < |spine'[k']| && spine'[k'][t] < |nodes'|
      ensures Pos(nodes'[spine'[k'][t]]) in where' && where'[Pos(nodes'[spine'[k'][t]])] == spine'[k'][t]
    {
      var e := spine'[k'][t];
      if e != idx {
        var t' := if k' == k && t > i then t - 1 else t;
        assert e == spine[k'][t'];
        assert Pos(nodes[e]) in where;
      }
    }
  }

  lemma {:induction false} InInserted(s: seq<nat>, i: nat, x: nat, y: nat)
    requires i <= |s|
    ensures y in Ins(s, i, x) <==> y in s || y == x
  {
    assert s == s[..i] + s[i..];
  }

  /** Adding node `idx` for the unrecorded position `p` to its row list and
      its column list keeps the placement. */
  lemma {:induction false} PlacedInsert(where: map<(nat, nat), nat>, rs: seq<seq<nat>>, cs: seq<seq<nat>>, nodes: seq<MNode>, nodes': seq<MNode>,
                     p: (nat, nat), i: nat, j: nat, idx: nat)
    requires Placed(where, rs, cs, nodes) && Bounded(rs, |nodes|) && Bounded(cs, |nodes|) && p !in where
    requires p.0 < |rs| && p.1 < |cs| && i <= |rs[p.0]| && j <= |cs[p.1]|
    requires idx == |nodes| && |nodes'| == |nodes| + 1 && Pos(nodes'[idx]) == p
    requires forall n :: 0 <= n < |nodes| ==> Pos(nodes'[n]) == Pos(nodes[n])
    ensures Placed(where[p := idx], rs[p.0 := Ins(rs[p.0], i, idx)],
                   cs[p.1 := Ins(cs[p.1], j, idx)], nodes')
  {
    var rs' := rs[p.0 := Ins(rs[p.0], i, idx)];
    var cs' := cs[p.1 := Ins(cs[p.1], j, idx)];
    var where' := where[p := idx];
    IndexedInsert(where, rs, nodes, nodes', p, p.0, i, idx);
    IndexedInsert(where, cs, nodes, nodes', p, p.1, j, idx);
    forall q: (nat, nat) | q in where'
      ensures where'[q] < |nodes'| && Pos(nodes'[where'[q]]) == q &&
              q.0 < |rs'| && q.1 < |cs'| && where'[q] in rs'[q.0] && where'[q] in cs'[q.1]
    {
      InInserted(rs[p.0], i, idx, where'[q]);
      InInserted(cs[p.1], j, idx, where'[q]);
    }
  }

  lemma {:induction false} InRemoved(s: seq<nat>, i: nat, y: nat)
    requires i < |s| && y in s && y != s[i]
    ensures y in Del(s, i)
  {
    var t :| 0 <= t < |s| && s[t] == y;
    if t < i {
      assert (Del(s, i))[t] == y;
    } else {
      assert (Del(s, i))[t - 1] == y;
    }
  }

  /** Dropping the node recorded for `p` from list `k`, where `k` is its own
      list, keeps the rest indexed once `p` is unrecorded. */
  lemma {:induction false} IndexedRemove(where: map<(nat, nat), nat>, heads: seq<Link>, spine: seq<seq<nat>>, nodes: seq<MNode>, nodes': seq<MNode>,
                      a: Axis, p: (nat, nat), k: nat, i: nat)
    requires LinesOk(heads, spine, nodes, a) && Indexed(where, spine, nodes)
    requires k < |spine| && i < |spine[k]| && p in where && where[p] == spine[k][i]
    requires |nodes'| == |nodes| && forall n :: 0 <= n < |nodes| ==> Pos(nodes'[n]) == Pos(nodes[n])
    ensures Indexed(where - {p}, spine[k := Del(spine[k], i)], nodes')
  {
    var spine' := spine[k := Del(spine[k], i)];
    var where' := where - {p};
    assert LineOk(heads[k], spine[k], nodes, a, k);
    forall k', t | 0 <= k' < |spine'| && 0 <= t < |spine'[k']| && spine'[k'][t] < |nodes'|
      ensures Pos(nodes'[spine'[k'][t]]) in where' && where'[Pos(nodes'[spine'[k'][t]])] == spine'[k'][t]
    {
      var t' := if k' == k && t >= i then t + 1 else t;
      var e := spine[k'][t'];
      assert spine'[k'][t] == e;
      assert LineOk(heads[k'], spine[k'], nodes, a, k');
      if k' == k {
        if t' < i {
          assert Key(nodes[e], a) < Key(nodes[spine[k][i]], a);
        } else {
          assert Key(nodes[spine[k][i]], a) < Key(nodes[e], a);
        }
      } else {
        assert Line(nodes[e], a) != Line(nodes[spine[k][i]], a);
      }
    }
  }

  /** Unlinking the node recorded for `p` from both of its lists and
      unrecording `p` keeps the placement. */
  lemma {:induction false} PlacedRemove(where: map<(nat, nat), nat>, rh: seq<Link>, ch: seq<Link>, rs: seq<seq<nat>>, cs: seq<seq<nat>>,
                     nodes: seq<MNode>, nodes': seq<MNode>, p: (nat, nat), i: nat, j: nat)
    requires LinesOk(rh, rs, nodes, Row) && LinesOk(ch, cs, nodes, Col) && Placed(where, rs, cs, nodes)
    requires p in where && p.0 < |rs| && p.1 < |cs| && i < |rs[p.0]| && j < |cs[p.1]|
    requires rs[p.0][i] == where[p] && cs[p.1][j] == where[p]
    requires |nodes'| == |nodes| && forall n :: 0 <= n < |nodes| ==> Pos(nodes'[n]) == Pos(nodes[n])
    ensures Placed(where - {p}, rs[p.0 := Del(rs[p.0], i)],
                   cs[p.1 := Del(cs[p.1], j)], nodes')
  {
    var rs' := rs[p.0 := Del(rs[p.0], i)];
    var cs' := cs[p.1 := Del(cs[p.1], j)];
    var where' := where - {p};
    IndexedRemove(where, rh, rs, nodes, nodes', Row, p, p.0, i);
    IndexedRemove(where, ch, cs, nodes, nodes', Col, p, p.1, j);
    forall q: (nat, nat) | q in where'
      ensures where'[q] < |nodes'| && Pos(nodes'[where'[q]]) == q &&
              q.0 < |rs'| && q.1 < |cs'| && where'[q] in rs'[q.0] && where'[q] in cs'[q.1]
    {
      assert where[q] != where[p];
      if q.0 == p.0 {
        InRemoved(rs[p.0], i, where[q]);
      }
      if q.1 == p.1 {
        InRemoved(cs[p.1], j, where[q]);
      }
    }
  }

  /** Recording a new node adds its value; values of old nodes are kept. */
  lemma {:induction false} CellsInsert(where: map<(nat, nat), nat>, nodes: seq<MNode>, nodes': seq<MNode>, p: (nat, nat), idx: nat)
    requires forall q: (nat, nat) :: q in where ==> where[q] < |nodes|
    requires idx < |nodes'| && |nodes| <= |nodes'| && forall n :: 0 <= n < |nodes| ==> nodes'[n].data == nodes[n].data
    ensures Cells(where[p := idx], nodes') == Cells(where, nodes)[p := nodes'[idx].data]
  {
  }

  /** Unrecording a position drops its value; values of old nodes are kept. */
  lemma {:induction false} CellsRemove(where: map<(nat, nat), nat>, nodes: seq<MNode>, nodes': seq<MNode>, p: (nat, nat))
    requires forall q: (nat, nat) :: q in where ==> where[q] < |nodes|
    requires |nodes| <= |nodes'| && forall n :: 0 <= n < |nodes| ==> nodes'[n].data == nodes[n].data
    ensures Cells(where - {p}, nodes') == Cells(where, nodes) - {p}
  {
  }

  /** The representation invariant of a `rows` by `cols` matrix. */
  ghost predicate Inv(rows: nat, cols: nat, rh: seq<Link>, ch: seq<Link>, nodes: seq<MNode>,
                      rs: seq<seq<nat>>, cs: seq<seq<nat>>, where: map<(nat, nat), nat>)
  {
    |rs| == rows && |cs| == cols &&
    LinesOk(rh, rs, nodes, Row) && LinesOk(ch, cs, nodes, Col) && Placed(where, rs, cs, nodes)
  }

  /** What a walk along list `k` for `key` establishes (see `Walk`). */
  ghost predicate Stopped(heads: seq<Link>, nodes: seq<MNode>, spine: seq<seq<nat>>, a: Axis, k: nat, key: nat,
                          found: bool, slot: Slot, i: nat)
    requires k < |spine| && Bounded(spine, |nodes|)
  {
    i <= |spine[k]| && slot == SlotAt(spine[k], k, i) &&
    SlotIn(heads, nodes, slot) && Deref(heads, nodes, a, slot) == First(spine[k][i..]) &&
    (forall j :: 0 <= j < i ==> Key(nodes[spine[k][j]], a) < key) &&
    (found <==> i < |spine[k]| && Key(nodes[spine[k][i]], a) == key) &&
    (!found && i < |spine[k]| ==> key < Key(nodes[spine[k][i]], a))
  }

  /** The new node of `add`, linked to what the two slots hold. */
  function NewNode(rh: seq<Link>, ch: seq<Link>, nodes: seq<MNode>, data: int, row: nat, col: nat, c: Slot, r: Slot): MNode
    requires SlotIn(rh, nodes, c) && SlotIn(ch, nodes, r)
  {
    MNode(data, row, col, Deref(ch, nodes, Col, r), Deref(rh, nodes, Row, c))
  }

  /** `add` at an unstored position: the new node goes at the stopping
      points of both walks, and the matrix gains exactly that cell. */
  lemma {:induction false} AddKeeps(rows: nat, cols: nat, rh: seq<Link>, ch: seq<Link>, nodes: seq<MNode>,
                 rs: seq<seq<nat>>, cs: seq<seq<nat>>, where: map<(nat, nat), nat>,
                 data: int, row: nat, col: nat, c: Slot, i: nat, r: Slot, j: nat)
    requires Inv(rows, cols, rh, ch, nodes, rs, cs, where) && row < rows && col < cols
    requires Bounded(rs, |nodes|) && Bounded(cs, |nodes|) && (row, col) !in where
    requires Stopped(rh, nodes, rs, Row, row, col, false, c, i)
    requires Stopped(ch, nodes, cs, Col, col, row, false, r, j)
    ensures var idx: nat := |nodes|;
      var w1 := Write(rh, nodes + [NewNode(rh, ch, nodes, data, row, col, c, r)], Row, c, At(idx));
      var w2 := Write(ch, w1.1, Col, r, At(idx));
      var where' := where[(row, col) := idx];
      Inv(rows, cols, w1.0, w2.0, w2.1, rs[row := Ins(rs[row], i, idx)], cs[col := Ins(cs[col], j, idx)], where') &&
      Cells(where', w2.1) == Cells(where, nodes)[(row, col) := data]
  {
    var idx: nat := |nodes|;
    var nodes1 := nodes + [NewNode(rh, ch, nodes, data, row, col, c, r)];
    var w1 := Write(rh, nodes1, Row, c, At(idx));
    var w2 := Write(ch, w1.1, Col, r, At(idx));
    AddLines(rh, ch, nodes, rs, cs, data, row, col, c, i, r, j);
    assert forall n :: 0 <= n < |nodes| ==> Pos(w2.1[n]) == Pos(nodes[n]) && w2.1[n].data == nodes[n].data;
    assert Pos(w2.1[idx]) == (row, col) && w2.1[idx].data == data;
    PlacedInsert(where, rs, cs, nodes, w2.1, (row, col), i, j, idx);
    CellsInsert(where, nodes, w2.1, (row, col), idx);
  }

  /** The list part of `AddKeeps`. */
  lemma {:induction false} AddLines(rh: seq<Link>, ch: seq<Link>, nodes: seq<MNode>, rs: seq<seq<nat>>, cs: seq<seq<nat>>,
                 data: int, row: nat, col: nat, c: Slot, i: nat, r: Slot, j: nat)
    requires LinesOk(rh, rs, nodes, Row) && LinesOk(ch, cs, nodes, Col) && row < |rs| && col < |cs|
    requires Bounded(rs, |nodes|) && Bounded(cs, |nodes|)
    requires Stopped(rh, nodes, rs, Row, row, col, false, c, i)
    requires Stopped(ch, nodes, cs, Col, col, row, false, r, j)
    ensures var idx: nat := |nodes|;
      var w1 := Write(rh, nodes + [NewNode(rh, ch, nodes, data, row, col, c, r)], Row, c, At(idx));
      var w2 := Write(ch, w1.1, Col, r, At(idx));
      LinesOk(w1.0, rs[row := Ins(rs[row], i, idx)], w2.1, Row) &&
      LinesOk(w2.0, cs[col := Ins(cs[col], j, idx)], w2.1, Col)
  {
    var idx: nat := |nodes|;
    var nodes1 := nodes + [NewNode(rh, ch, nodes, data, row, col, c, r)];
    assert forall n :: 0 <= n < |nodes| ==> nodes1[n] == nodes[n];
    KeepLines(rh, rs, nodes, nodes1, Row);
    KeepLines(ch, cs, nodes, nodes1, Col);
    var w1 := Write(rh, nodes1, Row, c, At(idx));
    InsertLine(rh, rs, nodes1, Row, row, i, idx);
    KeepLines(ch, cs, nodes1, w1.1, Col);
    var w2 := Write(ch, w1.1, Col, r, At(idx));
    ColReady(ch, cs, nodes, nodes1, w1.1, col, row, j, idx, r);
    InsertLine(ch, cs, w1.1, Col, col, j, idx);
    KeepLines(w1.0, rs[row := Ins(rs[row], i, idx)], w1.1, w2.1, Row);
  }

  /** The new node, after the row write, can be linked into its column
      where the column walk stopped. */
  lemma {:induction false} ColReady(ch: seq<Link>, cs: seq<seq<nat>>, nodes: seq<MNode>, nodes1: seq<MNode>, w: seq<MNode>,
                                    col: nat, row: nat, j: nat, idx: nat, r: Slot)
    requires col < |cs| && Bounded(cs, |nodes|) && idx == |nodes| && |nodes1| == |w| == idx + 1
    requires forall n :: 0 <= n < |nodes| ==> nodes1[n] == nodes[n]
    requires forall n :: 0 <= n < |nodes1| ==> Keeps(nodes1[n], w[n], Col)
    requires Stopped(ch, nodes, cs, Col, col, row, false, r, j)
    requires nodes1[idx].col == col && nodes1[idx].row == row && nodes1[idx].nextRow == Deref(ch, nodes, Col, r)
    ensures Line(w[idx], Col) == col && Next(w[idx], Col) == First(cs[col][j..])
    ensures forall j' :: 0 <= j' < j ==> Key(w[cs[col][j']], Col) < Key(w[idx], Col)
    ensures j < |cs[col]| ==> Key(w[idx], Col) < Key(w[cs[col][j]], Col)
  {
    assert Keeps(nodes1[idx], w[idx], Col);
    forall j' | 0 <= j' < j
      ensures Key(w[cs[col][j']], Col) < Key(w[idx], Col)
    {
      assert Keeps(nodes1[cs[col][j']], w[cs[col][j']], Col);
    }
    if j < |cs[col]| {
      assert Keeps(nodes1[cs[col][j]], w[cs[col][j]], Col);
    }
  }

  /** `remove` at a stored position: its node leaves both lists at the
      stopping points of the walks, and the matrix loses exactly that cell. */
  lemma {:induction false} RemoveKeeps(rows: nat, cols: nat, rh: seq<Link>, ch: seq<Link>, nodes: seq<MNode>,
                    rs: seq<seq<nat>>, cs: seq<seq<nat>>, where: map<(nat, nat), nat>,
                    row: nat, col: nat, c: Slot, i: nat, r: Slot, j: nat)
    requires Inv(rows, cols, rh, ch, nodes, rs, cs, where) && row < rows && col < cols
    requires Bounded(rs, |nodes|) && Bounded(cs, |nodes|) && (row, col) in where
    requires Stopped(rh, nodes, rs, Row, row, col, true, c, i) && rs[row][i] == where[(row, col)]
    requires Stopped(ch, nodes, cs, Col, col, row, true, r, j) && cs[col][j] == where[(row, col)]
    ensures var tmp := where[(row, col)];
      var w1 := Write(ch, nodes, Col, r, nodes[tmp].nextRow);
      var w2 := Write(rh, w1.1, Row, c, w1.1[tmp].nextCol);
      var where' := where - {(row, col)};
      Inv(rows, cols, w2.0, w1.0, w2.1, rs[row := Del(rs[row], i)], cs[col := Del(cs[col], j)], where') &&
      Cells(where', w2.1) == Cells(where, nodes) - {(row, col)}
  {
    var tmp := where[(row, col)];
    var w1 := Write(ch, nodes, Col, r, nodes[tmp].nextRow);
    var w2 := Write(rh, w1.1, Row, c, w1.1[tmp].nextCol);
    RemoveLines(rh, ch, nodes, rs, cs, row, col, c, i, r, j);
    assert forall n :: 0 <= n < |nodes| ==> Pos(w2.1[n]) == Pos(nodes[n]) && w2.1[n].data == nodes[n].data;
    PlacedRemove(where, rh, ch, rs, cs, nodes, w2.1, (row, col), i, j);
    CellsRemove(where, nodes, w2.1, (row, col));
  }

  /** The list part of `RemoveKeeps`. */
  lemma {:induction false} RemoveLines(rh: seq<Link>, ch: seq<Link>, nodes: seq<MNode>, rs: seq<seq<nat>>, cs: seq<seq<nat>>,
                    row: nat, col: nat, c: Slot, i: nat, r: Slot, j: nat)
    requires LinesOk(rh, rs, nodes, Row) && LinesOk(ch, cs, nodes, Col) && row < |rs| && col < |cs|
    requires Bounded(rs, |nodes|) && Bounded(cs, |nodes|)
    requires Stopped(rh, nodes, rs, Row, row, col, true, c, i)
    requires Stopped(ch, nodes, cs, Col, col, row, true, r, j) && cs[col][j] == rs[row][i]
    ensures var tmp := rs[row][i];
      var w1 := Write(ch, nodes, Col, r, nodes[tmp].nextRow);
      var w2 := Write(rh, w1.1, Row, c, w1.1[tmp].nextCol);
      LinesOk(w2.0, rs[row := Del(rs[row], i)], w2.1, Row) &&
      LinesOk(w1.0, cs[col := Del(cs[col], j)], w2.1, Col)
  {
    var tmp := rs[row][i];
    var w1 := Write(ch, nodes, Col, r, nodes[tmp].nextRow);
    RemoveLine(ch, cs, nodes, Col, col, j);
    KeepLines(rh, rs, nodes, w1.1, Row);
    var w2 := Write(rh, w1.1, Row, c, w1.1[tmp].nextCol);
    RemoveLine(rh, rs, w1.1, Row, row, i);
    KeepLines(w1.0, cs[col := Del(cs[col], j)], w1.1, w2.1, Col);
  }

  /** The body of `add` on the arena: walk the row, give up if the column is
      there, walk the column, then link a new node through both slots. */
  method AddNode(rows: nat, cols: nat, rh: seq<Link>, ch: seq<Link>, nodes: seq<MNode>,
                 ghost rs: seq<seq<nat>>, ghost cs: seq<seq<nat>>, ghost where: map<(nat, nat), nat>,
                 data: int, row: nat, col: nat)
    returns (rh': seq<Link>, ch': seq<Link>, nodes': seq<MNode>,
             ghost rs': seq<seq<nat>>, ghost cs': seq<seq<nat>>, ghost where': map<(nat, nat), nat>, added: bool)
    requires Inv(rows, cols, rh, ch, nodes, rs, cs, where) && row < rows && col < cols
    ensures Inv(rows, cols, rh', ch', nodes', rs', cs', where')
    ensures added <==> (row, col) !in Cells(where, nodes)
    ensures added ==> Cells(where', nodes') == Cells(where, nodes)[(row, col) := data]
    ensures !added ==> Cells(where', nodes') == Cells(where, nodes)
  {
    LinesBounded(rh, rs, nodes, Row);
    LinesBounded(ch, cs, nodes, Col);
    var found, c, i := Walk(rh, nodes, rs, Row, row, col);
    WalkLocates(where, rh, rs, nodes, Row, row, col, i, found);
    if found {
      return rh, ch, nodes, rs, cs, where, false;
    }
    var found', r, j := Walk(ch, nodes, cs, Col, col, row);
    WalkLocates(where, ch, cs, nodes, Col, col, row, j, found');
    AddKeeps(rows, cols, rh, ch, nodes, rs, cs, where, data, row, col, c, i, r, j);
    var idx: nat := |nodes|;
    var w1 := Write(rh, nodes + [NewNode(rh, ch, nodes, data, row, col, c, r)], Row, c, At(idx));
    var w2 := Write(ch, w1.1, Col, r, At(idx));
    rh', ch', nodes' := w1.0, w2.0, w2.1;
    rs', cs', where' := rs[row := Ins(rs[row], i, idx)], cs[col := Ins(cs[col], j, idx)], where[(row, col) := idx];
    added := true;
  }

  /** The body of `remove` on the arena: find the node along its row and its
      column, then store its links through the two slots. */
  method RemoveNode(rows: nat, cols: nat, rh: seq<Link>, ch: seq<Link>, nodes: seq<MNode>,
                    ghost rs: seq<seq<nat>>, ghost cs: seq<seq<nat>>, ghost where: map<(nat, nat), nat>,
                    row: nat, col: nat)
    returns (rh': seq<Link>, ch': seq<Link>, nodes': seq<MNode>,
             ghost rs': seq<seq<nat>>, ghost cs': seq<seq<nat>>, ghost where': map<(nat, nat), nat>, removed: bool)
    requires Inv(rows, cols, rh, ch, nodes, rs, cs, where) && row < rows && col < cols
    ensures Inv(rows, cols, rh', ch', nodes', rs', cs', where')
    ensures removed <==> (row, col) in Cells(where, nodes)
    ensures Cells(where', nodes') == Cells(where, nodes) - {(row, col)}
  {
    LinesBounded(rh, rs, nodes, Row);
    LinesBounded(ch, cs, nodes, Col);
    var found, c, i := Walk(rh, nodes, rs, Row, row, col);
    WalkLocates(where, rh, rs, nodes, Row, row, col, i, found);
    if !found {
      return rh, ch, nodes, rs, cs, where, false;
    }
    var found', r, j := Walk(ch, nodes, cs, Col, col, row);
    WalkLocates(where, ch, cs, nodes, Col, col, row, j, found');
    RemoveKeeps(rows, cols, rh, ch, nodes, rs, cs, where, row, col, c, i, r, j);
    var tmp := Deref(ch, nodes, Col, r).index;
    var w1 := Write(ch, nodes, Col, r, nodes[tmp].nextRow);
    var w2 := Write(rh, w1.1, Row, c, w1.1[tmp].nextCol);
    rh', ch', nodes' := w2.0, w1.0, w2.1;
    rs', cs', where' := rs[row := Del(rs[row], i)], cs[col := Del(cs[col], j)], where - {(row, col)};
    removed := true;
  }

  /** The orthogonal-list matrix with the column walk starting from the
      column heads `m_cols`. Positions are unchecked in the source, so the
      operations demand them inside the head tables they index. */
  class Matrix {
    const rows: nat
    const cols: nat
    /** `m_rows`: the first node of each row list. */
    var rowHeads: seq<Link>
    /** `m_cols`: the first node of each column list. */
    var colHeads: seq<Link>
    var nodes: seq<MNode>
    ghost var rowSpine: seq<seq<nat>>
    ghost var colSpine: seq<seq<nat>>
    /** The node stored for each position. */
    ghost var where: map<(nat, nat), nat>

    ghost predicate Valid()
      reads this
    {
      Inv(rows, cols, rowHeads, colHeads, nodes, rowSpine, colSpine, where)
    }

    /** The stored values by (row, column). */
    ghost function Contents(): map<(nat, nat), int>
      reads this
    {
      Cells(where, nodes)
    }

    /** A `rows` by `cols` matrix with no stored cell. */
    constructor(rows: nat, cols: nat)
      ensures Valid() && Contents() == map[]
      ensures this.rows == rows && this.cols == cols
    {
      this.rows, this.cols := rows, cols;
      rowHeads, colHeads, nodes := seq(rows, _ => Null), seq(cols, _ => Null), [];
      rowSpine, colSpine, where := seq(rows, _ => []), seq(cols, _ => []), map[];
    }

    /** `find_by_row`: walks row `row` for column `col`. */
    method FindByRow(row: nat, col: nat) returns (found: bool, slot: Slot, ghost i: nat)
      requires Valid() && row < rows
      ensures found <==> (row, col) in Contents()
      ensures Bounded(rowSpine, |nodes|) && Stopped(rowHeads, nodes, rowSpine, Row, row, col, found, slot, i)
      ensures found ==> rowSpine[row][i] == where[(row, col)]
    {
      LinesBounded(rowHeads, rowSpine, nodes, Row);
      found, slot, i := Walk(rowHeads, nodes, rowSpine, Row, row, col);
      WalkLocates(where, rowHeads, rowSpine, nodes, Row, row, col, i, found);
    }

    /** `find_by_col`, starting from the column head: walks column `col`
        for row `row`. */
    method FindByCol(row: nat, col: nat) returns (found: bool, slot: Slot, ghost j: nat)
      requires Valid() && col < cols
      ensures found <==> (row, col) in Contents()
      ensures Bounded(colSpine, |nodes|) && Stopped(colHeads, nodes, colSpine, Col, col, row, found, slot, j)
      ensures found ==> colSpine[col][j] == where[(row, col)]
    {
      LinesBounded(colHeads, colSpine, nodes, Col);
      found, slot, j := Walk(colHeads, nodes, colSpine, Col, col, row);
      WalkLocates(where, colHeads, colSpine, nodes, Col, col, row, j, found);
    }

    /** `add`: false when the position is already stored; otherwise a new
        node is linked into its row and its column list. */
    method Add(data: int, row: nat, col: nat) returns (added: bool)
      requires Valid() && row < rows && col < cols
      modifies this
      ensures Valid()
      ensures added <==> (row, col) !in old(Contents())
      ensures added ==> Contents() == old(Contents())[(row, col) := data]
      ensures !added ==> Contents() == old(Contents())
    {
      rowHeads, colHeads, nodes, rowSpine, colSpine, where, added :=
        AddNode(rows, cols, rowHeads, colHeads, nodes, rowSpine, colSpine, where, data, row, col);
    }

    /** `remove`: false when the position is not stored; otherwise its node
        is unlinked from its column list and then from its row list. */
    method Remove(row: nat, col: nat) returns (removed: bool)
      requires Valid() && row < rows && col < cols
      modifies this
      ensures Valid()
      ensures removed <==> (row, col) in old(Contents())
      ensures Contents() == old(Contents()) - {(row, col)}
    {
      rowHeads, colHeads, nodes, rowSpine, colSpine, where, removed :=
        RemoveNode(rows, cols, rowHeads, colHeads, nodes, rowSpine, colSpine, where, row, col);
    }

    /** `find`: whether a value is stored at the position. */
    method Find(row: nat, col: nat) returns (found: bool)
      requires Valid() && col < cols
      ensures found <==> (row, col) in Contents()
    {
      var slot;
      ghost var j;
      found, slot, j := FindByCol(row, col);
    }

    /** `get`: the stored value, or a runtime error when there is none. */
    method Get(row: nat, col: nat) returns (r: Result<int>)
      requires Valid() && col < cols
      ensures (row, col) in Contents() ==> r == Ok(Contents()[(row, col)])
      ensures (row, col) !in Contents() ==> r == Err(RuntimeError)
    {
      var found, slot, j := FindByCol(row, col);
      if !found {
        return Err(RuntimeError);
      }
      r := Ok(nodes[Deref(colHeads, nodes, Col, slot).index].data);
    }
  }

  /** The source as written: the arrays and the nodes, without the spines.
      `m_cols` is filled in by the constructor and never read again. */
  datatype Grid = Grid(rowHeads: seq<Link>, colHeads: seq<Link>, nodes: seq<MNode>)

  predicate LinkIn(l: Link, size: nat)
  {
    l.At? ==> l.index < size
  }

  /** Every link held by `heads` or by a node names a node of the arena. */
  predicate LinksIn(heads: seq<Link>, nodes: seq<MNode>)
  {
    (forall k :: 0 <= k < |heads| ==> LinkIn(heads[k], |nodes|)) &&
    (forall n :: 0 <= n < |nodes| ==> LinkIn(nodes[n].nextRow, |nodes|) && LinkIn(nodes[n].nextCol, |nodes|))
  }

  /** A fresh `rows` by `cols` matrix. */
  function EmptyGrid(rows: nat, cols: nat): (g: Grid)
    ensures |g.rowHeads| == rows && |g.colHeads| == cols && g.nodes == []
    ensures LinksIn(g.rowHeads, g.nodes)
  {
    Grid(seq(rows, _ => Null), seq(cols, _ => Null), [])
  }

  /** The loop of `find_by_row` and `find_by_col` from `slot`, following the
      links of axis `a` and comparing only the key of that axis. `fuel`
      bounds the number of steps. */
  function ScanAsWritten(heads: seq<Link>, nodes: seq<MNode>, a: Axis, slot: Slot, key: nat, fuel: nat): (r: (bool, Slot))
    requires LinksIn(heads, nodes) && SlotIn(heads, nodes, slot)
    ensures SlotIn(heads, nodes, r.1)
    ensures r.0 <==> Deref(heads, nodes, a, r.1).At? && Key(nodes[Deref(heads, nodes, a, r.1).index], a) == key
    decreases fuel
  {
    match Deref(heads, nodes, a, slot)
    case Null => (false, slot)
    case At(n) =>
      if Key(nodes[n], a) == key then (true, slot)
      else if Key(nodes[n], a) > key || fuel == 0 then (false, slot)
      else ScanAsWritten(heads, nodes, a, Field(n), key, fuel - 1)
  }

  /** `find_by_col` as written: the walk starts from `m_rows[col]`. */
  function FindByColAsWritten(g: Grid, row: nat, col: nat): (r: (bool, Slot))
    requires LinksIn(g.rowHeads, g.nodes) && col < |g.rowHeads|
    ensures SlotIn(g.rowHeads, g.nodes, r.1)
  {
    ScanAsWritten(g.rowHeads, g.nodes, Col, Head(col), row, |g.nodes|)
  }

  /** `find` as written. */
  function FindAsWritten(g: Grid, row: nat, col: nat): bool
    requires LinksIn(g.rowHeads, g.nodes) && col < |g.rowHeads|
  {
    FindByColAsWritten(g, row, col).0
  }

  /** `add` as written: both slots come from walks over `m_rows`. */
  function AddAsWritten(g: Grid, data: int, row: nat, col: nat): (r: (Grid, bool))
    requires LinksIn(g.rowHeads, g.nodes) && row < |g.rowHeads| && col < |g.rowHeads|
    ensures LinksIn(r.0.rowHeads, r.0.nodes) && |r.0.rowHeads| == |g.rowHeads| && r.0.colHeads == g.colHeads
    ensures !r.1 ==> r.0 == g
    ensures r.1 ==> |r.0.nodes| == |g.nodes| + 1 && Pos(r.0.nodes[|g.nodes|]) == (row, col) && r.0.nodes[|g.nodes|].data == data
  {
    var byRow := ScanAsWritten(g.rowHeads, g.nodes, Row, Head(row), col, |g.nodes|);
    if byRow.0 then (g, false)
    else
      (LinkNewAsWritten(g, data, row, col, byRow.1, FindByColAsWritten(g, row, col).1), true)
  }

  /** The linking step of `add` as written: a new node whose links are what
      the slots `c` and `r` hold, stored into both, all among the row heads. */
  function LinkNewAsWritten(g: Grid, data: int, row: nat, col: nat, c: Slot, r: Slot): (g': Grid)
    requires LinksIn(g.rowHeads, g.nodes) && SlotIn(g.rowHeads, g.nodes, c) && SlotIn(g.rowHeads, g.nodes, r)
    ensures LinksIn(g'.rowHeads, g'.nodes) && |g'.rowHeads| == |g.rowHeads| && g'.colHeads == g.colHeads
    ensures |g'.nodes| == |g.nodes| + 1 && Pos(g'.nodes[|g.nodes|]) == (row, col) && g'.nodes[|g.nodes|].data == data
  {
    var idx := |g.nodes|;
    var n := MNode(data, row, col, Deref(g.rowHeads, g.nodes, Col, r), Deref(g.rowHeads, g.nodes, Row, c));
    var w1 := Write(g.rowHeads, g.nodes + [n], Row, c, At(idx));
    var w2 := Write(w1.0, w1.1, Col, r, At(idx));
    WriteLinksIn(g.rowHeads, g.nodes + [n], Row, c, At(idx));
    WriteLinksIn(w1.0, w1.1, Col, r, At(idx));
    Grid(w2.0, g.colHeads, w2.1)
  }

  /** Storing a link to an arena node keeps every link inside the arena. */
  lemma {:induction false} WriteLinksIn(heads: seq<Link>, nodes: seq<MNode>, a: Axis, s: Slot, l: Link)
    requires LinksIn(heads, nodes) && SlotIn(heads, nodes, s) && LinkIn(l, |nodes|)
    ensures LinksIn(Write(heads, nodes, a, s, l).0, Write(heads, nodes, a, s, l).1)
  {
  }

  /** In a 2 by 2 matrix, add (0, 0), (0, 1) and (1, 0): every add succeeds,
      yet `find(0, 1)` then fails and `find(1, 1)` succeeds, because the
      column walk runs along the row lists. */
  lemma {:induction false} FindByColAsWrittenMisses()
    ensures var g0 := EmptyGrid(2, 2);
      var a1 := AddAsWritten(g0, 10, 0, 0);
      var a2 := AddAsWritten(a1.0, 20, 0, 1);
      var a3 := AddAsWritten(a2.0, 30, 1, 0);
      a1.1 && a2.1 && a3.1 && !FindAsWritten(a3.0, 0, 1) && FindAsWritten(a3.0, 1, 1)
  {
    FirstAddAsWritten();
    SecondAddAsWritten();
    ThirdAddAsWritten();
    var g3 := ThreeAddedAsWritten();
    assert ScanAsWritten(g3.rowHeads, g3.nodes, Col, Head(1), 0, 3) == (false, Head(1));
    assert ScanAsWritten(g3.rowHeads, g3.nodes, Col, Head(1), 1, 3) == (true, Head(1));
  }

  /** The grids `add` as written leaves after (0,0), then (0,1), then (1,0). */
  function OneAddedAsWritten(): Grid
  {
    Grid([At(0), Null], [Null, Null], [MNode(10, 0, 0, Null, Null)])
  }

  function TwoAddedAsWritten(): Grid
  {
    Grid([At(0), At(1)], [Null, Null], [MNode(10, 0, 0, Null, At(1)), MNode(20, 0, 1, Null, Null)])
  }

  function ThreeAddedAsWritten(): Grid
  {
    Grid([At(0), At(2)], [Null, Null],
         [MNode(10, 0, 0, At(2), At(1)), MNode(20, 0, 1, Null, Null), MNode(30, 1, 0, Null, At(1))])
  }

  lemma {:induction false} FirstAddAsWritten()
    ensures AddAsWritten(EmptyGrid(2, 2), 10, 0, 0) == (OneAddedAsWritten(), true)
  {
    var g0, g1 := Grid([Null, Null], [Null, Null], []), OneAddedAsWritten();
    assert EmptyGrid(2, 2) == g0;
    assert ScanAsWritten(g0.rowHeads, g0.nodes, Row, Head(0), 0, 0) == (false, Head(0));
    assert ScanAsWritten(g0.rowHeads, g0.nodes, Col, Head(0), 0, 0) == (false, Head(0));
    assert g0.nodes + [MNode(10, 0, 0, Null, Null)] == g1.nodes;
    assert g0.rowHeads[0 := At(0)] == g1.rowHeads == g1.rowHeads[0 := At(0)];
  }

  lemma {:induction false} SecondAddAsWritten()
    ensures AddAsWritten(OneAddedAsWritten(), 20, 0, 1) == (TwoAddedAsWritten(), true)
  {
    var g1, g2 := OneAddedAsWritten(), TwoAddedAsWritten();
    assert ScanAsWritten(g1.rowHeads, g1.nodes, Row, Field(0), 1, 0) == (false, Field(0));
    assert ScanAsWritten(g1.rowHeads, g1.nodes, Row, Head(0), 1, 1) == (false, Field(0));
    assert ScanAsWritten(g1.rowHeads, g1.nodes, Col, Head(1), 0, 1) == (false, Head(1));
    assert (g1.nodes + [MNode(20, 0, 1, Null, Null)])[0 := SetNext(g1.nodes[0], Row, At(1))] == g2.nodes;
    assert g1.rowHeads[1 := At(1)] == g2.rowHeads;
  }

  lemma {:induction false} ThirdAddAsWritten()
    ensures AddAsWritten(TwoAddedAsWritten(), 30, 1, 0) == (ThreeAddedAsWritten(), true)
  {
    var g2, g3 := TwoAddedAsWritten(), ThreeAddedAsWritten();
    assert ScanAsWritten(g2.rowHeads, g2.nodes, Row, Head(1), 0, 2) == (false, Head(1));
    assert ScanAsWritten(g2.rowHeads, g2.nodes, Col, Field(0), 1, 1) == (false, Field(0));
    assert ScanAsWritten(g2.rowHeads, g2.nodes, Col, Head(0), 1, 2) == (false, Field(0));
    var n := MNode(30, 1, 0, Null, At(1));
    assert g2.rowHeads[1 := At(2)] == g3.rowHeads;
    assert (g2.nodes + [n])[0 := SetNext(g2.nodes[0], Col, At(2))] == g3.nodes;
  }

  /** The same calls on the corrected structure: `find(0, 1)` holds and
      `find(1, 1)` does not. */
  method FindAfterAdds() returns (found01: bool, found11: bool)
    ensures found01 && !found11
  {
    var m := ThreeAdds();
    found01 := m.Find(0, 1);
    found11 := m.Find(1, 1);
  }

  /** A 2 by 2 matrix after `add` at (0,0), (0,1) and (1,0). */
  method ThreeAdds() returns (m: Matrix)
    ensures fresh(m) && m.Valid() && m.rows == 2 && m.cols == 2
    ensures m.Contents() == map[(0, 0) := 10, (0, 1) := 20, (1, 0) := 30]
  {
    m := new Matrix(2, 2);
    var added := m.Add(10, 0, 0);
    added := m.Add(20, 0, 1);
    added := m.Add(30, 1, 0);
  }
}
