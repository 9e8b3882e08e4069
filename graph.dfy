/** The adjacency store `Graph<VertexTag, EdgeTag, type>` of
    inc/graph/graph.h, with `int` vertex and edge tags.  The ordered vertex
    set `m_g` is the ascending sequence `vertices`, and the edge sets the
    vertices own, each keyed by destination, are the map `tags` from an arc
    (origin, destination) to the edge's tag.  A vertex's mark bit is
    membership in `marks`. */
module Graphs {
  import opened Common
  import opened Sorted

  /** `G_TYPE`: whether edge mutations are mirrored. */
  datatype GType = Directed | Undirected

  /** An arc from its first to its second component. */
  type Arc = (int, int)

  /** A `FullyEdge`: both ends and the tag, as the Kruskal pass collects them. */
  datatype FullyEdge = FullyEdge(beg: int, end: int, tag: int)

  /** The values a sequence holds. */
  function Members(s: seq<int>): set<int>
  {
    set v | v in s
  }

  predicate NoDup<T(==)>(s: seq<T>)
  {
    forall i, j :: 0 <= i < j < |s| ==> s[i] != s[j]
  }

  /** The destinations of `u`'s edges, in the order `u`'s edge set holds
      them: the vertices of `vs` that `u` has an edge to. */
  function Targets(vs: seq<int>, tags: map<Arc, int>, u: int): (r: seq<int>)
    ensures forall v :: v in r <==> v in vs && (u, v) in tags
  {
    if vs == [] then []
    else (if (u, vs[0]) in tags then [vs[0]] else []) + Targets(vs[1..], tags, u)
  }

  /** Over an ascending vertex sequence the destinations come out ascending,
      which is the order of an edge set ordered by destination. */
  lemma {:induction false} TargetsAscending(vs: seq<int>, tags: map<Arc, int>, u: int)
    requires Ascending(vs)
    ensures Ascending(Targets(vs, tags, u))
  {
    if vs != [] {
      var rest := Targets(vs[1..], tags, u);
      assert Ascending(vs[1..]) by {
        forall i, j | 0 <= i < j < |vs[1..]| ensures vs[1..][i] < vs[1..][j] {
          assert vs[1..][i] == vs[i + 1] && vs[1..][j] == vs[j + 1];
        }
      }
      TargetsAscending(vs[1..], tags, u);
      forall k | 0 <= k < |rest| ensures vs[0] < rest[k] {
        assert rest[k] in vs[1..];
        var j :| 0 <= j < |vs[1..]| && vs[1..][j] == rest[k];
        assert vs[j + 1] == rest[k];
      }
    }
  }

  /** What the marking loop of a traversal pushes: the destinations met
      unmarked, each marked as it is pushed. */
  function Fresh(ts: seq<int>, marks: set<int>): seq<int>
  {
    if ts == [] then []
    else if ts[0] in marks then Fresh(ts[1..], marks)
    else [ts[0]] + Fresh(ts[1..], marks + {ts[0]})
  }

  /** The loop pushes exactly the destinations it meets unmarked. */
  lemma {:induction false} FreshMembers(ts: seq<int>, marks: set<int>)
    ensures forall v :: v in Fresh(ts, marks) <==> v in ts && v !in marks
    decreases |ts|
  {
    if ts != [] {
      FreshMembers(ts[1..], marks + {ts[0]});
      FreshMembers(ts[1..], marks);
      assert forall v :: v in ts <==> v == ts[0] || v in ts[1..];
    }
  }

  /** Marking as it pushes, the loop never pushes a destination twice. */
  lemma {:induction false} FreshNoDup(ts: seq<int>, marks: set<int>)
    ensures NoDup(Fresh(ts, marks))
    decreases |ts|
  {
    if ts != [] {
      FreshMembers(ts[1..], marks + {ts[0]});
      FreshNoDup(ts[1..], marks + {ts[0]});
      FreshNoDup(ts[1..], marks);
      var r := Fresh(ts, marks);
      if ts[0] !in marks {
        var t := Fresh(ts[1..], marks + {ts[0]});
        forall i, j | 0 <= i < j < |r| ensures r[i] != r[j] {
          if i == 0 {
            assert r[j] == t[j - 1] && r[j] in t;
          } else {
            assert r[i] == t[i - 1] && r[j] == t[j - 1];
          }
        }
      }
    }
  }

  lemma {:induction false} MembersStep(s: seq<int>, j: nat)
    requires j < |s|
    ensures Members(s[..j + 1]) == Members(s[..j]) + {s[j]}
  {
    assert s[..j + 1] == s[..j] + [s[j]];
  }

  lemma {:induction false} AppendAssoc<T>(a: seq<T>, b: seq<T>, c: seq<T>)
    ensures a + b + c == a + (b + c)
  {
  }

  /** One step of the marking loop: the destination at `j` is pushed, and
      marked, exactly when it is unmarked. */
  lemma {:induction false} FreshStep(ts: seq<int>, j: nat, marks: set<int>)
    requires j < |ts|
    ensures ts[j] in marks ==> Fresh(ts[j..], marks) == Fresh(ts[j + 1..], marks)
    ensures ts[j] !in marks ==> Fresh(ts[j..], marks) == [ts[j]] + Fresh(ts[j + 1..], marks + {ts[j]})
  {
    assert ts[j..][0] == ts[j] && ts[j..][1..] == ts[j + 1..];
  }

  /** An edge the Kruskal pass collects: a stored arc, taken from its
      smaller end, with its tag. */
  ghost predicate Kept(tags: map<Arc, int>, e: FullyEdge)
  {
    (e.beg, e.end) in tags && e.beg <= e.end && e.tag == tags[(e.beg, e.end)]
  }

  /** What the inner loop of `fill_kruskall_heap` adds for the vertex `u`
      walking its destinations `ts`: one edge per unmarked destination. */
  function Spread(tags: map<Arc, int>, u: int, ts: seq<int>, marks: set<int>): seq<FullyEdge>
  {
    if ts == [] then []
    else (if (u, ts[0]) in tags && ts[0] !in marks then [FullyEdge(u, ts[0], tags[(u, ts[0])])] else [])
         + Spread(tags, u, ts[1..], marks)
  }

  lemma {:induction false} SpreadMembers(tags: map<Arc, int>, u: int, ts: seq<int>, marks: set<int>)
    ensures forall e :: e in Spread(tags, u, ts, marks) <==>
      e.beg == u && e.end in ts && e.end !in marks && (u, e.end) in tags && e.tag == tags[(u, e.end)]
    decreases |ts|
  {
    if ts != [] {
      SpreadMembers(tags, u, ts[1..], marks);
      assert forall v :: v in ts <==> v == ts[0] || v in ts[1..];
    }
  }

  /** Destinations in ascending order give distinct edges. */
  lemma {:induction false} SpreadNoDup(tags: map<Arc, int>, u: int, ts: seq<int>, marks: set<int>)
    requires Ascending(ts)
    ensures NoDup(Spread(tags, u, ts, marks))
    decreases |ts|
  {
    if ts != [] {
      assert Ascending(ts[1..]) by {
        forall i, j | 0 <= i < j < |ts[1..]| ensures ts[1..][i] < ts[1..][j] {
          assert ts[1..][i] == ts[i + 1] && ts[1..][j] == ts[j + 1];
        }
      }
      SpreadNoDup(tags, u, ts[1..], marks);
      var t := Spread(tags, u, ts[1..], marks);
      if (u, ts[0]) in tags && ts[0] !in marks {
        SpreadMembers(tags, u, ts[1..], marks);
        var r := Spread(tags, u, ts, marks);
        forall i, j | 0 <= i < j < |r| ensures r[i] != r[j] {
          if i == 0 {
            assert r[j] == t[j - 1] && r[j] in t;
            var k :| 0 <= k < |ts[1..]| && ts[1..][k] == r[j].end;
            assert ts[0] < ts[k + 1];
          } else {
            assert r[i] == t[i - 1] && r[j] == t[j - 1];
          }
        }
      }
    }
  }

  lemma {:induction false} SpreadStep(tags: map<Arc, int>, u: int, ts: seq<int>, j: nat, marks: set<int>)
    requires j < |ts|
    ensures Spread(tags, u, ts[j..], marks) ==
      (if (u, ts[j]) in tags && ts[j] !in marks then [FullyEdge(u, ts[j], tags[(u, ts[j])])] else [])
      + Spread(tags, u, ts[j + 1..], marks)
  {
    assert ts[j..][0] == ts[j] && ts[j..][1..] == ts[j + 1..];
  }

  lemma {:induction false} NoDupAppend<T>(a: seq<T>, b: seq<T>)
    requires NoDup(a) && NoDup(b) && forall x :: x in a ==> x !in b
    ensures NoDup(a + b)
  {
    var c := a + b;
    forall i, j | 0 <= i < j < |c| ensures c[i] != c[j] {
      if j < |a| {
        assert c[i] == a[i] && c[j] == a[j];
      } else if i >= |a| {
        assert c[i] == b[i - |a|] && c[j] == b[j - |a|];
      } else {
        assert c[i] == a[i] && a[i] in a && c[j] == b[j - |a|] && c[j] in b;
      }
    }
  }

  /** In an ascending sequence, the values before position `i` are those
      below the value at `i`. */
  lemma {:induction false} PrefixBelow(vs: seq<int>, i: nat, x: int)
    requires Increasing(vs) && i < |vs| && x in vs
    ensures x in vs[..i] <==> x < vs[i]
  {
    var k :| 0 <= k < |vs| && vs[k] == x;
    if k < i {
      assert At(vs, k) < At(vs, i);
      assert vs[..i][k] == x;
    } else if k > i {
      assert At(vs, i) < At(vs, k);
    }
    if x in vs[..i] {
      var k' :| 0 <= k' < i && vs[..i][k'] == x;
      assert At(vs, k') < At(vs, i);
    }
  }

  /** One round of the outer loop of `fill_kruskall_heap`: once the vertices
      before `vs[i]` are marked, the edges added for `vs[i]` are exactly
      the kept edges whose smaller end is `vs[i]`, none collected before. */
  lemma {:induction false} KruskalStep(tags: map<Arc, int>, vs: seq<int>, i: nat, marks: set<int>,
                    heap: seq<FullyEdge>, h: seq<FullyEdge>)
    requires Increasing(vs) && i < |vs| && forall p :: p in tags ==> p.0 in vs && p.1 in vs
    requires marks == Members(vs[..i])
    requires forall e :: e in heap <==> Kept(tags, e) && e.beg in Members(vs[..i])
    requires NoDup(heap)
    requires h == heap + Spread(tags, vs[i], Targets(vs, tags, vs[i]), marks)
    ensures forall e :: e in h <==> Kept(tags, e) && e.beg in Members(vs[..i + 1])
    ensures NoDup(h)
  {
    var u := vs[i];
    var ts := Targets(vs, tags, u);
    var S := Spread(tags, u, ts, marks);
    SpreadMembers(tags, u, ts, marks);
    IncreasingAscending(vs);
    TargetsAscending(vs, tags, u);
    SpreadNoDup(tags, u, ts, marks);
    MembersStep(vs, i);
    PrefixBelow(vs, i, u);
    forall e ensures e in S <==> Kept(tags, e) && e.beg == u {
      if e.beg == u && (u, e.end) in tags {
        PrefixBelow(vs, i, e.end);
      }
    }
    NoDupAppend(heap, S);
  }

  /** A walk: consecutive vertices are joined by arcs. */
  ghost predicate Walk(tags: map<Arc, int>, p: seq<int>)
  {
    |p| > 0 && forall i :: 0 <= i < |p| - 1 ==> (p[i], p[i + 1]) in tags
  }

  ghost predicate Reachable(tags: map<Arc, int>, s: int, v: int)
  {
    exists p :: Walk(tags, p) && p[0] == s && p[|p| - 1] == v
  }

  /** The sum of the tags along a walk. */
  ghost function Weight(tags: map<Arc, int>, p: seq<int>): int
    requires Walk(tags, p)
    decreases |p|
  {
    if |p| == 1 then 0
    else
      assert Walk(tags, p[1..]) by {
        forall i | 0 <= i < |p[1..]| - 1 ensures (p[1..][i], p[1..][i + 1]) in tags {
          assert p[1..][i] == p[i + 1] && p[1..][i + 1] == p[i + 2];
        }
      }
      tags[(p[0], p[1])] + Weight(tags, p[1..])
  }

  /** Some walk from `s` to `v` weighs `d`. */
  ghost predicate WalkOf(tags: map<Arc, int>, s: int, v: int, d: int)
  {
    exists p :: Walk(tags, p) && p[0] == s && p[|p| - 1] == v && Weight(tags, p) == d
  }

  /** Stepping along one more arc lengthens a walk and adds that arc's tag. */
  lemma {:induction false} WalkExtend(tags: map<Arc, int>, p: seq<int>, v: int)
    requires Walk(tags, p) && (p[|p| - 1], v) in tags
    ensures Walk(tags, p + [v]) && (p + [v])[0] == p[0]
    ensures Weight(tags, p + [v]) == Weight(tags, p) + tags[(p[|p| - 1], v)]
  {
    var q := p + [v];
    forall i | 0 <= i < |q| - 1 ensures (q[i], q[i + 1]) in tags {
      if i < |p| - 1 {
        assert q[i] == p[i] && q[i + 1] == p[i + 1];
      }
    }
    if |p| > 1 {
      assert q[1..] == p[1..] + [v];
      assert Walk(tags, p[1..]) by {
        forall i | 0 <= i < |p[1..]| - 1 ensures (p[1..][i], p[1..][i + 1]) in tags {
          assert p[1..][i] == p[i + 1] && p[1..][i + 1] == p[i + 2];
        }
      }
      WalkExtend(tags, p[1..], v);
    }
  }

  lemma {:induction false} ReachStep(tags: map<Arc, int>, s: int, u: int, v: int)
    requires Reachable(tags, s, u) && (u, v) in tags
    ensures Reachable(tags, s, v)
  {
    var p :| Walk(tags, p) && p[0] == s && p[|p| - 1] == u;
    WalkExtend(tags, p, v);
  }

  lemma {:induction false} ReachSelf(tags: map<Arc, int>, s: int)
    ensures Reachable(tags, s, s)
  {
    assert Walk(tags, [s]);
  }

  /** A set that holds `s` and is closed under arcs holds the end of every
      walk from `s`. */
  lemma {:induction false} ClosedHoldsWalk(tags: map<Arc, int>, S: set<int>, p: seq<int>)
    requires Walk(tags, p) && p[0] in S
    requires forall u, v :: u in S && (u, v) in tags ==> v in S
    ensures p[|p| - 1] in S
    decreases |p|
  {
    if |p| > 1 {
      var q := p[..|p| - 1];
      assert Walk(tags, q) by {
        forall i | 0 <= i < |q| - 1 ensures (q[i], q[i + 1]) in tags {
          assert q[i] == p[i] && q[i + 1] == p[i + 1];
        }
      }
      ClosedHoldsWalk(tags, S, q);
      assert (p[|p| - 2], p[|p| - 1]) in tags;
    }
  }

  lemma {:induction false} ClosedHoldsReachable(tags: map<Arc, int>, S: set<int>, s: int)
    requires s in S
    requires forall u, v :: u in S && (u, v) in tags ==> v in S
    ensures forall v :: Reachable(tags, s, v) ==> v in S
  {
    forall v | Reachable(tags, s, v) ensures v in S {
      var p :| Walk(tags, p) && p[0] == s && p[|p| - 1] == v;
      ClosedHoldsWalk(tags, S, p);
    }
  }

  /** The arcs leaving `x`, its own edge set. */
  function OutArcs(tags: map<Arc, int>, x: int): set<Arc>
  {
    set p | p in tags && p.0 == x
  }

  /** The arcs reaching `x` from another vertex. */
  function InArcs(tags: map<Arc, int>, x: int): set<Arc>
  {
    set p | p in tags && p.1 == x && p.0 != x
  }

  /** The edges that remain once every arc touching `x` is gone. */
  function Cleared(tags: map<Arc, int>, x: int): map<Arc, int>
  {
    map p | p in tags && p.0 != x && p.1 != x :: tags[p]
  }

  /** Clearing `x` removes exactly its outgoing and its incoming arcs. */
  lemma {:induction false} ClearedSize(tags: map<Arc, int>, x: int)
    ensures |Cleared(tags, x)| + |OutArcs(tags, x)| + |InArcs(tags, x)| == |tags|
  {
    var C, O, I := Cleared(tags, x).Keys, OutArcs(tags, x), InArcs(tags, x);
    assert tags.Keys == C + O + I;
    assert C !! O && C !! I && O !! I;
    assert |C + O| == |C| + |O|;
    assert |C + O + I| == |C + O| + |I|;
  }

  /** How many edges `x`'s own edge set counts once its mirror arcs are
      uncounted: all of them in DIRECTED mode, only a loop x-x otherwise. */
  function OwnCount(gtype: GType, tags: map<Arc, int>, x: int): nat
  {
    if gtype == Directed then |OutArcs(tags, x)|
    else if (x, x) in tags then 1 else 0
  }

  /** `get_min_dijkstra` over the heap: a `logic_error` when the heap is
      empty, otherwise a queued entry, which leaves the heap. */
  method GetMinDijkstra(heap: set<int>) returns (res: Result<int>, rest: set<int>)
    ensures heap == {} <==> res.Err?
    ensures res.Err? ==> res.error == LogicError
    ensures res.Ok? ==> res.value in heap && rest == heap - {res.value}
    ensures res.Err? ==> rest == heap
  {
    if heap == {} {
      return Err(LogicError), heap;
    }
    if forall v :: v !in heap {
      // a non-empty set has a member
      assert false;
    }
    var m :| m in heap;
    return Ok(m), heap - {m};
  }

  /** The entry `dijkstra_from` leaves for `x` once a path of weight `c`
      reaches it: `std::min` with the entry it had, or `c` for a new one. */
  function Candidate(dist: map<int, int>, x: int, c: int): (r: int)
    ensures r <= c && (x in dist ==> r <= dist[x])
    ensures r == c || (x in dist && r == dist[x])
  {
    if x in dist && dist[x] < c then dist[x] else c
  }

  lemma {:induction false} WalkOfSelf(tags: map<Arc, int>, a: int)
    ensures WalkOf(tags, a, a, 0)
  {
    assert Walk(tags, [a]) && Weight(tags, [a]) == 0;
  }

  /** Whether the loop over the vertices in `dijkstra_from` touches the
      entry of `x` once `m` is settled: `x` is an unmarked vertex and `m`
      has an edge to it. */
  ghost predicate Improves(vs: seq<int>, tags: map<Arc, int>, marks: set<int>, m: int, x: int)
  {
    x in vs && x !in marks && (m, x) in tags
  }

  /** The entries `d` after settling `m` at distance `dm` over `dist`:
      every vertex `m` improves gets its candidate entry, every other entry
      stays as it was. */
  ghost predicate RelaxedBy(vs: seq<int>, tags: map<Arc, int>, marks: set<int>, m: int, dm: int,
                            dist: map<int, int>, d: map<int, int>)
  {
    (forall x :: x in d <==> x in dist || Improves(vs, tags, marks, m, x)) &&
    (forall x :: x in d ==>
      d[x] == if Improves(vs, tags, marks, m, x) then Candidate(dist, x, dm + tags[(m, x)]) else dist[x])
  }

  /** What every entry satisfies in any version of `dijkstra_from`: it is a
      vertex reached by a walk of its weight, and no direct edge from `a`
      is cheaper than its entry. */
  ghost predicate EntriesOk(tags: map<Arc, int>, vs: seq<int>, a: int, dist: map<int, int>)
  {
    (forall v :: v in dist ==> v in vs && WalkOf(tags, a, v, dist[v])) &&
    (forall v :: (a, v) in tags ==> v in dist && dist[v] <= tags[(a, v)])
  }

  /** The seeding copy of `a`'s edge set. */
  lemma {:induction false} SeedsOk(tags: map<Arc, int>, vs: seq<int>, a: int, dist: map<int, int>)
    requires forall p :: p in tags ==> p.1 in vs
    requires dist == map v | v in vs && (a, v) in tags :: tags[(a, v)]
    ensures EntriesOk(tags, vs, a, dist) && forall v :: v in dist ==> (a, v) in tags
  {
    WalkOfSelf(tags, a);
    forall v | v in dist ensures WalkOf(tags, a, v, dist[v]) {
      WalkOfStep(tags, a, a, 0, v);
    }
  }

  /** Relaxing from a settled `m` with its entry keeps the entries right. */
  lemma {:induction false} RelaxOk(tags: map<Arc, int>, vs: seq<int>, a: int, marks: set<int>, dist: map<int, int>,
                m: int, d: map<int, int>)
    requires EntriesOk(tags, vs, a, dist) && m in dist
    requires RelaxedBy(vs, tags, marks, m, dist[m], dist, d)
    ensures EntriesOk(tags, vs, a, d)
    ensures forall x :: x in d ==> x in dist || (m, x) in tags
  {
    forall x | x in d ensures x in vs && WalkOf(tags, a, x, d[x]) {
      if Improves(vs, tags, marks, m, x) {
        WalkOfStep(tags, a, m, dist[m], x);
      }
    }
  }

  /** The loop invariant of `dijkstra_from` as written: only `a` and
      settled seeds are marked, only seeds are queued, and every entry is
      right and at most two arcs from `a`. */
  ghost predicate AsWrittenInv(tags: map<Arc, int>, vs: seq<int>, a: int, marks: set<int>,
                               heap: set<int>, dist: map<int, int>)
  {
    a in marks &&
    (forall v :: v in marks ==> v == a || (a, v) in tags) &&
    heap <= dist.Keys && (forall v :: v in heap ==> (a, v) in tags) &&
    EntriesOk(tags, vs, a, dist) &&
    (forall v :: v in dist ==> NearOrigin(tags, a, v))
  }

  lemma {:induction false} AsWrittenStep(tags: map<Arc, int>, vs: seq<int>, a: int, marks: set<int>, heap: set<int>,
                      dist: map<int, int>, m: int, d: map<int, int>)
    requires AsWrittenInv(tags, vs, a, marks, heap, dist) && m in heap
    requires RelaxedBy(vs, tags, marks + {m}, m, dist[m], dist, d)
    ensures AsWrittenInv(tags, vs, a, marks + {m}, heap - {m}, d)
  {
    RelaxOk(tags, vs, a, marks + {m}, dist, m, d);
    assert (a, m) in tags;
    forall x | x in d ensures NearOrigin(tags, a, x) {
      if x !in dist {
        assert Improves(vs, tags, marks + {m}, m, x);
        assert (a, m) in tags && (m, x) in tags;
      }
    }
    forall v | v in heap - {m} ensures v in d {
      assert v in dist;
    }
  }

  /** The loop invariant of the queued `dijkstra_from`: every marked vertex
      but `a` has an entry, every edge from a marked vertex leads to a
      marked vertex or an entry, and every entry is right. */
  ghost predicate QueuedInv(tags: map<Arc, int>, vs: seq<int>, a: int, marks: set<int>, dist: map<int, int>)
  {
    a in marks &&
    (forall v :: v in marks && v != a ==> v in dist) &&
    (forall u, x :: u in marks && (u, x) in tags ==> x in marks || x in dist) &&
    EntriesOk(tags, vs, a, dist)
  }

  lemma {:induction false} QueuedStep(tags: map<Arc, int>, vs: seq<int>, a: int, marks: set<int>,
                   dist: map<int, int>, m: int, d: map<int, int>)
    requires forall p :: p in tags ==> p.1 in vs
    requires QueuedInv(tags, vs, a, marks, dist) && m in dist
    requires RelaxedBy(vs, tags, marks + {m}, m, dist[m], dist, d)
    ensures QueuedInv(tags, vs, a, marks + {m}, d)
  {
    RelaxOk(tags, vs, a, marks + {m}, dist, m, d);
    forall u, x | u in marks + {m} && (u, x) in tags ensures x in marks + {m} || x in d {
      if u == m && x !in marks + {m} {
        assert Improves(vs, tags, marks + {m}, m, x);
      }
    }
  }

  /** `v` is one or two arcs away from `a`. */
  ghost predicate NearOrigin(tags: map<Arc, int>, a: int, v: int)
  {
    (a, v) in tags || exists m :: (a, m) in tags && (m, v) in tags
  }

  /** A walk to `m` of weight `d`, followed by the arc m->x, is a walk to
      `x` of weight `d` plus the arc's tag. */
  lemma {:induction false} WalkOfStep(tags: map<Arc, int>, a: int, m: int, d: int, x: int)
    requires WalkOf(tags, a, m, d) && (m, x) in tags
    ensures WalkOf(tags, a, x, d + tags[(m, x)])
  {
    var p :| Walk(tags, p) && p[0] == a && p[|p| - 1] == m && Weight(tags, p) == d;
    WalkExtend(tags, p, x);
    assert (p + [x])[|p + [x]| - 1] == x;
  }

  lemma {:induction false} WalkOfReachable(tags: map<Arc, int>, a: int, v: int, d: int)
    requires WalkOf(tags, a, v, d)
    ensures Reachable(tags, a, v)
  {
  }

  /** Marking one more vertex adds one to the count of marks. */
  lemma {:induction false} CardInsert(s: set<int>, x: int)
    requires x !in s
    ensures |s + {x}| == |s| + 1
  {
  }

  /** An ascending sequence holds as many values as it has positions. */
  lemma {:induction false} MembersCard(s: seq<int>)
    requires Increasing(s)
    ensures |Members(s)| == |s|
  {
    if s != [] {
      assert Increasing(s[1..]) by {
        forall i, j | 0 <= i < j < |s[1..]| ensures At(s[1..], i) < At(s[1..], j) {
          assert At(s[1..], i) == At(s, i + 1) && At(s[1..], j) == At(s, j + 1);
        }
      }
      MembersCard(s[1..]);
      assert s[0] !in s[1..] by {
        forall k | 0 <= k < |s[1..]| ensures s[1..][k] != s[0] {
          assert At(s, 0) < At(s, k + 1);
        }
      }
      assert Members(s) == {s[0]} + Members(s[1..]);
    }
  }

  /** `get_min_dijkstra` over the edge set: the entries are popped from a
      min-heap on their tags until one whose vertex is unmarked comes out;
      a `logic_error` when every entry is marked. */
  method GetMinUnmarked(dist: map<int, int>, marks: set<int>) returns (res: Result<int>)
    ensures res.Err? <==> forall v :: v in dist ==> v in marks
    ensures res.Err? ==> res.error == LogicError
    ensures res.Ok? ==> res.value in dist && res.value !in marks
    ensures res.Ok? ==> forall v :: v in dist && v !in marks ==> dist[res.value] <= dist[v]
  {
    var pool := dist.Keys;
    var best: Option<int> := None;
    while pool != {}
      invariant pool <= dist.Keys
      invariant best.Some? ==> best.value in dist && best.value !in marks
      invariant forall v :: v in dist && v !in pool && v !in marks ==> best.Some? && dist[best.value] <= dist[v]
      decreases |pool|
    {
      if forall v :: v !in pool {
        // a non-empty set has a member
        assert false;
      }
      var v :| v in pool;
      pool := pool - {v};
      if v !in marks && (best.None? || dist[v] < dist[best.value]) {
        best := Some(v);
      }
    }
    forall v | v in dist ensures v in marks || (best.Some? && dist[best.value] <= dist[v]) {
      assert v !in pool;
    }
    if best.None? {
      return Err(LogicError);
    }
    var b := best.value;
    assert !(b in dist ==> b in marks);
    return Ok(b);
  }

  /** What a traversal keeps between two pops: the marked vertices are the
      visited and the pending ones (all of them unmarked only before the
      start is popped), nothing is visited or pending twice, everything
      visited or pending is reachable from the start, and every edge of a
      visited vertex leads to a marked one. */
  ghost predicate TraversalInv(tags: map<Arc, int>, V: set<int>, start: int, visited: seq<int>, pending: seq<int>, marks: set<int>)
  {
    marks <= V && start in V && (forall v :: v in pending ==> v in V) &&
    (visited == [] ==> pending == [start] && marks == {}) &&
    (visited != [] ==> visited[0] == start && forall v :: v in marks <==> v in visited || v in pending) &&
    NoDup(visited) && NoDup(pending) && (forall v :: v in visited ==> v !in pending) &&
    (forall v :: v in visited || v in pending ==> Reachable(tags, start, v)) &&
    (forall u, v :: u in visited && (u, v) in tags ==> v in marks)
  }

  /** The sequences after one pop keep their vertices distinct and apart:
      `rest` and the fresh destinations `F` are unmarked before the pop,
      and `tmp` was pending, so none of them is visited. */
  lemma {:induction false} StepDistinct(visited: seq<int>, pending: seq<int>, marks: set<int>, start: int,
                     tmp: int, rest: seq<int>, F: seq<int>)
    requires NoDup(visited) && NoDup(rest) && NoDup(F) && tmp !in rest
    requires forall v :: v in visited ==> v !in pending
    requires visited == [] ==> pending == [start] && marks == {}
    requires visited != [] ==> forall v :: v in marks <==> v in visited || v in pending
    requires forall v :: v in pending <==> v == tmp || v in rest
    requires forall v :: v in F ==> v !in marks && v != tmp
    ensures NoDup(rest + F) && NoDup(visited + [tmp])
    ensures forall v :: v in visited + [tmp] ==> v !in rest + F
  {
    var pending' := rest + F;
    var visited' := visited + [tmp];
    forall i, j | 0 <= i < j < |pending'| ensures pending'[i] != pending'[j] {
      if j < |rest| {
      } else if i >= |rest| {
        assert pending'[i] == F[i - |rest|] && pending'[j] == F[j - |rest|];
      } else {
        assert pending'[i] == rest[i] && pending'[j] in F;
        assert rest[i] in pending;
        assert visited == [] ==> rest == [];
      }
    }
    forall i, j | 0 <= i < j < |visited'| ensures visited'[i] != visited'[j] {
      if j == |visited| {
        assert visited[i] in visited;
      } else {
        assert visited'[i] == visited[i] && visited'[j] == visited[j];
      }
    }
    forall v | v in visited' ensures v !in pending' {
      if v in visited {
        assert v in marks && v !in rest;
      }
    }
  }

  /** One pop of a traversal: `tmp` leaves the pending vertices, is visited
      and marked, and its unmarked destinations become pending.  The
      invariant survives. */
  lemma TraversalStep(tags: map<Arc, int>, vs: seq<int>, start: int, visited: seq<int>, pending: seq<int>,
                      marks: set<int>, tmp: int, rest: seq<int>)
    requires TraversalInv(tags, Members(vs), start, visited, pending, marks)
    requires forall p :: p in tags ==> p.1 in vs
    requires tmp !in rest && NoDup(rest) && |rest| == |pending| - 1
    requires forall v :: v in pending <==> v == tmp || v in rest
    ensures var ts := Targets(vs, tags, tmp);
      TraversalInv(tags, Members(vs), start, visited + [tmp],
                   rest + Fresh(ts, marks + {tmp}), marks + {tmp} + Members(ts))
  {
    var ts := Targets(vs, tags, tmp);
    var marks' := marks + {tmp} + Members(ts);
    var F := Fresh(ts, marks + {tmp});
    FreshNoDup(ts, marks + {tmp});
    FreshMembers(ts, marks + {tmp});
    var pending' := rest + F;
    var visited' := visited + [tmp];
    assert tmp in pending;
    StepDistinct(visited, pending, marks, start, tmp, rest, F);
    forall v | v in F ensures Reachable(tags, start, v) {
      ReachStep(tags, start, tmp, v);
    }
    forall v | v in visited' || v in pending' ensures Reachable(tags, start, v) {
      if v in visited || v in rest {
      } else if v == tmp {
      }
    }
    forall u, v | u in visited' && (u, v) in tags ensures v in marks' {
      if u == tmp {
        assert v in vs;
        assert v in ts;
      } else {
        assert u in visited;
      }
    }
    assert visited'[0] == start;
  }

  /** Taking `tmp` off either end of a sequence without repeats. */
  lemma {:induction false} PopFacts(pending: seq<int>, tmp: int, rest: seq<int>)
    requires NoDup(pending) && (pending == rest + [tmp] || pending == [tmp] + rest)
    ensures tmp !in rest && NoDup(rest) && |rest| == |pending| - 1
    ensures forall v :: v in pending <==> v == tmp || v in rest
  {
    var k := if pending == rest + [tmp] then |rest| else 0;
    var d := if pending == rest + [tmp] then 0 else 1;
    assert pending[k] == tmp;
    forall i | 0 <= i < |rest|
      ensures rest[i] == pending[i + d] && i + d != k
    {
    }
    forall i | 0 <= i < |rest|
      ensures rest[i] != tmp
    {
      assert pending[i + d] != pending[k];
    }
    forall i, j | 0 <= i < j < |rest|
      ensures rest[i] != rest[j]
    {
      assert pending[i + d] != pending[j + d];
    }
  }

  /** One round of `visit_bfs` or `visit_dfs`: `tmp` taken off the front
      or the back, visited and marked, and its unmarked destinations queued
      and marked. */
  lemma {:induction false} TraversalRound(tags: map<Arc, int>, vs: seq<int>, start: int, visited: seq<int>, pending: seq<int>,
                       marks: set<int>, tmp: int, rest: seq<int>)
    requires TraversalInv(tags, Members(vs), start, visited, pending, marks)
    requires forall p :: p in tags ==> p.1 in vs
    requires pending == rest + [tmp] || pending == [tmp] + rest
    ensures var ts := Targets(vs, tags, tmp);
      var marks' := marks + {tmp} + Members(ts);
      var pending' := rest + Fresh(ts, marks + {tmp});
      TraversalInv(tags, Members(vs), start, visited + [tmp], pending', marks') &&
      (Members(vs) - marks' < Members(vs) - marks ||
       (Members(vs) - marks' == Members(vs) - marks && |pending'| < |pending|))
  {
    PopFacts(pending, tmp, rest);
    TraversalStep(tags, vs, start, visited, pending, marks, tmp, rest);
    TraversalMeasure(tags, vs, start, visited, pending, marks, tmp, rest);
  }

  /** One pop either marks more vertices or leaves fewer pending. */
  lemma {:induction false} TraversalMeasure(tags: map<Arc, int>, vs: seq<int>, start: int, visited: seq<int>, pending: seq<int>,
                         marks: set<int>, tmp: int, rest: seq<int>)
    requires TraversalInv(tags, Members(vs), start, visited, pending, marks)
    requires |rest| == |pending| - 1
    requires forall v :: v in pending <==> v == tmp || v in rest
    ensures var ts := Targets(vs, tags, tmp);
      var marks' := marks + {tmp} + Members(ts);
      var pending' := rest + Fresh(ts, marks + {tmp});
      Members(vs) - marks' < Members(vs) - marks ||
      (Members(vs) - marks' == Members(vs) - marks && |pending'| < |pending|)
  {
    var V := Members(vs);
    var ts := Targets(vs, tags, tmp);
    var marks' := marks + {tmp} + Members(ts);
    var F := Fresh(ts, marks + {tmp});
    FreshMembers(ts, marks + {tmp});
    assert tmp in pending;
    if visited == [] {
      assert tmp == start && rest == [] && marks == {};
      assert tmp !in V - marks';
    } else {
      assert tmp in marks;
      if F == [] {
        forall v | v in Members(ts) ensures v in marks {
          assert v in ts && v !in F;
        }
        assert marks' == marks;
      } else {
        var f := F[0];
        assert f in F;
        assert f in ts && f !in marks;
        assert f in vs;
        assert f in V - marks && f !in V - marks';
      }
    }
  }

  /** `s[i]`, as a term a proof names on purpose. */
  ghost function At(s: seq<int>, i: nat): int
    requires i < |s|
  {
    s[i]
  }

  /** `Ascending`, stated over `At` so that the solver relates two
      positions of the vertex sequence only where a proof asks it to. */
  ghost predicate Increasing(s: seq<int>)
  {
    forall i, j :: 0 <= i < j < |s| ==> At(s, i) < At(s, j)
  }

  lemma {:induction false} IncreasingAscending(s: seq<int>)
    ensures Increasing(s) <==> Ascending(s)
  {
    if Increasing(s) {
      forall i, j | 0 <= i < j < |s| ensures s[i] < s[j] {
        assert At(s, i) < At(s, j);
      }
    }
    if Ascending(s) {
      forall i, j | 0 <= i < j < |s| ensures At(s, i) < At(s, j) {
        assert s[i] < s[j];
      }
    }
  }

  /** The edge structure: every arc joins two stored vertices, and in an
      UNDIRECTED graph every arc has its reverse, with the same tag. */
  ghost predicate Linked(gtype: GType, vs: seq<int>, tags: map<Arc, int>)
  {
    (forall p :: p in tags ==> p.0 in vs && p.1 in vs) &&
    (gtype == Undirected ==> forall p :: p in tags ==> (p.1, p.0) in tags && tags[(p.1, p.0)] == tags[p])
  }

  /** The edge sets after storing u->v with tag `w`, and v->u too when
      UNDIRECTED. */
  function WithEdge(gtype: GType, tags: map<Arc, int>, u: int, v: int, w: int): map<Arc, int>
  {
    if gtype == Directed then tags[(u, v) := w] else tags[(u, v) := w][(v, u) := w]
  }

  /** Storing an edge between two vertices keeps the structure, as long as
      an UNDIRECTED graph gets both directions. */
  lemma {:induction false} LinkedAdd(gtype: GType, vs: seq<int>, tags: map<Arc, int>, u: int, v: int, w: int)
    requires Linked(gtype, vs, tags) && u in vs && v in vs
    ensures Linked(gtype, vs, WithEdge(gtype, tags, u, v, w))
  {
    var t := WithEdge(gtype, tags, u, v, w);
    if gtype == Undirected {
      forall p | p in t ensures (p.1, p.0) in t && t[(p.1, p.0)] == t[p] {
        if p != (u, v) && p != (v, u) {
          assert p in tags && (p.1, p.0) != (u, v) && (p.1, p.0) != (v, u);
        }
      }
    }
  }

  /** Removing a set of arcs that holds the reverse of each of its arcs
      (in an UNDIRECTED graph) keeps the structure. */
  lemma {:induction false} LinkedRemove(gtype: GType, vs: seq<int>, tags: map<Arc, int>, K: set<Arc>)
    requires Linked(gtype, vs, tags)
    requires gtype == Undirected ==> forall p :: p in K ==> (p.1, p.0) in K
    ensures Linked(gtype, vs, tags - K)
  {
    var t := tags - K;
    if gtype == Undirected {
      forall p | p in t ensures (p.1, p.0) in t && t[(p.1, p.0)] == t[p] {
        assert p in tags && p !in K;
        assert ((p.1, p.0).1, (p.1, p.0).0) == p;
      }
    }
  }

  /** Once every arc touching `x` is gone, `x` can go too. */
  lemma {:induction false} LinkedCleared(gtype: GType, vs: seq<int>, tags: map<Arc, int>, x: int)
    requires Linked(gtype, vs, tags) && Increasing(vs)
    ensures Linked(gtype, vs, Cleared(tags, x))
    ensures Linked(gtype, Delete(vs, x), Cleared(tags, x))
  {
    IncreasingAscending(vs);
    DeleteSpec(vs, x);
    var t := Cleared(tags, x);
    if gtype == Undirected {
      forall p | p in t ensures (p.1, p.0) in t && t[(p.1, p.0)] == t[p] {
        assert p in tags;
      }
    }
  }

  class Graph {
    const gtype: GType
    var vertices: seq<int>
    var tags: map<Arc, int>
    var marks: set<int>
    var noVertexes: int
    var noEdges: int

    /** The vertex set is ordered and counted, every edge joins two stored
        vertices, and an undirected graph stores each edge in both
        directions with one tag. */
    ghost predicate Shaped()
      reads this`vertices, this`noVertexes, this`tags
    {
      Increasing(vertices) &&
      noVertexes == |vertices| &&
      Linked(gtype, vertices, tags)
    }

    /** Between operations the graph is shaped and no mark is left set. */
    ghost predicate Valid()
      reads this
    {
      Shaped() && marks == {}
    }

    constructor (t: GType)
      ensures Valid() && gtype == t
      ensures vertices == [] && tags == map[] && noEdges == 0
    {
      gtype := t;
      vertices := [];
      tags := map[];
      marks := {};
      noVertexes := 0;
      noEdges := 0;
    }

    function NoVertexes(): (n: int)
      reads this
      requires Valid()
      ensures n == |vertices|
    {
      noVertexes
    }


    /** `add_vertex`: inserted, and counted, only when no vertex has the tag. */
    method AddVertex(x: int) returns (inserted: bool)
      requires Valid()
      modifies this
      ensures Valid()
      ensures inserted <==> x !in old(vertices)
      ensures forall y :: y in vertices <==> y in old(vertices) || y == x
      ensures vertices == Insert(old(vertices), x)
      ensures noVertexes == old(noVertexes) + (if inserted then 1 else 0)
      ensures tags == old(tags) && noEdges == old(noEdges)
    {
      IncreasingAscending(vertices);
      InsertSpec(vertices, x);
      IncreasingAscending(Insert(vertices, x));
      inserted := x !in vertices;
      vertices := Insert(vertices, x);
      if inserted {
        noVertexes := noVertexes + 1;
      }
    }

    /** `add_edge`: a `runtime_error` when an end is not a vertex.  An edge
        u->v that already exists keeps its tag; a new one is counted, and an
        UNDIRECTED graph also gets v->u with the same tag.  The result is
        whether the last emplace inserted, so a new undirected loop u->u
        reports false. */
    method AddEdge(u: int, v: int, w: int) returns (res: Result<bool>)
      requires Valid()
      modifies this
      ensures Valid()
      ensures u !in vertices || v !in vertices <==> res.Err?
      ensures res.Err? ==> res.error == RuntimeError
      ensures vertices == old(vertices) && noVertexes == old(noVertexes)
      ensures res.Err? ==> tags == old(tags) && noEdges == old(noEdges)
      ensures res.Ok? && (u, v) in old(tags) ==> tags == old(tags) && noEdges == old(noEdges)
      ensures res.Ok? && (u, v) !in old(tags) ==>
        tags == WithEdge(gtype, old(tags), u, v, w) && noEdges == old(noEdges) + 1
      ensures res.Ok? ==> res.value == ((u, v) !in old(tags) && (gtype == Undirected ==> u != v))
    {
      if u !in vertices || v !in vertices {
        return Err(RuntimeError);
      }
      ghost var t0 := tags;
      var inserted := (u, v) !in tags;
      if inserted {
        tags := tags[(u, v) := w];
        noEdges := noEdges + 1;
      }
      if gtype == Undirected {
        assert (u, v) in t0 ==> (v, u) in t0;
        assert (v, u) in t0 ==> (u, v) in t0;
        inserted := (v, u) !in tags;
        if inserted {
          tags := tags[(v, u) := w];
        }
      }
      if (u, v) !in t0 {
        LinkedAdd(gtype, vertices, t0, u, v, w);
        assert tags == WithEdge(gtype, t0, u, v, w);
      } else {
        assert tags == t0;
      }
      res := Ok(inserted);
    }
    /** `remove_edge`: false only when an end is not a vertex.  The edge
        u->v goes, and is uncounted, if it was there; an UNDIRECTED graph
        also loses v->u. */
    method RemoveEdge(u: int, v: int) returns (ok: bool)
      requires Valid()
      modifies this
      ensures Valid()
      ensures ok <==> u in vertices && v in vertices
      ensures vertices == old(vertices) && noVertexes == old(noVertexes)
      ensures !ok ==> tags == old(tags) && noEdges == old(noEdges)
      ensures ok && gtype == Directed ==> tags == old(tags) - {(u, v)}
      ensures ok && gtype == Undirected ==> tags == old(tags) - {(u, v), (v, u)}
      ensures ok ==> noEdges == old(noEdges) - (if (u, v) in old(tags) then 1 else 0)
    {
      if u !in vertices || v !in vertices {
        return false;
      }
      ghost var t0 := tags;
      ghost var K: set<Arc> := if gtype == Directed then {(u, v)} else {(u, v), (v, u)};
      if (u, v) in tags {
        tags := tags - {(u, v)};
        noEdges := noEdges - 1;
      }
      if gtype == Undirected {
        if (v, u) in tags {
          tags := tags - {(v, u)};
        }
      }
      assert tags == t0 - K;
      LinkedRemove(gtype, vertices, t0, K);
      return true;
    }
    /** `remove_edges_with`: false when `x` is not a vertex.  Otherwise
        `x`'s own edge set is cleared and every other vertex's edge to `x`
        is erased and uncounted; the cleared edges of `x` stay counted. */
    method RemoveEdgesWith(x: int) returns (found: bool)
      requires Valid()
      modifies this
      ensures Valid()
      ensures found <==> x in old(vertices)
      ensures vertices == old(vertices) && noVertexes == old(noVertexes)
      ensures !found ==> tags == old(tags) && noEdges == old(noEdges)
      ensures found ==> tags == Cleared(old(tags), x)
      ensures found ==> noEdges == old(noEdges) - |InArcs(old(tags), x)|
    {
      if x !in vertices {
        return false;
      }
      ghost var t0 := tags;
      tags := map p | p in tags && p.0 != x :: tags[p];
      assert InArcs(tags, x) == InArcs(t0, x);
      EraseArcsTo(x);
      assert tags == Cleared(t0, x);
      LinkedCleared(gtype, vertices, t0, x);
      return true;
    }

    /** The loop of `remove_edges_with` over the vertices: each other
        vertex's edge to `x`, if any, is erased and uncounted. */
    method EraseArcsTo(x: int)
      requires forall p :: p in tags ==> p.0 in vertices
      modifies this
      ensures tags == old(tags) - InArcs(old(tags), x)
      ensures noEdges == old(noEdges) - |InArcs(old(tags), x)|
      ensures vertices == old(vertices) && noVertexes == old(noVertexes) && marks == old(marks)
    {
      ghost var t0 := tags;
      ghost var removed: set<Arc> := {};
      var i := 0;
      while i < |vertices|
        invariant 0 <= i <= |vertices|
        invariant vertices == old(vertices) && noVertexes == old(noVertexes) && marks == old(marks)
        invariant removed <= InArcs(t0, x)
        invariant tags == t0 - removed
        invariant noEdges == old(noEdges) - |removed|
        invariant forall j :: 0 <= j < i && vertices[j] != x ==> (vertices[j], x) !in tags
      {
        var v := vertices[i];
        if v != x && (v, x) in tags {
          assert (v, x) !in removed;
          assert |removed + {(v, x)}| == |removed| + 1;
          tags := tags - {(v, x)};
          noEdges := noEdges - 1;
          removed := removed + {(v, x)};
        }
        i := i + 1;
      }
      forall p | p in InArcs(t0, x) ensures p in removed {
        assert p.0 in vertices;
        var j :| 0 <= j < |vertices| && vertices[j] == p.0;
        assert (vertices[j], x) !in tags;
      }
      assert removed == InArcs(t0, x);
    }

    /** `remove_edges_with` with the count kept: the cleared edge set of
        `x` is uncounted too, which in DIRECTED mode is all of `x`'s
        outgoing arcs and in UNDIRECTED mode only a loop x-x (its other
        edges are uncounted once, through their mirror arcs).  A directed
        graph whose count was its arc count keeps it so. */
    method RemoveEdgesWithCounted(x: int) returns (found: bool)
      requires Valid()
      modifies this
      ensures Valid()
      ensures found <==> x in old(vertices)
      ensures vertices == old(vertices) && noVertexes == old(noVertexes)
      ensures !found ==> tags == old(tags) && noEdges == old(noEdges)
      ensures found ==> tags == Cleared(old(tags), x)
      ensures found ==> noEdges == old(noEdges) - |InArcs(old(tags), x)| - OwnCount(gtype, old(tags), x)
      ensures gtype == Directed && old(noEdges) == |old(tags)| ==> noEdges == |tags|
    {
      if x !in vertices {
        return false;
      }
      ghost var t0 := tags;
      noEdges := noEdges - OwnCount(gtype, tags, x);
      found := RemoveEdgesWith(x);
      ClearedSize(t0, x);
    }

    /** `remove_vertex`: false when `x` is not a vertex; otherwise its edges
        go as in `remove_edges_with`, whose cleared edges of `x` stay
        counted, and the vertex is erased and uncounted. */
    method RemoveVertex(x: int) returns (found: bool)
      requires Valid()
      modifies this
      ensures Valid()
      ensures found <==> x in old(vertices)
      ensures vertices == Delete(old(vertices), x)
      ensures forall y :: y in vertices <==> y in old(vertices) && y != x
      ensures !found ==> tags == old(tags) && noEdges == old(noEdges) && noVertexes == old(noVertexes)
      ensures found ==> tags == Cleared(old(tags), x) && noVertexes == old(noVertexes) - 1
      ensures found ==> noEdges == old(noEdges) - |InArcs(old(tags), x)|
    {
      IncreasingAscending(vertices);
      DeleteSpec(vertices, x);
      LinkedCleared(gtype, vertices, tags, x);
      found := RemoveEdgesWith(x);
      if found {
        EraseVertex(x);
      }
    }

    /** `remove_vertex` with the count kept, over the corrected
        `remove_edges_with`. */
    method RemoveVertexCounted(x: int) returns (found: bool)
      requires Valid()
      modifies this
      ensures Valid()
      ensures found <==> x in old(vertices)
      ensures vertices == Delete(old(vertices), x)
      ensures forall y :: y in vertices <==> y in old(vertices) && y != x
      ensures !found ==> tags == old(tags) && noEdges == old(noEdges) && noVertexes == old(noVertexes)
      ensures found ==> tags == Cleared(old(tags), x) && noVertexes == old(noVertexes) - 1
      ensures found ==> noEdges == old(noEdges) - |InArcs(old(tags), x)| - OwnCount(gtype, old(tags), x)
      ensures gtype == Directed && old(noEdges) == |old(tags)| ==> noEdges == |tags|
    {
      IncreasingAscending(vertices);
      DeleteSpec(vertices, x);
      LinkedCleared(gtype, vertices, tags, x);
      found := RemoveEdgesWithCounted(x);
      if found {
        EraseVertex(x);
      }
    }

    /** `m_g.erase(v)` and `m_no_vertexes -= 1`. */
    method EraseVertex(x: int)
      requires Valid() && x in vertices && Linked(gtype, Delete(vertices, x), tags)
      modifies this
      ensures Valid()
      ensures vertices == Delete(old(vertices), x) && noVertexes == old(noVertexes) - 1
      ensures forall y :: y in vertices <==> y in old(vertices) && y != x
      ensures tags == old(tags) && noEdges == old(noEdges)
    {
      IncreasingAscending(vertices);
      DeleteSpec(vertices, x);
      IncreasingAscending(Delete(vertices, x));
      vertices := Delete(vertices, x);
      noVertexes := noVertexes - 1;
    }

    /** The loop over the vertices in `dijkstra_from` once `m` is settled at
        distance `dm`: every unmarked vertex `m` has an edge to gets the
        smaller of its entry and `dm` plus the edge's tag, or a new entry
        when it had none; every other entry stays. */
    method Relax(m: int, dm: int, dist: map<int, int>) returns (d: map<int, int>)
      ensures RelaxedBy(vertices, tags, marks, m, dm, dist, d)
    {
      d := dist;
      var i: nat := 0;
      while i < |vertices|
        invariant i <= |vertices|
        invariant forall x :: x in d <==> x in dist || (Improves(vertices, tags, marks, m, x) && x in Members(vertices[..i]))
        invariant forall x :: x in d ==>
          d[x] == if Improves(vertices, tags, marks, m, x) && x in Members(vertices[..i])
                  then Candidate(dist, x, dm + tags[(m, x)]) else dist[x]
      {
        MembersStep(vertices, i);
        var x := vertices[i];
        if x !in marks && (m, x) in tags {
          var c := dm + tags[(m, x)];
          if x in d {
            d := d[x := if d[x] < c then d[x] else c];
          } else {
            d := d[x := c];
          }
        }
        i := i + 1;
      }
      assert vertices[..i] == vertices;
    }

    /** `dijkstra_from`, as written: a `runtime_error` when `a` is not a
        vertex.  The entries start as a copy of `a`'s edge set and only
        those are queued; settling one relaxes, or adds, the entries of its
        unmarked destinations, but an added entry is never queued.  Every
        entry is the weight of some walk from `a`, no direct edge is beaten
        by its entry, and no entry lies more than two arcs from `a`. */
    method DijkstraFrom(a: int) returns (res: Result<map<int, int>>)
      requires Valid()
      modifies this`marks
      ensures Valid()
      ensures a !in vertices <==> res.Err?
      ensures res.Err? ==> res.error == RuntimeError
      ensures res.Ok? ==> forall v :: (a, v) in tags ==> v in res.value && res.value[v] <= tags[(a, v)]
      ensures res.Ok? ==> forall v :: v in res.value ==> v in vertices && WalkOf(tags, a, v, res.value[v])
      ensures res.Ok? ==> forall v :: v in res.value ==> NearOrigin(tags, a, v)
    {
      if a !in vertices {
        return Err(RuntimeError);
      }
      var dist := map v | v in vertices && (a, v) in tags :: tags[(a, v)];
      marks := marks + {a};
      var heap := dist.Keys;
      var used := 1;
      ghost var V := Members(vertices);
      SeedsOk(tags, vertices, a, dist);
      while used < |vertices|
        invariant marks <= V
        invariant AsWrittenInv(tags, vertices, a, marks, heap, dist)
        decreases |vertices| - used
      {
        var got, rest := GetMinDijkstra(heap);
        if got.Err? {
          break;
        }
        var m := got.value;
        var dm := dist[m];
        ghost var m0 := marks;
        marks := marks + {m};
        used := used + 1;
        var d := Relax(m, dm, dist);
        AsWrittenStep(tags, vertices, a, m0, heap, dist, m, d);
        heap := rest;
        dist := d;
      }
      ResetMarks();
      assert marks == {};
      return Ok(dist);
    }

    /** `dijkstra_from` with the edge-set overload of `get_min_dijkstra` in
        place of the heap: every round settles the unmarked entry with the
        smallest tag, so entries added along the way are settled too.  Then
        the entries are exactly the vertices other than `a` reachable from
        `a`, each the weight of a walk, and no direct edge beats its entry. */
    method DijkstraFromQueued(a: int) returns (res: Result<map<int, int>>)
      requires Valid()
      modifies this`marks
      ensures Valid()
      ensures a !in vertices <==> res.Err?
      ensures res.Err? ==> res.error == RuntimeError
      ensures res.Ok? ==> forall v :: (a, v) in tags ==> v in res.value && res.value[v] <= tags[(a, v)]
      ensures res.Ok? ==> forall v :: v in res.value ==> v in vertices && WalkOf(tags, a, v, res.value[v])
      ensures res.Ok? ==> forall v :: v != a ==> (v in res.value <==> Reachable(tags, a, v))
    {
      if a !in vertices {
        return Err(RuntimeError);
      }
      var dist, used := SettleQueued(a);
      SettledReach(a, dist, used);
      ResetMarks();
      assert marks == {};
      return Ok(dist);
    }

    /** The settling loop of the queued `dijkstra_from`: it seeds the
        entries with `a`'s edge set and settles the unmarked entry with the
        smallest tag until every vertex or every entry is marked. */
    method SettleQueued(a: int) returns (dist: map<int, int>, used: int)
      requires Shaped() && a in vertices && marks == {}
      modifies this`marks
      ensures used == |marks| && marks <= Members(vertices)
      ensures QueuedInv(tags, vertices, a, marks, dist)
      ensures used >= |vertices| || forall v :: v in dist ==> v in marks
    {
      dist := map v | v in vertices && (a, v) in tags :: tags[(a, v)];
      marks := {a};
      used := 1;
      ghost var V := Members(vertices);
      SeedsOk(tags, vertices, a, dist);
      while used < |vertices|
        invariant used == |marks|
        invariant marks <= V
        invariant QueuedInv(tags, vertices, a, marks, dist)
        decreases |vertices| - used
      {
        var got := GetMinUnmarked(dist, marks);
        if got.Err? {
          return;
        }
        var m := got.value;
        var dm := dist[m];
        ghost var m0 := marks;
        assert m !in marks && m in V;
        CardInsert(marks, m);
        marks := marks + {m};
        used := used + 1;
        var d := Relax(m, dm, dist);
        QueuedStep(tags, vertices, a, m0, dist, m, d);
        dist := d;
      }
    }

    /** When the settling loop of the queued `dijkstra_from` stops, either
        every vertex or every entry is marked, so the marked vertices are
        closed under edges and the entries are exactly the vertices other
        than `a` reachable from `a`. */
    lemma {:induction false} SettledReach(a: int, dist: map<int, int>, used: int)
      requires Linked(gtype, vertices, tags) && Increasing(vertices)
      requires used == |marks| && marks <= Members(vertices)
      requires QueuedInv(tags, vertices, a, marks, dist)
      requires used >= |vertices| || forall v :: v in dist ==> v in marks
      ensures forall v :: v != a ==> (v in dist <==> Reachable(tags, a, v))
    {
      if used >= |vertices| {
        var V := Members(vertices);
        MembersCard(vertices);
        assert V == (V - marks) + marks && (V - marks) * marks == {};
        assert |V| == |V - marks| + |marks|;
        assert |V - marks| == 0;
        forall u, x | u in marks && (u, x) in tags ensures x in marks {
          assert x in vertices;
          assert x in V && x !in V - marks;
        }
      }
      ClosedHoldsReachable(tags, marks, a);
      forall v | v in dist ensures Reachable(tags, a, v) {
        WalkOfReachable(tags, a, v, dist[v]);
      }
    }

    /** `get_tag_edge` in DIRECTED mode: a `runtime_error` when an end is
        not a vertex, or when a loop x->x is missing; the tag otherwise. */
    method GetTagEdge(a: int, b: int) returns (res: Result<int>)
      requires Valid() && gtype == Directed
      requires a in vertices && b in vertices && a != b ==> (a, b) in tags
      ensures res.Err? <==> a !in vertices || b !in vertices || (a, b) !in tags
      ensures res.Err? ==> res.error == RuntimeError
      ensures res.Ok? ==> res.value == tags[(a, b)]
    {
      if a !in vertices || b !in vertices {
        return Err(RuntimeError);
      }
      if (a, b) !in tags {
        // only reached for a == b, where a's end is b's end
        return Err(RuntimeError);
      }
      return Ok(tags[(a, b)]);
    }

    /** `set_tag_edge`: false when an end is not a vertex or the edge is
        missing; otherwise u->v, and v->u when UNDIRECTED, get the new tag. */
    method SetTagEdge(a: int, b: int, w: int) returns (ok: bool)
      requires Valid()
      modifies this
      ensures Valid()
      ensures ok <==> a in vertices && b in vertices && (a, b) in old(tags)
      ensures vertices == old(vertices) && noVertexes == old(noVertexes) && noEdges == old(noEdges)
      ensures !ok ==> tags == old(tags)
      ensures ok ==> tags == WithEdge(gtype, old(tags), a, b, w)
    {
      if a !in vertices || b !in vertices {
        return false;
      }
      if gtype == Directed {
        if (a, b) !in tags {
          return false;
        }
        tags := tags[(a, b) := w];
      } else {
        if (a, b) !in tags && (b, a) !in tags {
          return false;
        }
        assert (b, a) in tags ==> (a, b) in tags;
        tags := tags[(a, b) := w][(b, a) := w];
      }
      LinkedAdd(gtype, vertices, old(tags), a, b, w);
      return true;
    }
    /** `reset_marks`: every vertex is unmarked. */
    method ResetMarks()
      modifies this`marks
      ensures marks == old(marks) - Members(vertices)
    {
      var i := 0;
      while i < |vertices|
        invariant 0 <= i <= |vertices|
        invariant marks == old(marks) - Members(vertices[..i])
      {
        assert vertices[..i + 1] == vertices[..i] + [vertices[i]];
        marks := marks - {vertices[i]};
        i := i + 1;
      }
      assert vertices[..i] == vertices;
    }

    /** The loop over `u`'s edges in a traversal: every destination met
        unmarked is pushed and marked. */
    method MarkTargets(u: int, pending: seq<int>) returns (q: seq<int>)
      modifies this`marks
      ensures q == pending + Fresh(Targets(vertices, tags, u), old(marks))
      ensures marks == old(marks) + Members(Targets(vertices, tags, u))
    {
      var ts := Targets(vertices, tags, u);
      q := pending;
      var m := marks;
      var j: nat := 0;
      while j < |ts|
        invariant j <= |ts|
        invariant m == old(marks) + Members(ts[..j])
        invariant q + Fresh(ts[j..], m) == pending + Fresh(ts, old(marks))
      {
        MembersStep(ts, j);
        FreshStep(ts, j, m);
        if ts[j] !in m {
          AppendAssoc(q, [ts[j]], Fresh(ts[j + 1..], m + {ts[j]}));
          q := q + [ts[j]];
          m := m + {ts[j]};
        }
        j := j + 1;
      }
      assert ts[..j] == ts;
      marks := m;
    }

    /** The inner loop of `fill_kruskall_heap`: the edges of `u` to
        unmarked destinations, in destination order, join the heap. */
    method CollectArcs(u: int, heap: seq<FullyEdge>) returns (h: seq<FullyEdge>)
      ensures h == heap + Spread(tags, u, Targets(vertices, tags, u), marks)
    {
      var ts := Targets(vertices, tags, u);
      h := heap;
      var j: nat := 0;
      while j < |ts|
        invariant j <= |ts|
        invariant h + Spread(tags, u, ts[j..], marks) == heap + Spread(tags, u, ts, marks)
      {
        SpreadStep(tags, u, ts, j, marks);
        if (u, ts[j]) in tags && ts[j] !in marks {
          var e := FullyEdge(u, ts[j], tags[(u, ts[j])]);
          AppendAssoc(h, [e], Spread(tags, u, ts[j + 1..], marks));
          h := h + [e];
        }
        j := j + 1;
      }
      assert ts[j..] == [];
    }

    /** `fill_kruskall_heap`, UNDIRECTED only: every vertex in order adds
        its edges to vertices not yet marked and is then marked.  The heap
        gets every stored edge exactly once, from its smaller end. */
    method FillKruskallHeap() returns (heap: seq<FullyEdge>)
      requires Valid() && gtype == Undirected
      modifies this`marks
      ensures Valid()
      ensures forall e :: e in heap <==> Kept(tags, e)
      ensures NoDup(heap)
    {
      heap := [];
      var i: nat := 0;
      while i < |vertices|
        invariant i <= |vertices|
        invariant marks == Members(vertices[..i])
        invariant forall e :: e in heap <==> Kept(tags, e) && e.beg in Members(vertices[..i])
        invariant NoDup(heap)
      {
        var v := vertices[i];
        ghost var h0 := heap;
        heap := CollectArcs(v, heap);
        KruskalStep(tags, vertices, i, marks, h0, heap);
        MembersStep(vertices, i);
        marks := marks + {v};
        i := i + 1;
      }
      assert vertices[..i] == vertices;
      ResetMarks();
      assert marks == {};
    }

    /** `visit_bfs`: from `m_g.begin()`, the smallest vertex, a queue of
        vertices marked when they are queued.  The visitor meets the
        vertices reachable from the start, each once, and no mark is left
        set.  A graph with no vertex queues `end()` and dereferences it. */
    method VisitBfs() returns (res: Result<seq<int>>)
      requires Valid()
      modifies this`marks
      ensures Valid()
      ensures vertices == old(vertices) && tags == old(tags) && noEdges == old(noEdges)
      ensures res.Err? <==> vertices == []
      ensures res.Err? ==> res.error == Undefined
      ensures res.Ok? ==> res.value != [] && res.value[0] == vertices[0] && NoDup(res.value)
      ensures res.Ok? ==> forall v :: v in res.value <==> Reachable(tags, vertices[0], v)
    {
      if vertices == [] {
        return Err(Undefined);
      }
      var visited := Bfs();
      res := Ok(visited);
    }

    /** The loop of `visit_bfs`. */
    method Bfs() returns (visited: seq<int>)
      requires Valid() && vertices != []
      modifies this`marks
      ensures Valid()
      ensures vertices == old(vertices) && tags == old(tags) && noEdges == old(noEdges)
      ensures visited != [] && visited[0] == vertices[0] && NoDup(visited)
      ensures forall v :: v in visited <==> Reachable(tags, vertices[0], v)
    {
      var start := vertices[0];
      var queue := [start];
      visited := [];
      ghost var V := Members(vertices);
      ReachSelf(tags, start);
      while queue != []
        invariant forall p :: p in tags ==> p.1 in vertices
        invariant TraversalInv(tags, V, start, visited, queue, marks)
        decreases V - marks, |queue|
      {
        var tmp := queue[0];
        ghost var q0 := queue;
        queue := queue[1..];
        assert q0 == [tmp] + queue;
        TraversalRound(tags, vertices, start, visited, q0, marks, tmp, queue);
        visited := visited + [tmp];
        marks := marks + {tmp};
        queue := MarkTargets(tmp, queue);
      }
      assert start in marks;
      ClosedHoldsReachable(tags, marks, start);
      ResetMarks();
    }

    /** `visit_dfs`: as `visit_bfs`, with a stack in place of the queue. */
    method VisitDfs() returns (res: Result<seq<int>>)
      requires Valid()
      modifies this`marks
      ensures Valid()
      ensures vertices == old(vertices) && tags == old(tags) && noEdges == old(noEdges)
      ensures res.Err? <==> vertices == []
      ensures res.Err? ==> res.error == Undefined
      ensures res.Ok? ==> res.value != [] && res.value[0] == vertices[0] && NoDup(res.value)
      ensures res.Ok? ==> forall v :: v in res.value <==> Reachable(tags, vertices[0], v)
    {
      if vertices == [] {
        return Err(Undefined);
      }
      var visited := Dfs();
      res := Ok(visited);
    }

    /** The loop of `visit_dfs`. */
    method Dfs() returns (visited: seq<int>)
      requires Valid() && vertices != []
      modifies this`marks
      ensures Valid()
      ensures vertices == old(vertices) && tags == old(tags) && noEdges == old(noEdges)
      ensures visited != [] && visited[0] == vertices[0] && NoDup(visited)
      ensures forall v :: v in visited <==> Reachable(tags, vertices[0], v)
    {
      var start := vertices[0];
      var stack := [start];
      visited := [];
      ghost var V := Members(vertices);
      ReachSelf(tags, start);
      while stack != []
        invariant forall p :: p in tags ==> p.1 in vertices
        invariant TraversalInv(tags, V, start, visited, stack, marks)
        decreases V - marks, |stack|
      {
        var tmp := stack[|stack| - 1];
        ghost var s0 := stack;
        stack := stack[..|stack| - 1];
        assert s0 == stack + [tmp];
        TraversalRound(tags, vertices, start, visited, s0, marks, tmp, stack);
        visited := visited + [tmp];
        marks := marks + {tmp};
        stack := MarkTargets(tmp, stack);
      }
      assert start in marks;
      ClosedHoldsReachable(tags, marks, start);
      ResetMarks();
    }
  }

  /** A directed graph with the one edge 1->2 and the vertex 2. */
  method OneArc() returns (g: Graph)
    ensures fresh(g) && g.Valid() && g.gtype == Directed
    ensures g.tags == map[(1, 2) := 5] && g.noEdges == 1 && 1 in g.vertices
  {
    g := new Graph(Directed);
    var _ := g.AddVertex(1);
    var _ := g.AddVertex(2);
    assert 1 in g.vertices && 2 in g.vertices && g.tags == map[];
    var r := g.AddEdge(1, 2, 5);
    assert r.Ok?;
  }

  /** As written, `remove_edges_with(1)` on the graph 1->2 erases the only
      edge but leaves the edge count at 1. */
  method RemoveEdgesWithMiscounts() returns (count: int, arcs: map<Arc, int>)
    ensures arcs == map[] && count == 1
  {
    var g := OneArc();
    assert InArcs(g.tags, 1) == {} by {
      forall p | p in g.tags ensures !(p.1 == 1 && p.0 != 1) {
        assert p == (1, 2);
      }
    }
    var _ := g.RemoveEdgesWith(1);
    count, arcs := g.noEdges, g.tags;
  }

  /** With the count kept, the same removal leaves the count at 0. */
  method RemoveEdgesWithCountedKeeps() returns (count: int, arcs: map<Arc, int>)
    ensures arcs == map[] && count == 0
  {
    var g := OneArc();
    var _ := g.RemoveEdgesWithCounted(1);
    count, arcs := g.noEdges, g.tags;
  }

  /** The directed chain 1->2->3->4 with every tag 1. */
  method Chain() returns (g: Graph)
    ensures fresh(g) && g.Valid() && g.gtype == Directed
    ensures g.tags == map[(1, 2) := 1, (2, 3) := 1, (3, 4) := 1] && 1 in g.vertices
  {
    g := new Graph(Directed);
    var _ := g.AddVertex(1);
    var _ := g.AddVertex(2);
    var _ := g.AddVertex(3);
    var _ := g.AddVertex(4);
    assert 1 in g.vertices && 2 in g.vertices && 3 in g.vertices && 4 in g.vertices;
    assert g.tags == map[];
    var r := g.AddEdge(1, 2, 1);
    assert r.Ok? && g.tags == map[(1, 2) := 1];
    r := g.AddEdge(2, 3, 1);
    assert r.Ok? && g.tags == map[(1, 2) := 1, (2, 3) := 1];
    r := g.AddEdge(3, 4, 1);
    assert r.Ok?;
  }

  /** As written, `dijkstra_from(1)` on the chain leaves vertex 4 without
      an entry although the walk 1, 2, 3, 4 reaches it. */
  method DijkstraMissesFar() returns (tags: map<Arc, int>, res: Result<map<int, int>>)
    ensures Reachable(tags, 1, 4)
    ensures res.Ok? && 4 !in res.value
  {
    var g := Chain();
    tags := g.tags;
    assert Walk(tags, [1, 2, 3, 4]);
    res := g.DijkstraFrom(1);
    assert res.Ok?;
    if 4 in res.value {
      assert NearOrigin(tags, 1, 4);
      assert forall m :: (1, m) in tags ==> m == 2;
      assert false;
    }
  }

  /** The queued version gives vertex 4 its entry. */
  method DijkstraQueuedReachesFar() returns (res: Result<map<int, int>>)
    ensures res.Ok? && 4 in res.value
  {
    var g := Chain();
    assert Walk(g.tags, [1, 2, 3, 4]);
    assert Reachable(g.tags, 1, 4);
    res := g.DijkstraFromQueued(1);
  }
}
