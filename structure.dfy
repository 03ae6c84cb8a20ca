/**
 * The label-free view of a graph: an adjacency list of integer indices, the
 * common interchange format of the graph store, the isomorphism engine and the
 * classifiers. This module defines the shape predicates the rest of the model
 * states its contracts in, and the lemmas about them that several components share.
 */
module Structure {

  /** Row `i` lists the indices adjacent to node `i`. */
  type AdjList = seq<seq<int>>

  /** What the classifiers read of a graph: its adjacency list and its two counters. */
  datatype GraphView = GraphView(adj: AdjList, nodeCount: int, edgeCount: int)

  /** The view of a valid undirected store: a simple graph with the counters it keeps. */
  ghost predicate WellFormed(g: GraphView) {
    g.nodeCount == |g.adj| && Undirected(g.adj) && g.edgeCount == |EdgeSet(g.adj)|
  }

  /** Every entry names an existing node. */
  predicate InRange(adj: AdjList) {
    forall i, k :: 0 <= i < |adj| && 0 <= k < |adj[i]| ==> 0 <= adj[i][k] < |adj|
  }

  predicate Distinct<T(==)>(s: seq<T>) {
    forall a, b :: 0 <= a < b < |s| ==> s[a] != s[b]
  }

  /** No row lists the same neighbour twice (no parallel edges). */
  predicate NoDuplicates(adj: AdjList) {
    forall i :: 0 <= i < |adj| ==> Distinct(adj[i])
  }

  /** No node is its own neighbour. */
  predicate Loopless(adj: AdjList) {
    forall i :: 0 <= i < |adj| ==> i !in adj[i]
  }

  /** `j` is listed in row `i` exactly when `i` is listed in row `j`. */
  predicate Symmetric(adj: AdjList) {
    forall i, j :: 0 <= i < |adj| && 0 <= j < |adj| && j in adj[i] ==> i in adj[j]
  }

  /** The shape of an undirected, simple graph's adjacency list. */
  predicate Undirected(adj: AdjList) {
    InRange(adj) && NoDuplicates(adj) && Loopless(adj) && Symmetric(adj)
  }

  /** The unordered edges `{i, j}`, each written once as `(i, j)` with `i < j`. */
  function EdgeSet(adj: AdjList): set<(int, int)> {
    set i, j | 0 <= i < j < |adj| && j in adj[i] :: (i, j)
  }

  /** The key under which the edge set files the unordered pair `{i, j}`. */
  function Pair(i: int, j: int): (int, int) {
    if i < j then (i, j) else (j, i)
  }

  /** The arcs `(i, j)` with `j` listed in row `i`: the directed edge set. */
  function ArcSet(adj: AdjList): set<(int, int)> {
    set i, j | 0 <= i < |adj| && j in adj[i] :: (i, j)
  }

  /** Both ends of every pair are among `0..n-1`. */
  predicate Within(es: seq<(int, int)>, n: int) {
    forall k :: 0 <= k < |es| ==> 0 <= es[k].0 < n && 0 <= es[k].1 < n
  }

  /** `p` lists each of `0..n-1` exactly once. */
  predicate IsPermutation(p: seq<int>, n: int) {
    |p| == n && (forall k :: 0 <= k < |p| ==> 0 <= p[k] < n) && Distinct(p)
  }

  /** The list with one more arc `i -> j` appended to row `i`. */
  function AddArc(adj: AdjList, i: int, j: int): (r: AdjList)
    requires 0 <= i < |adj|
    ensures |r| == |adj| && r[i] == adj[i] + [j]
    ensures forall k :: 0 <= k < |adj| && k != i ==> r[k] == adj[k]
  {
    adj[i := adj[i] + [j]]
  }

  /** The number of rows whose length is `d` (a `filter(...).length` over the rows). */
  function CountRows(adj: AdjList, d: int): (c: nat)
    ensures c <= |adj|
    ensures c == 0 <==> forall i :: 0 <= i < |adj| ==> |adj[i]| != d
    ensures c == |adj| <==> forall i :: 0 <= i < |adj| ==> |adj[i]| == d
  {
    if adj == [] then 0
    else CountRows(adj[..|adj| - 1], d) + (if |adj[|adj| - 1]| == d then 1 else 0)
  }

  // ---------------------------------------------------------------------------
  // Edges in the order the graph store emits them

  /** The arcs `(i, t)` of one row with `t > i`, in row order. */
  function RowUpper(i: int, row: seq<int>): (r: seq<(int, int)>)
    ensures |r| <= |row|
  {
    if row == [] then []
    else RowUpper(i, row[..|row| - 1]) + (if row[|row| - 1] > i then [(i, row[|row| - 1])] else [])
  }

  lemma {:induction false} RowUpperMembers(i: int, row: seq<int>)
    ensures forall e :: e in RowUpper(i, row) <==> e.0 == i && e.1 > i && e.1 in row
  {
    if row != [] {
      RowUpperMembers(i, row[..|row| - 1]);
      assert row == row[..|row| - 1] + [row[|row| - 1]];
    }
  }

  /** The upward arcs of rows `0..m-1`, row by row. */
  function UpperEdgesUpTo(adj: AdjList, m: int): (r: seq<(int, int)>)
    requires 0 <= m <= |adj|
    ensures m == 0 ==> r == []
  {
    if m == 0 then [] else UpperEdgesUpTo(adj, m - 1) + RowUpper(m - 1, adj[m - 1])
  }

  lemma {:induction false} UpperEdgesUpToMembers(adj: AdjList, m: int)
    requires 0 <= m <= |adj|
    ensures forall e :: e in UpperEdgesUpTo(adj, m) <==> 0 <= e.0 < m && e.0 < e.1 && e.1 in adj[e.0]
  {
    if m > 0 {
      UpperEdgesUpToMembers(adj, m - 1);
      RowUpperMembers(m - 1, adj[m - 1]);
    }
  }

  /** Each undirected edge once, as `(i, j)` with `i < j`, ordered by `i` and then by `j`'s place in row `i`. */
  function UpperEdges(adj: AdjList): (r: seq<(int, int)>)
    ensures InRange(adj) ==> Within(r, |adj|)
  {
    if InRange(adj) then UpperEdgesUpToWithin(adj, |adj|); UpperEdgesUpTo(adj, |adj|)
    else UpperEdgesUpTo(adj, |adj|)
  }

  lemma WithinConcat(a: seq<(int, int)>, b: seq<(int, int)>, n: int)
    requires Within(a, n) && Within(b, n)
    ensures Within(a + b, n)
  {
    forall k | 0 <= k < |a + b| ensures 0 <= (a + b)[k].0 < n && 0 <= (a + b)[k].1 < n {
      if k >= |a| {
        assert (a + b)[k] == b[k - |a|];
      }
    }
  }

  lemma {:induction false} RowUpperWithin(i: int, row: seq<int>, n: int)
    requires 0 <= i < n && forall j :: 0 <= j < |row| ==> 0 <= row[j] < n
    ensures Within(RowUpper(i, row), n)
  {
    if row != [] {
      RowUpperWithin(i, row[..|row| - 1], n);
      WithinConcat(RowUpper(i, row[..|row| - 1]), if row[|row| - 1] > i then [(i, row[|row| - 1])] else [], n);
    }
  }

  lemma {:induction false} UpperEdgesUpToWithin(adj: AdjList, m: int)
    requires InRange(adj) && 0 <= m <= |adj|
    ensures Within(UpperEdgesUpTo(adj, m), |adj|)
  {
    if m > 0 {
      UpperEdgesUpToWithin(adj, m - 1);
      RowUpperWithin(m - 1, adj[m - 1], |adj|);
      WithinConcat(UpperEdgesUpTo(adj, m - 1), RowUpper(m - 1, adj[m - 1]), |adj|);
    }
  }

  lemma UpperEdgesMembers(adj: AdjList)
    ensures forall e :: e in UpperEdges(adj) <==> 0 <= e.0 < e.1 && e.0 < |adj| && e.1 in adj[e.0]
  {
    UpperEdgesUpToMembers(adj, |adj|);
  }

  lemma {:induction false} RowUpperDistinct(i: int, row: seq<int>)
    requires Distinct(row)
    ensures Distinct(RowUpper(i, row))
  {
    if row != [] {
      var front := row[..|row| - 1];
      RowUpperDistinct(i, front);
      RowUpperMembers(i, front);
      assert row[|row| - 1] !in front;
    }
  }

  lemma {:induction false} UpperEdgesUpToDistinct(adj: AdjList, m: int)
    requires 0 <= m <= |adj| && NoDuplicates(adj)
    ensures Distinct(UpperEdgesUpTo(adj, m))
  {
    if m > 0 {
      UpperEdgesUpToDistinct(adj, m - 1);
      RowUpperDistinct(m - 1, adj[m - 1]);
      UpperEdgesUpToMembers(adj, m - 1);
      RowUpperMembers(m - 1, adj[m - 1]);
      var a, b := UpperEdgesUpTo(adj, m - 1), RowUpper(m - 1, adj[m - 1]);
      forall x, y | 0 <= x < y < |a + b| ensures (a + b)[x] != (a + b)[y] {
        if y >= |a| && x < |a| {
          assert (a + b)[x] in a && (a + b)[y] in b;
        }
      }
    }
  }

  /** The emitted list holds exactly the edge set, each edge once. */
  lemma UpperEdgesIsEdgeSet(adj: AdjList)
    requires InRange(adj) && NoDuplicates(adj)
    ensures Distinct(UpperEdges(adj))
    ensures forall e :: e in UpperEdges(adj) <==> e in EdgeSet(adj)
    ensures |UpperEdges(adj)| == |EdgeSet(adj)|
    ensures forall k :: 0 <= k < |UpperEdges(adj)| ==> 0 <= UpperEdges(adj)[k].0 < UpperEdges(adj)[k].1 < |adj|
  {
    UpperEdgesUpToDistinct(adj, |adj|);
    UpperEdgesMembers(adj);
    var s := UpperEdges(adj);
    forall e | e in s ensures e in EdgeSet(adj) {
      var k :| 0 <= k < |adj[e.0]| && adj[e.0][k] == e.1;
    }
    DistinctCard(s);
    assert (set x | x in s) == EdgeSet(adj);
  }

  /** The values of the emitted list are the edge set. */
  lemma UpperEdgesElems(adj: AdjList)
    requires InRange(adj) && NoDuplicates(adj)
    ensures Elems(UpperEdges(adj)) == EdgeSet(adj)
  {
    UpperEdgesIsEdgeSet(adj);
  }

  /** The arcs `(i, t)` of one row, in row order. */
  function RowArcs(i: int, row: seq<int>): (r: seq<(int, int)>)
    ensures |r| == |row|
    ensures forall k :: 0 <= k < |row| ==> r[k] == (i, row[k])
  {
    if row == [] then []
    else RowArcs(i, row[..|row| - 1]) + [(i, row[|row| - 1])]
  }

  lemma RowArcsMembers(i: int, row: seq<int>)
    ensures forall e :: e in RowArcs(i, row) <==> e.0 == i && e.1 in row
  {
    var r := RowArcs(i, row);
    forall e: (int, int) | e.0 == i && e.1 in row ensures e in r {
      var k :| 0 <= k < |row| && row[k] == e.1;
      assert r[k] == e;
    }
  }

  /** Every arc of rows `0..m-1`, row by row and in row order. */
  function ArcsUpTo(adj: AdjList, m: int): (r: seq<(int, int)>)
    requires 0 <= m <= |adj|
    ensures m == 0 ==> r == []
  {
    if m == 0 then [] else ArcsUpTo(adj, m - 1) + RowArcs(m - 1, adj[m - 1])
  }

  lemma {:induction false} ArcsUpToMembers(adj: AdjList, m: int)
    requires 0 <= m <= |adj|
    ensures forall e :: e in ArcsUpTo(adj, m) <==> 0 <= e.0 < m && e.1 in adj[e.0]
  {
    if m > 0 {
      ArcsUpToMembers(adj, m - 1);
      RowArcsMembers(m - 1, adj[m - 1]);
    }
  }

  lemma {:induction false} ArcsUpToWithin(adj: AdjList, m: int)
    requires InRange(adj) && 0 <= m <= |adj|
    ensures Within(ArcsUpTo(adj, m), |adj|)
  {
    if m > 0 {
      ArcsUpToWithin(adj, m - 1);
      WithinConcat(ArcsUpTo(adj, m - 1), RowArcs(m - 1, adj[m - 1]), |adj|);
    }
  }

  function Arcs(adj: AdjList): (r: seq<(int, int)>)
    ensures InRange(adj) ==> Within(r, |adj|)
  {
    if InRange(adj) then ArcsUpToWithin(adj, |adj|); ArcsUpTo(adj, |adj|)
    else ArcsUpTo(adj, |adj|)
  }

  lemma ArcsMembers(adj: AdjList)
    ensures forall e :: e in Arcs(adj) <==> 0 <= e.0 < |adj| && e.1 in adj[e.0]
  {
    ArcsUpToMembers(adj, |adj|);
  }

  lemma {:induction false} ArcsUpToDistinct(adj: AdjList, m: int)
    requires 0 <= m <= |adj| && NoDuplicates(adj)
    ensures Distinct(ArcsUpTo(adj, m))
  {
    if m > 0 {
      ArcsUpToDistinct(adj, m - 1);
      ArcsUpToMembers(adj, m - 1);
      var a := ArcsUpTo(adj, m - 1);
      var b := RowArcs(m - 1, adj[m - 1]);
      forall x, y | 0 <= x < y < |a + b| ensures (a + b)[x] != (a + b)[y] {
        if y >= |a| && x < |a| {
          assert (a + b)[x] in a;
        }
      }
    }
  }

  /** The emitted arc list holds exactly the arc set, each arc once. */
  lemma ArcsIsArcSet(adj: AdjList)
    requires NoDuplicates(adj)
    ensures Distinct(Arcs(adj))
    ensures forall e :: e in Arcs(adj) <==> e in ArcSet(adj)
    ensures |Arcs(adj)| == |ArcSet(adj)|
  {
    ArcsUpToDistinct(adj, |adj|);
    ArcsMembers(adj);
    var s := Arcs(adj);
    DistinctCard(s);
    forall e | e in s ensures e in ArcSet(adj) {
      var i, j := e.0, e.1;
      assert 0 <= i < |adj| && j in adj[i];
      assert (i, j) in ArcSet(adj);
    }
    assert (set x | x in s) == ArcSet(adj);
  }

  // ---------------------------------------------------------------------------
  // Cardinality facts

  /** The values of a list. */
  function Elems<T>(s: seq<T>): set<T> {
    set x | x in s
  }

  /** Extending a prefix by one entry adds that entry to its values. */
  lemma ElemsPrefixStep<T>(s: seq<T>, k: int)
    requires 0 <= k < |s|
    ensures Elems(s[..k + 1]) == Elems(s[..k]) + {s[k]}
    ensures Elems(s[..|s|]) == Elems(s)
  {
    assert s[..k + 1] == s[..k] + [s[k]];
    assert s[..|s|] == s;
  }

  /** In a duplicate-free list, an entry is not among the entries before it. */
  lemma DistinctNotInPrefix<T>(s: seq<T>, k: int)
    requires Distinct(s) && 0 <= k < |s|
    ensures s[k] !in Elems(s[..k])
  {
  }

  lemma {:induction false} DistinctCard<T>(s: seq<T>)
    requires Distinct(s)
    ensures |set x | x in s| == |s|
  {
    if s != [] {
      DistinctCard(s[1..]);
      assert (set x | x in s) == {s[0]} + (set x | x in s[1..]);
    }
  }

  lemma SubsetCard<T>(a: set<T>, b: set<T>)
    requires a <= b
    ensures |b - a| == |b| - |a|
  {
    assert b == a + (b - a);
    assert a * (b - a) == {};
  }

  /**
   * A duplicate-free list of `m` values all found in a list of length `m`
   * contains every value of that list.
   */
  lemma Pigeonhole<T>(m: seq<T>, r: seq<T>)
    requires Distinct(m) && |m| == |r|
    requires forall x :: x in m ==> x in r
    ensures forall y :: y in r ==> y in m
  {
    var sm, sr := set x | x in m, set y | y in r;
    DistinctCard(m);
    SeqSetCard(r);
    SubsetCard(sm, sr);
    assert sr - sm == {};
    forall y | y in r ensures y in m {
      assert y in sr;
    }
  }

  /** Conversely to Pigeonhole: the values of a list number at most its length. */
  lemma {:induction false} SeqSetCard<T>(s: seq<T>)
    ensures |set x | x in s| <= |s|
  {
    if s != [] {
      SeqSetCard(s[1..]);
      assert (set x | x in s) == {s[0]} + (set x | x in s[1..]);
    }
  }

  /** The nodes `0..n-1` in order. */
  function Range(n: nat): (r: seq<int>)
    ensures |r| == n && forall k :: 0 <= k < n ==> r[k] == k
  {
    seq(n, k => k)
  }

  /**
   * A duplicate-free list of nodes of an `n`-node graph has at most `n`
   * entries; with exactly `n` it lists every node, with fewer it misses one.
   */
  lemma DistinctNodes(s: seq<int>, n: nat)
    requires Distinct(s) && forall k :: 0 <= k < |s| ==> 0 <= s[k] < n
    ensures |s| <= n
    ensures |s| == n ==> forall v :: 0 <= v < n ==> v in s
    ensures |s| < n ==> exists v :: 0 <= v < n && v !in s
  {
    var e, r := Elems(s), Elems(Range(n));
    DistinctCard(s);
    DistinctCard(Range(n));
    forall x | x in e ensures x in r {
      var k :| 0 <= k < |s| && s[k] == x;
      assert Range(n)[x] == x;
    }
    SubsetCard(e, r);
    if |s| == n {
      assert r - e == {};
      forall v | 0 <= v < n ensures v in s {
        assert Range(n)[v] == v;
        assert v in r;
      }
    }
    if |s| < n {
      var v :| v in r - e;
    }
  }

  // ---------------------------------------------------------------------------
  // Edges added by the store

  /**
   * Appending `j` to row `i` and `i` to row `j` adds exactly the edge `{i, j}`
   * to the edge set.
   */
  lemma EdgeSetAddEdge(adj: AdjList, i: int, j: int)
    requires 0 <= i < |adj| && 0 <= j < |adj| && i != j
    ensures EdgeSet(AddArc(AddArc(adj, i, j), j, i))
         == EdgeSet(adj) + {if i < j then (i, j) else (j, i)}
  {
    var r := AddArc(AddArc(adj, i, j), j, i);
    var e := if i < j then (i, j) else (j, i);
    forall x | x in EdgeSet(r) ensures x in EdgeSet(adj) + {e} {
      if x != e {
        assert x.1 in adj[x.0];
      }
    }
    assert e.1 in r[e.0];
  }

  /** Appending an empty row leaves the edge set alone. */
  lemma EdgeSetAddNode(adj: AdjList)
    requires InRange(adj)
    ensures EdgeSet(adj + [[]]) == EdgeSet(adj)
  {
    var r := adj + [[]];
    forall x | x in EdgeSet(r) ensures x in EdgeSet(adj) {
      assert x.0 < |adj| && x.1 in adj[x.0];
      var k :| 0 <= k < |adj[x.0]| && adj[x.0][k] == x.1;
      assert x.1 < |adj|;
    }
  }

  /** Adjacency in a symmetric list is membership of the ordered pair in the edge set. */
  lemma EdgeSetAdjacent(adj: AdjList, i: int, j: int)
    requires Symmetric(adj) && 0 <= i < |adj| && 0 <= j < |adj| && i != j
    ensures (j in adj[i]) <==> (if i < j then (i, j) else (j, i)) in EdgeSet(adj)
  {
  }

  // ---------------------------------------------------------------------------
  // Walks

  /** `p` is a non-empty walk, each step following an arc. */
  ghost predicate IsPath(adj: AdjList, p: seq<int>) {
    && |p| > 0
    && (forall k :: 0 <= k < |p| ==> 0 <= p[k] < |adj|)
    && (forall k :: 0 <= k < |p| - 1 ==> p[k + 1] in adj[p[k]])
  }

  /** Some walk leads from `s` to `v`. */
  ghost predicate Reachable(adj: AdjList, s: int, v: int) {
    exists p :: IsPath(adj, p) && p[0] == s && p[|p| - 1] == v
  }

  lemma ReachableSelf(adj: AdjList, s: int)
    requires 0 <= s < |adj|
    ensures Reachable(adj, s, s)
  {
    assert IsPath(adj, [s]);
  }

  /** One arc `s -> t` followed by a walk from `t` is a walk from `s`. */
  lemma ReachableStep(adj: AdjList, s: int, t: int, v: int)
    requires 0 <= s < |adj| && t in adj[s] && Reachable(adj, t, v)
    ensures Reachable(adj, s, v)
  {
    var p :| IsPath(adj, p) && p[0] == t && p[|p| - 1] == v;
    var q := [s] + p;
    assert q[1..] == p;
    assert IsPath(adj, q);
  }

  /**
   * A set that holds `s` and every neighbour of each of its members holds
   * everything reachable from `s`.
   */
  lemma ClosedSetHoldsReachable(adj: AdjList, s: int, c: set<int>, v: int)
    requires s in c
    requires forall u, t :: u in c && 0 <= u < |adj| && t in adj[u] ==> t in c
    requires Reachable(adj, s, v)
    ensures v in c
  {
    var p :| IsPath(adj, p) && p[0] == s && p[|p| - 1] == v;
    var k := 0;
    while k < |p| - 1
      invariant 0 <= k < |p| && p[k] in c
    {
      assert p[k + 1] in adj[p[k]];
      k := k + 1;
    }
  }
}
