/**
 * The structural classifiers of the graph engine. Each reads a graph through
 * its view (adjacency list, node count, edge count). The counting
 * classifiers compare counters and row lengths; the template classifiers ask
 * the isomorphism search; the cycle classifier walks the graph.
 *
 * On a well-formed view every classifier is tied to the graph property it
 * names: complete, a single cycle through all nodes, a paw, a star.
 */
module Classifiers {
  import opened Structure
  import opened Counting
  import opened CycleWalk
  import Isomorphism

  // ---------------------------------------------------------------------------
  // Complete graphs

  /** `isComplete`: the edge count is `n(n-1)/2`. The product is even, so the division is exact. */
  predicate IsComplete(g: GraphView)
    ensures IsComplete(g) <==> 2 * g.edgeCount == g.nodeCount * (g.nodeCount - 1)
  {
    HalfProductInt(g.nodeCount, g.edgeCount);
    g.edgeCount == g.nodeCount * (g.nodeCount - 1) / 2
  }

  /** Every two distinct nodes are adjacent. */
  ghost predicate AllAdjacent(adj: AdjList) {
    forall i, j :: 0 <= i < |adj| && 0 <= j < |adj| && i != j ==> j in adj[i]
  }

  /** `n(n-1)` is even, so halving it is exact. */
  lemma {:induction false} HalfProduct(n: nat, m: int)
    ensures n * (n - 1) / 2 == m <==> n * (n - 1) == 2 * m
  {
    if n > 0 {
      HalfProduct(n - 1, m - (n - 1));
      assert n * (n - 1) == (n - 1) * (n - 2) + 2 * (n - 1);
    }
  }

  /** The same for a negative `n`, whose product is that of `1 - n`. */
  lemma HalfProductInt(n: int, m: int)
    ensures n * (n - 1) / 2 == m <==> n * (n - 1) == 2 * m
  {
    if n < 0 {
      var k := 1 - n;
      assert k * (k - 1) == (-n) * (1 - n) == n * (n - 1);
      HalfProduct(k, m);
    } else {
      HalfProduct(n, m);
    }
  }

  /** Every row holds all other nodes exactly when every row has `n - 1` entries. */
  lemma FullRows(adj: AdjList)
    requires Undirected(adj)
    ensures AllAdjacent(adj) <==> forall i :: 0 <= i < |adj| ==> |adj[i]| == |adj| - 1
  {
    forall i | 0 <= i < |adj| ensures |adj[i]| <= |adj| - 1 {
      RowBound(adj, i);
    }
    if forall i :: 0 <= i < |adj| ==> |adj[i]| == |adj| - 1 {
      forall i, j | 0 <= i < |adj| && 0 <= j < |adj| && i != j ensures j in adj[i] {
        RowBound(adj, i);
      }
    }
    if AllAdjacent(adj) {
      forall i | 0 <= i < |adj| ensures |adj[i]| == |adj| - 1 {
        RowBound(adj, i);
      }
    }
  }

  /**
   * On a well-formed view, the edge-count test holds exactly when every two
   * nodes are adjacent: by the handshake lemma it says that the degrees add
   * up to `n(n-1)`, and no degree exceeds `n - 1`.
   */
  lemma CompleteIffAllAdjacent(g: GraphView)
    requires WellFormed(g)
    ensures IsComplete(g) <==> AllAdjacent(g.adj)
  {
    var n := |g.adj|;
    Handshake(g.adj);
    HalfProduct(n, g.edgeCount);
    assert IsComplete(g) <==> DegreeSum(g.adj) == n * (n - 1);
    forall i | 0 <= i < n ensures |g.adj[i]| <= n - 1 {
      RowBound(g.adj, i);
    }
    DegreeSumAtMost(g.adj, n - 1);
    assert (n - 1) * n == n * (n - 1);
    FullRows(g.adj);
  }

  /** `completeGraphChecker(n)`: the graph is complete and has `n` nodes. */
  predicate CompleteGraphChecker(n: int, g: GraphView)
    ensures CompleteGraphChecker(n, g) <==> g.nodeCount == n && 2 * g.edgeCount == n * (n - 1)
  {
    g.nodeCount == n && IsComplete(g)
  }

  /** On a well-formed view, the checker recognises exactly the complete graph on `n` nodes. */
  lemma CompleteGraphCheckerIsKn(n: int, g: GraphView)
    requires WellFormed(g)
    ensures CompleteGraphChecker(n, g) <==> |g.adj| == n && AllAdjacent(g.adj)
  {
    CompleteIffAllAdjacent(g);
  }

  // ---------------------------------------------------------------------------
  // Cycle graphs

  /** `isOnlyCycles`: at least three nodes, as many edges as nodes, and every row of length 2. */
  predicate IsOnlyCycles(g: GraphView)
    ensures IsOnlyCycles(g) && g.nodeCount == |g.adj| ==> TwoRegular(g.adj) && DegreeSum(g.adj) == 2 * g.edgeCount
  {
    (if TwoRegular(g.adj) then DegreeSumRegular(g.adj, 2); true else true) &&
    g.nodeCount >= 3 && g.nodeCount == g.edgeCount && g.nodeCount == CountRows(g.adj, 2)
  }

  /**
   * On a well-formed view the edge-count test is implied by the degrees: a
   * 2-regular simple graph has as many edges as nodes. So `isOnlyCycles`
   * means "at least three nodes, each of degree 2", a disjoint union of cycles.
   */
  lemma OnlyCyclesIsTwoRegular(g: GraphView)
    requires WellFormed(g)
    ensures IsOnlyCycles(g) <==> |g.adj| >= 3 && TwoRegular(g.adj)
  {
    if TwoRegular(g.adj) {
      DegreeSumRegular(g.adj, 2);
      Handshake(g.adj);
    }
  }

  /**
   * `isOneCycle`: the walk from the first node with a neighbour, or false
   * when no node has one. It is only reached on graphs whose rows all have
   * length 2, or all length 0.
   */
  method IsOneCycle(g: GraphView) returns (r: bool)
    requires Undirected(g.adj)
    requires TwoRegular(g.adj) || forall i :: 0 <= i < |g.adj| ==> g.adj[i] == []
    ensures r <==> TwoRegular(g.adj) && Connected(g.adj)
  {
    var start := FirstNonEmpty(g.adj);
    if start == -1 {
      return false;
    }
    r := Walk(g.adj, start);
  }

  /** `isCycleGraph`: a single cycle through every node, on at least three nodes. */
  method IsCycleGraph(g: GraphView) returns (r: bool)
    requires WellFormed(g)
    ensures r <==> |g.adj| >= 3 && TwoRegular(g.adj) && Connected(g.adj)
  {
    OnlyCyclesIsTwoRegular(g);
    if !IsOnlyCycles(g) {
      return false;
    }
    r := IsOneCycle(g);
  }

  /** `cycleGraphChecker(n)`: the cycle graph on `n` nodes. */
  method CycleGraphChecker(n: int, g: GraphView) returns (r: bool)
    requires WellFormed(g)
    ensures r <==> n == |g.adj| && n >= 3 && TwoRegular(g.adj) && Connected(g.adj)
  {
    if g.nodeCount != n {
      return false;
    }
    r := IsCycleGraph(g);
  }

  /** Only `n = 3` among `n >= 3` has `n(n-1)/2 = n`. */
  lemma TriangleArith(n: int)
    requires n >= 3 && n * (n - 1) / 2 == n
    ensures n == 3
  {
  }

  /** A graph that is both complete and a cycle is the triangle. */
  lemma CompleteCycleIsTriangle(g: GraphView)
    requires WellFormed(g) && IsComplete(g) && |g.adj| >= 3 && TwoRegular(g.adj)
    ensures |g.adj| == 3
  {
    OnlyCyclesIsTwoRegular(g);
    TriangleArith(|g.adj|);
  }

  // ---------------------------------------------------------------------------
  // Paw

  /** `isPaw`: four nodes, four edges and exactly one node of degree 3. */
  predicate IsPaw(g: GraphView)
    ensures IsPaw(g) && |g.adj| == 4 ==>
      Ind(|g.adj[0]| == 3) + Ind(|g.adj[1]| == 3) + Ind(|g.adj[2]| == 3) + Ind(|g.adj[3]| == 3) == 1
  {
    CountRowsFour(g.adj, 3);
    g.nodeCount == 4 && g.edgeCount == 4 && CountRows(g.adj, 3) == 1
  }

  /** How many of the four rows have length `d`. */
  lemma CountRowsFour(adj: AdjList, d: int)
    ensures |adj| == 4 ==> CountRows(adj, d) == (if |adj[0]| == d then 1 else 0) + (if |adj[1]| == d then 1 else 0)
                               + (if |adj[2]| == d then 1 else 0) + (if |adj[3]| == d then 1 else 0)
  {
    if |adj| == 4 {
      assert adj[..3][..2] == adj[..2];
      assert adj[..2][..1] == adj[..1];
      assert adj[..1][..0] == [];
    }
  }

  /** The degree sum of four rows. */
  lemma DegreeSumFour(adj: AdjList)
    requires |adj| == 4
    ensures DegreeSum(adj) == |adj[0]| + |adj[1]| + |adj[2]| + |adj[3]|
  {
    assert adj[..3][..2] == adj[..2];
    assert adj[..2][..1] == adj[..1];
    assert adj[..1][..0] == [];
    assert DegreeSum(adj[..1]) == |adj[0]|;
    assert DegreeSum(adj[..2]) == DegreeSum(adj[..1]) + |adj[1]|;
    assert DegreeSum(adj[..3]) == DegreeSum(adj[..2]) + |adj[2]|;
  }

  /** 1 when `b` holds, 0 otherwise. */
  function Ind(b: bool): int {
    if b then 1 else 0
  }

  /** Four degrees between 1 and 3 adding up to 8, exactly one of them 3: the others are 2, 2 and 1. */
  lemma PawArith(a: int, b: int, c: int, d: int)
    requires 1 <= a <= 3 && 1 <= b <= 3 && 1 <= c <= 3 && 1 <= d <= 3 && a + b + c + d == 8
    requires Ind(a == 3) + Ind(b == 3) + Ind(c == 3) + Ind(d == 3) == 1
    ensures Ind(a == 2) + Ind(b == 2) + Ind(c == 2) + Ind(d == 2) == 2
    ensures Ind(a == 1) + Ind(b == 1) + Ind(c == 1) + Ind(d == 1) == 1
  {
  }

  /** Degrees 3, 2, 2 and 1, in any order, add up to 8. */
  lemma PawSum(a: int, b: int, c: int, d: int)
    requires Ind(a == 3) + Ind(b == 3) + Ind(c == 3) + Ind(d == 3) == 1
    requires Ind(a == 2) + Ind(b == 2) + Ind(c == 2) + Ind(d == 2) == 2
    requires Ind(a == 1) + Ind(b == 1) + Ind(c == 1) + Ind(d == 1) == 1
    ensures a + b + c + d == 8
  {
  }

  /** In a simple graph on four nodes with a node of degree 3, every node has a neighbour. */
  lemma HubTouchesAll(adj: AdjList, h: int)
    requires Undirected(adj) && |adj| == 4 && 0 <= h < 4 && |adj[h]| == 3
    ensures forall v :: 0 <= v < 4 ==> |adj[v]| >= 1
  {
    RowBound(adj, h);
    forall v | 0 <= v < 4 && v != h ensures |adj[v]| >= 1 {
      assert h in adj[v];
    }
  }

  /**
   * On a well-formed view, `isPaw` holds exactly for the degrees 3, 2, 2, 1:
   * those of a triangle with a pendant edge, the paw.
   */
  lemma PawDegrees(g: GraphView)
    requires WellFormed(g)
    ensures IsPaw(g) <==>
      |g.adj| == 4 && CountRows(g.adj, 3) == 1 && CountRows(g.adj, 2) == 2 && CountRows(g.adj, 1) == 1
  {
    var adj := g.adj;
    if |adj| == 4 {
      CountRowsFour(adj, 3);
      CountRowsFour(adj, 2);
      CountRowsFour(adj, 1);
      DegreeSumFour(adj);
      Handshake(adj);
      var a, b, c, d := |adj[0]|, |adj[1]|, |adj[2]|, |adj[3]|;
      if IsPaw(g) {
        var h :| 0 <= h < 4 && |adj[h]| == 3;
        HubTouchesAll(adj, h);
        RowBound(adj, 0);
        RowBound(adj, 1);
        RowBound(adj, 2);
        RowBound(adj, 3);
        PawArith(a, b, c, d);
      }
      if CountRows(adj, 3) == 1 && CountRows(adj, 2) == 2 && CountRows(adj, 1) == 1 {
        PawSum(a, b, c, d);
      }
    }
  }

  /** The paw's edges: the triangle `h`, `x`, `y` and the pendant edge from `h` to `z`. */
  function PawEdges(h: int, x: int, y: int, z: int): set<(int, int)> {
    {Pair(h, x), Pair(h, y), Pair(x, y), Pair(h, z)}
  }

  /** `h`, `x`, `y` and `z` are the nodes 0 to 3, each once. */
  predicate FourNodes(h: int, x: int, y: int, z: int) {
    && 0 <= h < 4 && 0 <= x < 4 && 0 <= y < 4 && 0 <= z < 4
    && h != x && h != y && h != z && x != y && x != z && y != z
  }

  /** A graph on four nodes that is the paw with hub `h`, triangle `h`, `x`, `y` and pendant node `z`. */
  predicate PawOn(adj: AdjList, h: int, x: int, y: int, z: int) {
    |adj| == 4 && FourNodes(h, x, y, z) && EdgeSet(adj) == PawEdges(h, x, y, z)
  }

  /** Which pairs of distinct nodes the paw joins: those at the hub, and `x` with `y`. */
  lemma PawPairs(h: int, x: int, y: int, z: int, u: int, v: int)
    requires FourNodes(h, x, y, z) && 0 <= u < 4 && 0 <= v < 4 && u != v
    ensures Pair(u, v) in PawEdges(h, x, y, z) <==> u == h || v == h || (u == x && v == y) || (u == y && v == x)
  {
  }

  /** An adjacency list whose rows agree with a set of pairs, pair by pair, has that set as its edges. */
  lemma EdgeSetByPairs(adj: AdjList, es: set<(int, int)>)
    requires Undirected(adj)
    requires forall e :: e in es ==> 0 <= e.0 < e.1 < |adj|
    requires forall u, v :: 0 <= u < |adj| && 0 <= v < |adj| && u != v ==> (v in adj[u] <==> Pair(u, v) in es)
    ensures EdgeSet(adj) == es
  {
    forall e | e in es ensures e in EdgeSet(adj) {
      assert Pair(e.0, e.1) == e;
    }
    forall e | e in EdgeSet(adj) ensures e in es {
      assert Pair(e.0, e.1) == e;
    }
  }

  /**
   * A node `u` of degree 2 in a simple graph on four nodes, joined to `a`
   * and not to `c`, is joined to the remaining node `b`.
   */
  lemma OtherNeighbour(adj: AdjList, u: int, a: int, b: int, c: int)
    requires Undirected(adj) && |adj| == 4 && FourNodes(u, a, b, c)
    requires |adj[u]| == 2 && a in adj[u] && c !in adj[u]
    ensures b in adj[u]
  {
    var p, q := adj[u][0], adj[u][1];
    assert p != q && 0 <= p < 4 && 0 <= q < 4;
    assert p != u && q != u;
  }

  /** The twelve adjacency facts of the paw, row by row. */
  predicate PawRows(adj: AdjList, h: int, x: int, y: int, z: int)
    requires |adj| == 4 && FourNodes(h, x, y, z)
  {
    && x in adj[h] && y in adj[h] && z in adj[h]
    && h in adj[x] && y in adj[x] && z !in adj[x]
    && h in adj[y] && x in adj[y] && z !in adj[y]
    && h in adj[z] && x !in adj[z] && y !in adj[z]
  }

  /** Rows that hold the paw's adjacency facts agree with its edges pair by pair. */
  lemma PawRowsPairs(adj: AdjList, h: int, x: int, y: int, z: int, u: int, v: int)
    requires |adj| == 4 && FourNodes(h, x, y, z) && PawRows(adj, h, x, y, z)
    requires 0 <= u < 4 && 0 <= v < 4 && u != v
    ensures v in adj[u] <==> Pair(u, v) in PawEdges(h, x, y, z)
  {
    PawPairs(h, x, y, z, u, v);
  }

  /** Rows that hold the paw's adjacency facts have the paw's edges. */
  lemma PawRowsEdges(adj: AdjList, h: int, x: int, y: int, z: int)
    requires Undirected(adj) && |adj| == 4 && FourNodes(h, x, y, z) && PawRows(adj, h, x, y, z)
    ensures EdgeSet(adj) == PawEdges(h, x, y, z)
  {
    forall u, v | 0 <= u < 4 && 0 <= v < 4 && u != v
      ensures v in adj[u] <==> Pair(u, v) in PawEdges(h, x, y, z)
    {
      PawRowsPairs(adj, h, x, y, z, u, v);
    }
    EdgeSetByPairs(adj, PawEdges(h, x, y, z));
  }

  /** Degrees 3, 2, 2 and 1 on four nodes leave only the paw: the hub meets all, the leaf only the hub. */
  lemma PawFromDegrees(adj: AdjList, h: int, x: int, y: int, z: int)
    requires Undirected(adj) && |adj| == 4 && FourNodes(h, x, y, z)
    requires |adj[h]| == 3 && |adj[x]| == 2 && |adj[y]| == 2 && |adj[z]| == 1
    ensures EdgeSet(adj) == PawEdges(h, x, y, z)
  {
    RowBound(adj, h);
    assert x in adj[h] && y in adj[h] && z in adj[h];
    assert h in adj[z];
    assert adj[z] == [h];
    OtherNeighbour(adj, x, h, y, z);
    OtherNeighbour(adj, y, h, x, z);
    PawRowsEdges(adj, h, x, y, z);
  }

  /** An edge of the paw's edge set, or a pair missing from it, read off row `u`. */
  lemma PawEdgeRow(adj: AdjList, h: int, x: int, y: int, z: int, u: int, v: int)
    requires Symmetric(adj) && PawOn(adj, h, x, y, z)
    requires 0 <= u < 4 && 0 <= v < 4 && u != v
    ensures v in adj[u] <==> u == h || v == h || (u == x && v == y) || (u == y && v == x)
  {
    EdgeSetAdjacent(adj, u, v);
    assert (if u < v then (u, v) else (v, u)) == Pair(u, v);
    PawPairs(h, x, y, z, u, v);
  }

  /** A row holding `x`, `y` and `z` holds every node other than `h`. */
  lemma HubRow(row: seq<int>, h: int, x: int, y: int, z: int)
    requires FourNodes(h, x, y, z) && x in row && y in row && z in row
    ensures forall v :: 0 <= v < 4 && v != h ==> v in row
  {
  }

  /** In the paw with hub `h`, only the hub has degree 3, and there are four edges. */
  lemma PawHub(adj: AdjList, h: int, x: int, y: int, z: int)
    requires Undirected(adj) && PawOn(adj, h, x, y, z)
    ensures |adj[h]| == 3 && |adj[x]| != 3 && |adj[y]| != 3 && |adj[z]| != 3
    ensures |EdgeSet(adj)| == 4
  {
    PawEdgeRow(adj, h, x, y, z, h, x);
    PawEdgeRow(adj, h, x, y, z, h, y);
    PawEdgeRow(adj, h, x, y, z, h, z);
    PawEdgeRow(adj, h, x, y, z, x, z);
    PawEdgeRow(adj, h, x, y, z, y, z);
    PawEdgeRow(adj, h, x, y, z, z, x);
    HubRow(adj[h], h, x, y, z);
    RowBound(adj, h);
    RowBound(adj, x);
    RowBound(adj, y);
    RowBound(adj, z);
    PawEdgeCount(h, x, y, z);
  }

  /** The paw has four edges. */
  lemma PawEdgeCount(h: int, x: int, y: int, z: int)
    requires FourNodes(h, x, y, z)
    ensures |PawEdges(h, x, y, z)| == 4
  {
    var e1, e2, e3, e4 := Pair(h, x), Pair(h, y), Pair(x, y), Pair(h, z);
    assert e1 != e2 && e1 != e3 && e1 != e4 && e2 != e3 && e2 != e4 && e3 != e4;
  }

  /** Exactly one of four rows has length 3 when only the row of `h` does. */
  lemma OneRowOfThree(adj: AdjList, h: int, x: int, y: int, z: int)
    requires |adj| == 4 && FourNodes(h, x, y, z)
    requires |adj[h]| == 3 && |adj[x]| != 3 && |adj[y]| != 3 && |adj[z]| != 3
    ensures CountRows(adj, 3) == 1
  {
    CountRowsFour(adj, 3);
    forall i | 0 <= i < 4 ensures (|adj[i]| == 3) == (i == h) {
    }
  }

  /** A well-formed paw on four nodes passes `isPaw`. */
  lemma PawIsPaw(g: GraphView, h: int, x: int, y: int, z: int)
    requires WellFormed(g) && PawOn(g.adj, h, x, y, z)
    ensures IsPaw(g)
  {
    PawHub(g.adj, h, x, y, z);
    OneRowOfThree(g.adj, h, x, y, z);
  }

  /** A graph that passes `isPaw` is a paw on four nodes. */
  lemma IsPawPaw(g: GraphView) returns (h: int, x: int, y: int, z: int)
    requires WellFormed(g) && IsPaw(g)
    ensures PawOn(g.adj, h, x, y, z)
  {
    var adj := g.adj;
    PawDegrees(g);
    CountRowsFour(adj, 3);
    CountRowsFour(adj, 2);
    CountRowsFour(adj, 1);
    h :| 0 <= h < 4 && |adj[h]| == 3;
    x :| 0 <= x < 4 && |adj[x]| == 2;
    y :| 0 <= y < 4 && y != x && |adj[y]| == 2;
    z :| 0 <= z < 4 && |adj[z]| == 1;
    PawFromDegrees(adj, h, x, y, z);
  }

  /**
   * On a well-formed view, `isPaw` holds exactly for the paw: four nodes
   * `h`, `x`, `y`, `z` whose edges are the triangle `h`-`x`-`y` and the
   * pendant edge `h`-`z`.
   */
  lemma PawShape(g: GraphView)
    requires WellFormed(g)
    ensures IsPaw(g) <==> exists h, x, y, z :: PawOn(g.adj, h, x, y, z)
  {
    if IsPaw(g) {
      var h, x, y, z := IsPawPaw(g);
    }
    if exists h, x, y, z :: PawOn(g.adj, h, x, y, z) {
      var h, x, y, z :| PawOn(g.adj, h, x, y, z);
      PawIsPaw(g, h, x, y, z);
    }
  }

  // ---------------------------------------------------------------------------
  // Stars

  /** `starGraphChecker(n)`: `n` nodes, one of degree `n - 1`, and `n - 1` nodes of degree 1. */
  predicate StarGraphChecker(n: int, g: GraphView)
    ensures n != 2 && g.nodeCount == |g.adj| ==> (StarGraphChecker(n, g) <==> StarGraphCheckerIntended(n, g))
  {
    CentreIsNoLeaf(g.adj, n);
    && g.nodeCount == n
    && (exists i :: 0 <= i < |g.adj| && |g.adj[i]| == n - 1)
    && CountRows(g.adj, 1) == g.nodeCount - 1
  }

  /** Every node other than `h` has degree `d`. */
  predicate OthersHaveDegree(adj: AdjList, h: int, d: int) {
    forall v :: 0 <= v < |adj| && v != h ==> |adj[v]| == d
  }

  /** The star test as intended: a centre of degree `n - 1`, and every other node of degree 1. */
  predicate StarGraphCheckerIntended(n: int, g: GraphView) {
    && g.nodeCount == n
    && exists h :: 0 <= h < |g.adj| && |g.adj[h]| == n - 1 && OthersHaveDegree(g.adj, h, 1)
  }

  /** Node `h` is the centre of a star: every other node has `h` as its only neighbour. */
  ghost predicate IsCentre(adj: AdjList, h: int) {
    forall v :: 0 <= v < |adj| && v != h ==> adj[v] == [h]
  }

  /** The graph is a star. */
  ghost predicate IsStar(adj: AdjList) {
    exists h :: 0 <= h < |adj| && IsCentre(adj, h)
  }

  /** When row `h` does not have length `d`, all the others do exactly when `n - 1` rows do. */
  lemma {:induction false} CountAllBut(adj: AdjList, d: int, h: int)
    requires 0 <= h < |adj| && |adj[h]| != d
    ensures CountRows(adj, d) == |adj| - 1 <==> OthersHaveDegree(adj, h, d)
    decreases |adj|
  {
    var init := adj[..|adj| - 1];
    assert forall v :: 0 <= v < |init| ==> init[v] == adj[v];
    if h < |adj| - 1 {
      CountAllBut(init, d, h);
    }
  }

  /** On a well-formed view, the intended test recognises exactly the stars on `n` nodes. */
  lemma StarIntendedIsStar(n: int, g: GraphView)
    requires WellFormed(g)
    ensures StarGraphCheckerIntended(n, g) <==> |g.adj| == n && IsStar(g.adj)
  {
    var adj := g.adj;
    if StarGraphCheckerIntended(n, g) {
      var h :| 0 <= h < |adj| && |adj[h]| == n - 1 && OthersHaveDegree(adj, h, 1);
      RowBound(adj, h);
      forall v | 0 <= v < |adj| && v != h ensures adj[v] == [h] {
        assert h in adj[v];
      }
      assert IsCentre(adj, h);
    }
    if |adj| == n && IsStar(adj) {
      var h :| 0 <= h < |adj| && IsCentre(adj, h);
      forall v | 0 <= v < |adj| && v != h ensures v in adj[h] {
        assert h in adj[v];
      }
      RowBound(adj, h);
      assert OthersHaveDegree(adj, h, 1);
    }
  }

  /** Unless `n = 2`, a node of degree `n - 1` is not one of the leaves the checker counts. */
  lemma CentreIsNoLeaf(adj: AdjList, n: int)
    ensures n != 2 ==> forall h :: 0 <= h < |adj| && |adj[h]| == n - 1 ==>
      (CountRows(adj, 1) == |adj| - 1 <==> OthersHaveDegree(adj, h, 1))
  {
    if n != 2 {
      forall h | 0 <= h < |adj| && |adj[h]| == n - 1
        ensures CountRows(adj, 1) == |adj| - 1 <==> OthersHaveDegree(adj, h, 1)
      {
        CountAllBut(adj, 1, h);
      }
    }
  }

  /**
   * On two nodes `starGraphChecker` never holds: the centre of the single
   * edge has degree 1 too, so two rows, not one, have length 1.
   */
  lemma StarCheckerRejectsTwo(g: GraphView)
    requires WellFormed(g)
    ensures !StarGraphChecker(2, g)
  {
    if StarGraphChecker(2, g) {
      var i :| 0 <= i < 2 && |g.adj[i]| == 1;
      BothEndsLeaves(g.adj, i);
      assert false;
    }
  }

  /** In a simple graph on two nodes, a node of degree 1 is joined to the other, which then has degree 1 as well. */
  lemma BothEndsLeaves(adj: AdjList, i: int)
    requires Undirected(adj) && |adj| == 2 && 0 <= i < 2 && |adj[i]| == 1
    ensures CountRows(adj, 1) == 2
  {
    var j := adj[i][0];
    assert j in adj[i] && i !in adj[i] && 0 <= j < 2;
    assert i in adj[j];
    RowBound(adj, j);
    assert forall v :: 0 <= v < 2 ==> |adj[v]| == 1;
  }

  /** The single edge, a star with one leaf. */
  const SingleEdge: GraphView := GraphView([[1], [0]], 2, 1)

  /** The single edge is a well-formed star that the intended test accepts and `starGraphChecker(2)` rejects. */
  lemma SingleEdgeStar()
    ensures WellFormed(SingleEdge) && IsStar(SingleEdge.adj)
    ensures StarGraphCheckerIntended(2, SingleEdge) && !StarGraphChecker(2, SingleEdge)
  {
    var adj := SingleEdge.adj;
    assert Undirected(adj);
    assert EdgeSet(adj) == {(0, 1)};
    assert IsCentre(adj, 0);
    assert OthersHaveDegree(adj, 0, 1);
    StarCheckerRejectsTwo(SingleEdge);
  }

  // ---------------------------------------------------------------------------
  // Template graphs

  /** The kayak paddle: two triangles joined by an edge. */
  const KayakPaddle: AdjList := [[1, 2], [2, 0], [3, 1, 0], [4, 5, 2], [3, 5], [3, 4]]

  /** The butterfly: two triangles sharing a node. */
  const Butterfly: AdjList := [[1, 2], [2, 0], [3, 4, 1, 0], [2, 4], [3, 2]]

  /** `isKayakPaddleGraph`: six nodes and isomorphic to the kayak-paddle template. */
  method IsKayakPaddleGraph(g: GraphView) returns (r: bool)
    ensures r <==> g.nodeCount == 6 && Isomorphism.Isomorphic(KayakPaddle, g.adj)
  {
    if g.nodeCount != 6 {
      return false;
    }
    r := Isomorphism.IsIsomorphic(KayakPaddle, g.adj);
  }

  /** `isButterflyGraph`: five nodes and isomorphic to the butterfly template. */
  method IsButterflyGraph(g: GraphView) returns (r: bool)
    ensures r <==> g.nodeCount == 5 && Isomorphism.Isomorphic(Butterfly, g.adj)
  {
    if g.nodeCount != 5 {
      return false;
    }
    r := Isomorphism.IsIsomorphic(Butterfly, g.adj);
  }

  /** Every pair in `es` is an edge `(i, j)`, `i < j`, of `adj`. */
  predicate EdgesPresent(adj: AdjList, es: set<(int, int)>) {
    forall e :: e in es ==> 0 <= e.0 < e.1 < |adj| && e.1 in adj[e.0]
  }

  /** Every entry `j > i` of row `i` is listed in `es` as `(i, j)`. */
  predicate EdgesListed(adj: AdjList, es: set<(int, int)>) {
    forall i, k :: 0 <= i < |adj| && 0 <= k < |adj[i]| && i < adj[i][k] ==> (i, adj[i][k]) in es
  }

  /** An adjacency list whose edges are given one by one has exactly those edges. */
  lemma EdgesAre(adj: AdjList, es: set<(int, int)>)
    requires EdgesPresent(adj, es) && EdgesListed(adj, es)
    ensures EdgeSet(adj) == es
  {
    forall e | e in EdgeSet(adj) ensures e in es {
      var i, j :| 0 <= i < j < |adj| && j in adj[i] && e == (i, j);
      var k :| 0 <= k < |adj[i]| && adj[i][k] == j;
    }
  }

  /** The edges of the kayak paddle: triangles 0-1-2 and 3-4-5 joined by the edge 2-3. */
  const KayakPaddleEdges: set<(int, int)> := {(0, 1), (0, 2), (1, 2), (2, 3), (3, 4), (3, 5), (4, 5)}

  lemma KayakPaddleSimple()
    ensures Undirected(KayakPaddle)
  {
  }

  lemma KayakPaddleEdgesPresent()
    ensures EdgesPresent(KayakPaddle, KayakPaddleEdges) && EdgesListed(KayakPaddle, KayakPaddleEdges)
  {
  }

  /** The kayak-paddle template is a simple graph with the edges of two triangles joined by an edge. */
  lemma KayakPaddleShape()
    ensures Undirected(KayakPaddle) && EdgeSet(KayakPaddle) == KayakPaddleEdges
  {
    KayakPaddleSimple();
    KayakPaddleEdgesPresent();
    EdgesAre(KayakPaddle, KayakPaddleEdges);
  }

  /** The edges of the butterfly: triangles 0-1-2 and 2-3-4 sharing node 2. */
  const ButterflyEdges: set<(int, int)> := {(0, 1), (0, 2), (1, 2), (2, 3), (2, 4), (3, 4)}

  lemma ButterflySimple()
    ensures Undirected(Butterfly)
  {
  }

  lemma ButterflyEdgesPresent()
    ensures EdgesPresent(Butterfly, ButterflyEdges) && EdgesListed(Butterfly, ButterflyEdges)
  {
  }

  /** The butterfly template is a simple graph with the edges of two triangles sharing a node. */
  lemma ButterflyShape()
    ensures Undirected(Butterfly) && EdgeSet(Butterfly) == ButterflyEdges
  {
    ButterflySimple();
    ButterflyEdgesPresent();
    EdgesAre(Butterfly, ButterflyEdges);
  }

  // ---------------------------------------------------------------------------
  // Graph type

  /**
   * What `calculateGraphType` reports for a graph with an edge: the labels of
   * the classes it belongs to, in the order complete, cycle, butterfly,
   * kayak paddle, paw.
   */
  ghost function Kinds(g: GraphView): seq<string> {
    (if IsComplete(g) then ["complete"] else [])
    + (if |g.adj| >= 3 && TwoRegular(g.adj) && Connected(g.adj) then ["cycle"] else [])
    + (if g.nodeCount == 5 && Isomorphism.Isomorphic(Butterfly, g.adj) then ["butterfly"] else [])
    + (if g.nodeCount == 6 && Isomorphism.Isomorphic(KayakPaddle, g.adj) then ["kayak paddle"] else [])
    + (if IsPaw(g) then ["paw"] else [])
  }

  /** `calculateGraphType`: "trivial" for one node, "unconnected" without edges, otherwise every class that matches. */
  method CalculateGraphType(g: GraphView) returns (types: seq<string>)
    requires WellFormed(g)
    ensures g.nodeCount == 1 ==> types == ["trivial"]
    ensures g.nodeCount != 1 && g.edgeCount == 0 ==> types == ["unconnected"]
    ensures g.nodeCount != 1 && g.edgeCount != 0 ==> types == Kinds(g)
  {
    types := [];
    if g.nodeCount == 1 {
      types := types + ["trivial"];
    } else if g.edgeCount == 0 {
      types := types + ["unconnected"];
    } else {
      if IsComplete(g) {
        types := types + ["complete"];
      }
      var cycle := IsCycleGraph(g);
      if cycle {
        types := types + ["cycle"];
      }
      var butterfly := IsButterflyGraph(g);
      if butterfly {
        types := types + ["butterfly"];
      }
      var kayak := IsKayakPaddleGraph(g);
      if kayak {
        types := types + ["kayak paddle"];
      }
      if IsPaw(g) {
        types := types + ["paw"];
      }
    }
  }

  /** A paw is reported neither as complete nor as a cycle. */
  lemma PawIsNeitherCompleteNorCycle(g: GraphView)
    requires WellFormed(g) && IsPaw(g)
    ensures !IsComplete(g) && !TwoRegular(g.adj)
  {
    var h :| 0 <= h < |g.adj| && |g.adj[h]| == 3;
  }
}
