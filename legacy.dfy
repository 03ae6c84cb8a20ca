/**
 * The older, self-contained copy of the graph store and its classifiers.
 * Its `Graph` keeps a single `labels` map and a `directedEdgeCount`, and its
 * `addEdge` has no guard against joining a node to itself: a self-loop is
 * one entry in the node's own row and counts as one edge. Its `isOneCycle`
 * walks without first checking that some node has a neighbour.
 */
module LegacyGraphAlgs {
  import opened Structure
  import opened Counting
  import opened CycleWalk
  import Classifiers

  /** The edges of the older store, self-loops included: `{i, j}` written once as `(i, j)` with `i <= j`. */
  function LoopEdgeSet(adj: AdjList): set<(int, int)> {
    set i, j | 0 <= i <= j < |adj| && j in adj[i] :: (i, j)
  }

  /** The self-loops `(i, i)`. */
  function SelfLoops(adj: AdjList): set<(int, int)> {
    set i | 0 <= i < |adj| && i in adj[i] :: (i, i)
  }

  /**
   * The older store's invariant: one row per node, entries in range, no
   * entry twice in a row, adjacency symmetric (self-loops allowed),
   * `edgeCount` edges counting self-loops, two directed edges per edge, and
   * every label on an existing node.
   */
  ghost predicate LegacyInv<L>(adj: AdjList, n: int, m: int, dm: int, labels: map<L, int>) {
    && n == |adj|
    && InRange(adj) && NoDuplicates(adj) && Symmetric(adj)
    && m == |LoopEdgeSet(adj)| && dm == 2 * m
    && forall v :: v in labels ==> 0 <= labels[v] < n
  }

  /** The rows after `addEdge` on the nodes `i` and `j`: unchanged if they were joined, else the missing arcs added. */
  function Joined(adj: AdjList, i: int, j: int): AdjList
    requires 0 <= i < |adj| && 0 <= j < |adj|
  {
    if j in adj[i] then adj
    else if i == j then AddArc(adj, i, i)
    else AddArc(AddArc(adj, i, j), j, i)
  }

  /** Appending one arc not yet listed, a self-loop included, keeps the rows in range and duplicate-free. */
  lemma AddArcKeepsRows(adj: AdjList, i: int, j: int)
    requires InRange(adj) && NoDuplicates(adj) && 0 <= i < |adj| && 0 <= j < |adj| && j !in adj[i]
    ensures InRange(AddArc(adj, i, j)) && NoDuplicates(AddArc(adj, i, j))
  {
    var r := AddArc(adj, i, j);
    forall x | 0 <= x < |r| ensures Distinct(r[x]) {
      assert Distinct(adj[x]);
    }
  }

  /** A self-loop not yet listed keeps the rows symmetric and adds the edge `(i, i)`. */
  lemma AddLoopKeepsInv(adj: AdjList, i: int)
    requires InRange(adj) && NoDuplicates(adj) && Symmetric(adj) && 0 <= i < |adj| && i !in adj[i]
    ensures InRange(AddArc(adj, i, i)) && NoDuplicates(AddArc(adj, i, i)) && Symmetric(AddArc(adj, i, i))
    ensures LoopEdgeSet(AddArc(adj, i, i)) == LoopEdgeSet(adj) + {(i, i)}
    ensures (i, i) !in LoopEdgeSet(adj)
  {
    AddArcKeepsRows(adj, i, i);
    var r := AddArc(adj, i, i);
    forall x, y | 0 <= x < |r| && 0 <= y < |r| && y in r[x] ensures x in r[y] {
      if !(x == i && y == i) {
        assert y in adj[x];
      }
    }
    forall e | e in LoopEdgeSet(r) ensures e in LoopEdgeSet(adj) + {(i, i)} {
      if e != (i, i) {
        assert e.1 in adj[e.0];
      }
    }
    assert i in r[i];
  }

  /** Both arcs of a new edge between distinct nodes keep the rows symmetric and add the edge `{i, j}`. */
  lemma AddLinkKeepsInv(adj: AdjList, i: int, j: int)
    requires InRange(adj) && NoDuplicates(adj) && Symmetric(adj)
    requires 0 <= i < |adj| && 0 <= j < |adj| && i != j && j !in adj[i]
    ensures InRange(AddArc(AddArc(adj, i, j), j, i)) && NoDuplicates(AddArc(AddArc(adj, i, j), j, i))
    ensures Symmetric(AddArc(AddArc(adj, i, j), j, i))
    ensures LoopEdgeSet(AddArc(AddArc(adj, i, j), j, i)) == LoopEdgeSet(adj) + {Pair(i, j)}
    ensures Pair(i, j) !in LoopEdgeSet(adj)
  {
    assert i !in adj[j];
    AddArcKeepsRows(adj, i, j);
    AddArcKeepsRows(AddArc(adj, i, j), j, i);
    var r := AddArc(AddArc(adj, i, j), j, i);
    forall x, y | 0 <= x < |r| && 0 <= y < |r| && y in r[x] ensures x in r[y] {
      if !(x == i && y == j) && !(x == j && y == i) {
        assert y in adj[x];
      }
    }
    LinkLoopEdges(adj, i, j);
  }

  lemma LinkLoopEdges(adj: AdjList, i: int, j: int)
    requires Symmetric(adj) && 0 <= i < |adj| && 0 <= j < |adj| && i != j && j !in adj[i]
    ensures LoopEdgeSet(AddArc(AddArc(adj, i, j), j, i)) == LoopEdgeSet(adj) + {Pair(i, j)}
    ensures Pair(i, j) !in LoopEdgeSet(adj)
  {
    var r := AddArc(AddArc(adj, i, j), j, i);
    var e := Pair(i, j);
    forall x | x in LoopEdgeSet(r) ensures x in LoopEdgeSet(adj) + {e} {
      if x != e {
        assert x.1 in adj[x.0];
      }
    }
    assert e.1 in r[e.0];
    assert i !in adj[j];
  }

  /** Joining keeps the rows in range, duplicate-free and symmetric, and adds exactly the edge `{i, j}`. */
  lemma JoinedKeepsInv(adj: AdjList, i: int, j: int)
    requires InRange(adj) && NoDuplicates(adj) && Symmetric(adj) && 0 <= i < |adj| && 0 <= j < |adj|
    ensures InRange(Joined(adj, i, j)) && NoDuplicates(Joined(adj, i, j)) && Symmetric(Joined(adj, i, j))
    ensures LoopEdgeSet(Joined(adj, i, j)) == LoopEdgeSet(adj) + {Pair(i, j)}
    ensures |LoopEdgeSet(Joined(adj, i, j))| == |LoopEdgeSet(adj)| + (if j in adj[i] then 0 else 1)
  {
    if j in adj[i] {
      assert Pair(i, j).1 in adj[Pair(i, j).0];
    } else if i == j {
      AddLoopKeepsInv(adj, i);
    } else {
      AddLinkKeepsInv(adj, i, j);
    }
  }

  /** The two appends of `addEdge`, each made only where the index is missing, compute `Joined`; the second appends only if the first did. */
  lemma TwoAppendsJoin(adj: AdjList, i: int, j: int)
    requires Symmetric(adj) && 0 <= i < |adj| && 0 <= j < |adj|
    ensures var r1 := if j in adj[i] then adj else AddArc(adj, i, j);
            && (var r2 := if i in r1[j] then r1 else AddArc(r1, j, i);
                r2 == Joined(adj, i, j))
            && (i !in r1[j] ==> j !in adj[i])
  {
    if j !in adj[i] && i != j {
      assert i !in adj[j];
    }
  }

  /** A repeated `addEdge`, in either order of its ends, changes nothing. */
  lemma JoinedIdempotent(adj: AdjList, i: int, j: int)
    requires Symmetric(adj) && 0 <= i < |adj| && 0 <= j < |adj|
    ensures Joined(Joined(adj, i, j), i, j) == Joined(adj, i, j)
    ensures Joined(Joined(adj, i, j), j, i) == Joined(adj, i, j)
  {
    var r := Joined(adj, i, j);
    assert j in r[i] && i in r[j];
  }

  class LegacyGraph<L(==)> {
    var adjList: AdjList
    var nodeCount: int
    var edgeCount: int
    var directedEdgeCount: int
    /** Label to index. Re-adding a label points it at the newer index. */
    var labels: map<L, int>

    ghost predicate Valid()
      reads this
    {
      LegacyInv(adjList, nodeCount, edgeCount, directedEdgeCount, labels)
    }

    constructor ()
      ensures Valid()
      ensures adjList == [] && nodeCount == 0 && edgeCount == 0 && directedEdgeCount == 0 && labels == map[]
    {
      adjList := [];
      nodeCount := 0;
      edgeCount := 0;
      directedEdgeCount := 0;
      labels := map[];
    }

    /** `addNode`: a new empty row, whose index the label now names. */
    method AddNode(v: L)
      requires Valid()
      modifies this
      ensures Valid()
      ensures adjList == old(adjList) + [[]] && nodeCount == old(nodeCount) + 1
      ensures edgeCount == old(edgeCount) && directedEdgeCount == old(directedEdgeCount)
      ensures labels == old(labels)[v := old(nodeCount)]
    {
      assert LoopEdgeSet(adjList + [[]]) == LoopEdgeSet(adjList) by {
        forall e | e in LoopEdgeSet(adjList + [[]]) ensures e in LoopEdgeSet(adjList) {
          assert e.1 in (adjList + [[]])[e.0];
        }
      }
      adjList := adjList + [[]];
      labels := labels[v := |adjList| - 1];
      nodeCount := nodeCount + 1;
    }

    /**
     * `addEdge`: nothing when a label is missing; otherwise appends each
     * index to the other's row where it is not yet listed, and counts one
     * more edge and two more directed edges when it appended anything. The
     * two labels may be the same: that appends the index to its own row once.
     */
    method AddEdge(a: L, b: L)
      requires Valid()
      modifies this
      ensures Valid()
      ensures labels == old(labels) && nodeCount == old(nodeCount)
      ensures a !in labels || b !in labels ==>
        adjList == old(adjList) && edgeCount == old(edgeCount) && directedEdgeCount == old(directedEdgeCount)
      ensures a in labels && b in labels ==>
        && adjList == Joined(old(adjList), labels[a], labels[b])
        && LoopEdgeSet(adjList) == old(LoopEdgeSet(adjList)) + {Pair(labels[a], labels[b])}
        && (var added := if labels[b] in old(adjList)[labels[a]] then 0 else 1;
            edgeCount == old(edgeCount) + added && directedEdgeCount == old(directedEdgeCount) + 2 * added)
    {
      var containsNodes := a in labels && b in labels;
      if containsNodes {
        var index1 := labels[a];
        var index2 := labels[b];
        JoinedKeepsInv(adjList, index1, index2);
        TwoAppendsJoin(adjList, index1, index2);
        var rows := adjList;
        var addedEdge := false;
        if index2 !in rows[index1] {
          rows := AddArc(rows, index1, index2);
          addedEdge := true;
        }
        if index1 !in rows[index2] {
          rows := AddArc(rows, index2, index1);
          addedEdge := true;
        }
        assert rows == Joined(adjList, index1, index2) && addedEdge == (index2 !in adjList[index1]);
        Store(rows, addedEdge);
      }
    }

    /** The end of `addEdge`: the new rows, and one more edge and two more directed edges if anything was appended. */
    method Store(rows: AdjList, addedEdge: bool)
      requires LegacyInv(rows, nodeCount, edgeCount + (if addedEdge then 1 else 0), directedEdgeCount + (if addedEdge then 2 else 0), labels)
      modifies this
      ensures Valid() && adjList == rows
      ensures edgeCount == old(edgeCount) + (if addedEdge then 1 else 0)
      ensures directedEdgeCount == old(directedEdgeCount) + (if addedEdge then 2 else 0)
      ensures labels == old(labels) && nodeCount == old(nodeCount)
    {
      adjList := rows;
      if addedEdge {
        edgeCount := edgeCount + 1;
        directedEdgeCount := directedEdgeCount + 2;
      }
    }

    /** `getAdjList`: the rows themselves. */
    function GetAdjList(): (r: AdjList)
      reads this
      requires Valid()
      ensures |r| == nodeCount && InRange(r) && Symmetric(r) && |LoopEdgeSet(r)| == edgeCount
    {
      adjList
    }
  }

  // ---------------------------------------------------------------------------
  // Counting with self-loops

  /**
   * The handshake lemma with self-loops: a self-loop adds one to its row's
   * length but counts as a whole edge.
   */
  lemma LoopHandshake(adj: AdjList)
    requires InRange(adj) && NoDuplicates(adj) && Symmetric(adj)
    ensures DegreeSum(adj) + |SelfLoops(adj)| == 2 * |LoopEdgeSet(adj)|
  {
    ArcsCountDegrees(adj);
    ArcSetWithLoops(adj);
    SwappedCard(EdgeSet(adj));
    LoopEdgeSetSplit(adj);
  }

  /** The distinct arcs are as many as the degrees add up to. */
  lemma ArcsCountDegrees(adj: AdjList)
    requires NoDuplicates(adj)
    ensures |ArcSet(adj)| == DegreeSum(adj)
  {
    ArcsUpToLength(adj, |adj|);
    assert adj[..|adj|] == adj;
    ArcsIsArcSet(adj);
  }

  /** The arcs of a symmetric list: each edge `i < j` both ways, and each self-loop once. */
  lemma ArcSetWithLoops(adj: AdjList)
    requires InRange(adj) && Symmetric(adj)
    ensures ArcSet(adj) == EdgeSet(adj) + Swapped(EdgeSet(adj)) + SelfLoops(adj)
    ensures EdgeSet(adj) * Swapped(EdgeSet(adj)) == {}
    ensures (EdgeSet(adj) + Swapped(EdgeSet(adj))) * SelfLoops(adj) == {}
  {
    var es := EdgeSet(adj);
    forall e | e in ArcSet(adj) ensures e in es + Swapped(es) + SelfLoops(adj) {
      var i, j :| 0 <= i < |adj| && j in adj[i] && e == (i, j);
      if j < i {
        assert i in adj[j];
        assert (j, i) in es;
      } else if j == i {
        assert e in SelfLoops(adj);
      }
    }
    forall e | e in Swapped(es) ensures e in ArcSet(adj) {
      var f :| f in es && e == (f.1, f.0);
    }
  }

  /** The edges of the older store are the simple edges and the self-loops, which are different pairs. */
  lemma LoopEdgeSetSplit(adj: AdjList)
    ensures LoopEdgeSet(adj) == EdgeSet(adj) + SelfLoops(adj)
    ensures EdgeSet(adj) * SelfLoops(adj) == {}
  {
    forall e | e in LoopEdgeSet(adj) ensures e in EdgeSet(adj) + SelfLoops(adj) {
      if e.0 == e.1 {
        assert e.0 in adj[e.0];
      } else {
        assert e.1 in adj[e.0];
      }
    }
  }

  /**
   * With every row of length 2 and as many edges as nodes, there is no
   * self-loop: each would leave the degrees one short of twice the edges.
   */
  lemma OnlyCyclesHasNoLoops(adj: AdjList, m: int)
    requires InRange(adj) && NoDuplicates(adj) && Symmetric(adj) && m == |LoopEdgeSet(adj)|
    requires Classifiers.IsOnlyCycles(GraphView(adj, |adj|, m))
    ensures Loopless(adj)
  {
    assert TwoRegular(adj);
    DegreeSumRegular(adj, 2);
    LoopHandshake(adj);
    assert SelfLoops(adj) == {};
    forall i | 0 <= i < |adj| ensures i !in adj[i] {
      assert (i, i) !in SelfLoops(adj);
    }
  }

  /**
   * Without self-loops the older store is a simple undirected graph whose
   * counts match: every classifier fact of the newer copy applies to it.
   */
  lemma LoopFreeIsWellFormed(adj: AdjList, m: int)
    requires InRange(adj) && NoDuplicates(adj) && Symmetric(adj) && Loopless(adj) && m == |LoopEdgeSet(adj)|
    ensures WellFormed(GraphView(adj, |adj|, m))
  {
    assert LoopEdgeSet(adj) == EdgeSet(adj) by {
      forall e | e in LoopEdgeSet(adj) ensures e in EdgeSet(adj) {
        assert e.1 in adj[e.0];
      }
    }
  }

  // ---------------------------------------------------------------------------
  // The classifiers that differ

  /**
   * `isOneCycle` of the older copy: the walk of the newer copy without the
   * check that some node has a neighbour, so it holds on the empty graph.
   * It is only reached when every row has length 2.
   */
  method IsOneCycle<L(==)>(g: LegacyGraph<L>) returns (r: bool)
    requires g.Valid() && Loopless(g.adjList) && TwoRegular(g.adjList)
    ensures r <==> g.nodeCount == 0 || Connected(g.adjList)
  {
    var adjList := g.GetAdjList();
    var start := FirstNonEmpty(adjList);
    r := Walk(adjList, start);
  }

  /**
   * `cycleGraphChecker(n)` of the older copy: the cycle graph on `n` nodes.
   * Self-loops cannot get through `isOnlyCycles`, so this agrees with the
   * newer copy.
   */
  method CycleGraphChecker<L(==)>(n: int, g: LegacyGraph<L>) returns (r: bool)
    requires g.Valid()
    ensures r <==> n == g.nodeCount && n >= 3 && Loopless(g.adjList) && TwoRegular(g.adjList) && Connected(g.adjList)
  {
    var view := GraphView(g.adjList, g.nodeCount, g.edgeCount);
    if !(g.nodeCount == n && Classifiers.IsOnlyCycles(view)) {
      if n == g.nodeCount && n >= 3 && Loopless(g.adjList) && TwoRegular(g.adjList) {
        LoopFreeIsWellFormed(g.adjList, g.edgeCount);
        Classifiers.OnlyCyclesIsTwoRegular(view);
      }
      return false;
    }
    OnlyCyclesHasNoLoops(g.adjList, g.edgeCount);
    r := IsOneCycle(g);
  }

  /**
   * One self-loop on two nodes passes `isComplete`: one edge is `2 * 1 / 2`,
   * although the two nodes are not joined.
   */
  lemma SelfLoopLooksComplete()
    ensures LegacyInv([[0], []], 2, 1, 2, map[0 := 0, 1 := 1])
    ensures Classifiers.IsComplete(GraphView([[0], []], 2, 1))
    ensures !Classifiers.AllAdjacent([[0], []])
  {
    var adj: AdjList := [[0], []];
    assert LoopEdgeSet(adj) == {(0, 0)} by {
      forall e | e in LoopEdgeSet(adj) ensures e == (0, 0) {
        assert e.1 in adj[e.0];
      }
      assert 0 in adj[0];
    }
    assert 1 !in adj[0];
  }

  /** A self-loop on a node without neighbours makes its row hold just itself. */
  lemma LoopOnEmptyRow(adj: AdjList, i: int)
    requires 0 <= i < |adj| && adj[i] == []
    ensures Joined(adj, i, i) == adj[i := [i]]
  {
    var r := AddArc(adj, i, i);
    assert r[i] == [] + [i] == [i];
    assert forall k :: 0 <= k < |r| ==> r[k] == adj[i := [i]][k];
  }

  /** The state of `SelfLoopLooksComplete`, reached through the older store's own operations. */
  method OneSelfLoop() returns (g: LegacyGraph<int>)
    ensures g.Valid() && g.adjList == [[0], []] && g.nodeCount == 2 && g.edgeCount == 1
  {
    g := new LegacyGraph<int>();
    g.AddNode(0);
    g.AddNode(1);
    assert g.adjList == [[], []] && g.labels == map[0 := 0, 1 := 1];
    LoopOnEmptyRow([[], []], 0);
    g.AddEdge(0, 0);
    assert g.adjList == [[0], []];
  }
}
