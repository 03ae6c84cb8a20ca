/**
 * The labelled graph store of `public/algorithms/graph.mjs`: an undirected
 * `Graph` and its directed variant `Digraph`. Both keep an adjacency list of
 * indices, node and edge counters, and the two maps between caller-supplied
 * labels and indices. Nodes and edges are only ever added.
 */
module GraphStore {
  import opened Structure
  import opened Wrappers

  /** The label pairs of index pairs, looked up through `indices`. */
  function LabelEdges<L>(indices: map<int, L>, es: seq<(int, int)>): (r: seq<(L, L)>)
    requires forall k :: 0 <= k < |es| ==> es[k].0 in indices && es[k].1 in indices
    ensures |r| == |es|
    ensures forall k :: 0 <= k < |es| ==> r[k] == (indices[es[k].0], indices[es[k].1])
  {
    seq(|es|, k requires 0 <= k < |es| => (indices[es[k].0], indices[es[k].1]))
  }

  /**
   * The two label maps of a store with `n` nodes agree: `indices` names every
   * node, and each label maps to a node that carries it. A label added twice
   * maps to its later node, so `nodeValues` need not be onto.
   */
  ghost predicate LabelMaps<L>(n: int, nodeValues: map<L, int>, indices: map<int, L>) {
    && (forall i :: i in indices <==> 0 <= i < n)
    && (forall v :: v in nodeValues ==> 0 <= nodeValues[v] < n && indices[nodeValues[v]] == v)
    && (forall i :: 0 <= i < n ==> indices[i] in nodeValues)
  }

  /** The undirected store's invariant, on the values of its fields. */
  ghost predicate GraphInv<L>(adj: AdjList, n: int, m: int, nodeValues: map<L, int>, indices: map<int, L>) {
    && n == |adj|
    && Undirected(adj)
    && m == |EdgeSet(adj)|
    && LabelMaps(n, nodeValues, indices)
  }

  /** Joining two distinct nodes not yet joined keeps the invariant, with one more edge. */
  lemma GraphInvLink<L>(adj: AdjList, n: int, m: int, nodeValues: map<L, int>, indices: map<int, L>, i: int, j: int)
    requires GraphInv(adj, n, m, nodeValues, indices)
    requires 0 <= i < n && 0 <= j < n && i != j && (j !in adj[i] || i !in adj[j])
    ensures GraphInv(AddArc(AddArc(adj, i, j), j, i), n, m + 1, nodeValues, indices)
  {
    AddEdgeKeepsUndirected(adj, i, j);
    AddEdgeGrowsEdgeSet(adj, i, j);
  }

  /** The labels `ix[0..n-1]`, mapped through `copy`, are pairwise distinct. */
  ghost predicate ImagesDistinct<S, L>(copy: S -> L, ix: map<int, S>, n: int)
    requires forall k :: 0 <= k < n ==> k in ix
  {
    forall i, j :: 0 <= i < j < n ==> copy(ix[i]) != copy(ix[j])
  }

  /**
   * `edges`, mapped through `nodeMap` and then `nodeValues`, name the
   * distinct upward index pairs `es`.
   */
  ghost predicate Replays<S, L>(edges: seq<(S, S)>, nodeMap: map<S, L>, nodeValues: map<L, int>, es: seq<(int, int)>) {
    && |edges| == |es|
    && (forall k :: 0 <= k < |edges| ==> edges[k].0 in nodeMap && edges[k].1 in nodeMap)
    && (forall k :: 0 <= k < |edges| ==>
          && nodeMap[edges[k].0] in nodeValues && nodeValues[nodeMap[edges[k].0]] == es[k].0
          && nodeMap[edges[k].1] in nodeValues && nodeValues[nodeMap[edges[k].1]] == es[k].1
          && es[k].0 < es[k].1)
    && Distinct(es)
  }

  /** The labelled edges of a store name only labels of its nodes. */
  lemma LabelledEndsKnown<S, L>(adj: AdjList, ix: map<int, S>, edges: seq<(S, S)>, nodeMap: map<S, L>)
    requires InRange(adj) && forall k :: 0 <= k < |adj| ==> k in ix
    requires edges == LabelEdges(ix, UpperEdges(adj))
    requires forall k :: 0 <= k < |adj| ==> ix[k] in nodeMap
    ensures forall k :: 0 <= k < |edges| ==> edges[k].0 in nodeMap && edges[k].1 in nodeMap
  {
    var es := UpperEdges(adj);
    UpperEdgesMembers(adj);
    forall k | 0 <= k < |edges| ensures edges[k].0 in nodeMap && edges[k].1 in nodeMap {
      assert es[k] in es;
    }
  }

  /**
   * The labelled edges of a source whose node `k` was copied to node `k` of
   * the copy replay the source's index pairs on the copy.
   */
  lemma LabelledEdgesReplay<S, L>(adj: AdjList, ix: map<int, S>, edges: seq<(S, S)>,
                                  nodeMap: map<S, L>, nodeValues: map<L, int>)
    requires InRange(adj) && NoDuplicates(adj) && forall k :: 0 <= k < |adj| ==> k in ix
    requires edges == LabelEdges(ix, UpperEdges(adj))
    requires forall k :: 0 <= k < |adj| ==>
      ix[k] in nodeMap && nodeMap[ix[k]] in nodeValues && nodeValues[nodeMap[ix[k]]] == k
    ensures Replays(edges, nodeMap, nodeValues, UpperEdges(adj))
  {
    UpperEdgesIsEdgeSet(adj);
  }

  class Graph<L(==)> {
    var adjList: AdjList
    var nodeCount: int
    var edgeCount: int
    /** Label to index. Re-adding a label points it at the newer index. */
    var nodeValues: map<L, int>
    /** Index to label. */
    var indices: map<int, L>

    /**
     * The store's invariant: a simple undirected adjacency list, one row per
     * node, `edgeCount` unordered edges, and the two maps consistent.
     */
    ghost predicate Valid()
      reads this
    {
      GraphInv(adjList, nodeCount, edgeCount, nodeValues, indices)
    }

    /** No label was added twice, so both maps are bijections. */
    ghost predicate DistinctLabels()
      reads this
      requires Valid()
    {
      forall i :: 0 <= i < nodeCount ==> nodeValues[indices[i]] == i
    }

    constructor ()
      ensures Valid()
      ensures adjList == [] && nodeCount == 0 && edgeCount == 0
      ensures nodeValues == map[] && indices == map[]
    {
      adjList := [];
      nodeCount := 0;
      edgeCount := 0;
      nodeValues := map[];
      indices := map[];
    }

    /** Appends a node labelled `v`; a label already present is re-pointed at the new node. */
    method AddNode(v: L)
      requires Valid()
      modifies this
      ensures Valid()
      ensures adjList == old(adjList) + [[]]
      ensures nodeCount == old(nodeCount) + 1 && edgeCount == old(edgeCount)
      ensures nodeValues == old(nodeValues)[v := old(nodeCount)]
      ensures indices == old(indices)[old(nodeCount) := v]
    {
      EdgeSetAddNode(adjList);
      adjList := adjList + [[]];
      nodeValues := nodeValues[v := |adjList| - 1];
      indices := indices[|adjList| - 1 := v];
      nodeCount := nodeCount + 1;
    }

    /**
     * Adds the undirected edge between the nodes labelled `a` and `b`. Refuses
     * (returns false, changes nothing) a self-edge, an unknown label, or an
     * edge already present.
     */
    method AddEdge(a: L, b: L) returns (added: bool)
      requires Valid()
      modifies this
      ensures Valid()
      ensures added <==> a != b && a in old(nodeValues) && b in old(nodeValues) && !old(ContainsEdge(a, b))
      ensures nodeCount == old(nodeCount) && nodeValues == old(nodeValues) && indices == old(indices)
      ensures added ==> adjList == AddArc(AddArc(old(adjList), nodeValues[a], nodeValues[b]), nodeValues[b], nodeValues[a])
      ensures added ==> EdgeSet(adjList) == old(EdgeSet(adjList)) + {Pair(nodeValues[a], nodeValues[b])}
      ensures added ==> edgeCount == old(edgeCount) + 1
      ensures !added ==> adjList == old(adjList) && edgeCount == old(edgeCount)
      ensures a != b && a in nodeValues && b in nodeValues ==> ContainsEdge(a, b) && ContainsEdge(b, a)
    {
      if a == b {
        return false;
      }
      var containsNodes := a in nodeValues && b in nodeValues;
      added := false;
      if containsNodes {
        var index1 := nodeValues[a];
        var index2 := nodeValues[b];
        var oneTwoExists := index2 in adjList[index1];
        var twoOneExists := index1 in adjList[index2];
        if !oneTwoExists || !twoOneExists {
          added := true;
          AddEdgeGrowsEdgeSet(adjList, index1, index2);
          Link(index1, index2);
        }
      }
    }

    /** Appends each of two distinct, not yet joined nodes to the other's row. */
    method Link(i: int, j: int)
      requires Valid() && 0 <= i < nodeCount && 0 <= j < nodeCount && i != j
      requires j !in adjList[i] || i !in adjList[j]
      modifies this
      ensures Valid()
      ensures adjList == AddArc(AddArc(old(adjList), i, j), j, i)
      ensures edgeCount == old(edgeCount) + 1
      ensures nodeCount == old(nodeCount) && nodeValues == old(nodeValues) && indices == old(indices)
    {
      GraphInvLink(adjList, nodeCount, edgeCount, nodeValues, indices, i, j);
      adjList := AddArc(AddArc(adjList, i, j), j, i);
      edgeCount := edgeCount + 1;
    }

    /** Both labels are present and each node is listed in the other's row. */
    predicate ContainsEdge(a: L, b: L)
      reads this
      requires Valid()
      ensures ContainsEdge(a, b) <==> a in nodeValues && b in nodeValues && nodeValues[b] in adjList[nodeValues[a]]
      ensures ContainsEdge(a, b) ==> nodeValues[a] != nodeValues[b]
    {
      if a !in nodeValues || b !in nodeValues then false
      else
        var index1 := nodeValues[a];
        var index2 := nodeValues[b];
        index2 in adjList[index1] && index1 in adjList[index2]
    }

    /** `ContainsEdge` is membership of the pair of indices in the edge set. */
    lemma ContainsEdgeIsEdgeSet(a: L, b: L)
      requires Valid()
      ensures ContainsEdge(a, b) <==>
        a in nodeValues && b in nodeValues && Pair(nodeValues[a], nodeValues[b]) in EdgeSet(adjList)
    {
      if a in nodeValues && b in nodeValues {
        var i, j := nodeValues[a], nodeValues[b];
        if i != j {
          EdgeSetAdjacent(adjList, i, j);
        }
      }
    }

    /** The fields the classifiers read. */
    function View(): (v: GraphView)
      reads this
      requires Valid()
      ensures WellFormed(v)
    {
      GraphView(adjList, nodeCount, edgeCount)
    }

    /** The index structure itself (the source hands out its own array). */
    function GetAdjList(): (r: AdjList)
      reads this
      requires Valid()
      ensures Undirected(r) && |r| == nodeCount && |EdgeSet(r)| == edgeCount
    {
      adjList
    }

    /**
     * Every undirected edge once, as `(i, j)` with `i < j`: a row-by-row scan
     * that marks each row's node before its row is read and emits only the
     * neighbours not yet marked.
     */
    method GetEdgeIndices() returns (edges: seq<(int, int)>)
      requires Valid()
      ensures edges == UpperEdges(adjList)
      ensures forall e :: e in edges <==> e in EdgeSet(adjList)
      ensures Distinct(edges) && |edges| == edgeCount
    {
      var marked := new bool[nodeCount](_ => false);
      edges := [];
      var i := 0;
      while i < |adjList|
        invariant 0 <= i <= |adjList|
        invariant forall k :: 0 <= k < marked.Length ==> marked[k] == (k < i)
        invariant edges == UpperEdgesUpTo(adjList, i)
      {
        marked[i] := true;
        var rowEdges := UnmarkedTargets(marked, i, adjList[i]);
        edges := edges + rowEdges;
        i := i + 1;
      }
      UpperEdgesIsEdgeSet(adjList);
    }

    /** The edges of `GetEdgeIndices` with both ends replaced by their labels. */
    method GetEdges() returns (edges: seq<(L, L)>)
      requires Valid()
      ensures |edges| == edgeCount
      ensures edges == LabelEdges(indices, UpperEdges(adjList))
    {
      var es := GetEdgeIndices();
      edges := LabelEdges(indices, es);
    }

    /**
     * With distinct labels, `(a, b)` is among the edges `GetEdges` lists
     * exactly when the graph holds the edge `{a, b}` and `a` was added before `b`.
     */
    lemma GetEdgesIsContainsEdge(a: L, b: L)
      requires Valid() && DistinctLabels()
      ensures (a, b) in LabelEdges(indices, UpperEdges(adjList)) <==> ContainsEdge(a, b) && nodeValues[a] < nodeValues[b]
    {
      var es := UpperEdges(adjList);
      var edges := LabelEdges(indices, es);
      UpperEdgesIsEdgeSet(adjList);
      if (a, b) in edges {
        var k :| 0 <= k < |edges| && edges[k] == (a, b);
        assert es[k] in es;
        ContainsEdgeIsEdgeSet(a, b);
      }
      if ContainsEdge(a, b) && nodeValues[a] < nodeValues[b] {
        ContainsEdgeIsEdgeSet(a, b);
        var e := (nodeValues[a], nodeValues[b]);
        assert e in es;
        var k :| 0 <= k < |es| && es[k] == e;
        assert edges[k] == (a, b);
      }
    }

    /**
     * The labels of the neighbours of `v`, in row order; `None` when `v` is
     * not a label of this graph.
     */
    function GetNeighbors(v: L): (r: Option<seq<L>>)
      reads this
      requires Valid()
      ensures r.Some? <==> v in nodeValues
      ensures r.Some? ==> |r.value| == |adjList[nodeValues[v]]|
      ensures r.Some? ==> forall k :: 0 <= k < |r.value| ==> r.value[k] == indices[adjList[nodeValues[v]][k]]
    {
      if v !in nodeValues then None
      else
        var row, labels := adjList[nodeValues[v]], indices;
        Some(seq(|row|, k requires 0 <= k < |row| => labels[row[k]]))
    }

    /** With distinct labels, the neighbours of `v` are exactly the labels joined to `v` by an edge. */
    lemma NeighborsAreEdges(v: L, u: L)
      requires Valid() && DistinctLabels() && v in nodeValues
      ensures u in GetNeighbors(v).value <==> ContainsEdge(v, u)
    {
      var i := nodeValues[v];
      var ns := GetNeighbors(v).value;
      if u in ns {
        var k :| 0 <= k < |ns| && ns[k] == u;
        var t := adjList[i][k];
        assert nodeValues[indices[t]] == t;
      }
      if ContainsEdge(v, u) {
        var t := nodeValues[u];
        var k :| 0 <= k < |adjList[i]| && adjList[i][k] == t;
        assert ns[k] == u;
      }
    }

    /** The labels mapped through `copy` are pairwise distinct. */
    ghost predicate CopiesDistinct<M>(copy: L -> M)
      reads this
      requires Valid()
    {
      ImagesDistinct(copy, indices, nodeCount)
    }

    /**
     * A fresh graph with every label mapped through `copy`: one node per label
     * (in first-insertion order of the labels), then every edge replayed.
     * When the copied labels are distinct it has the same nodes, in the same
     * order, and the same edges.
     */
    method Clone<M(==)>(copy: L -> M) returns (c: Graph<M>)
      requires Valid()
      ensures fresh(c) && c.Valid()
      ensures CopiesDistinct(copy) ==>
        && c.nodeCount == nodeCount && c.edgeCount == edgeCount
        && EdgeSet(c.adjList) == EdgeSet(adjList)
        && (forall i :: 0 <= i < nodeCount ==> c.indices[i] == copy(indices[i]))
    {
      var edges := GetEdges();
      ghost var ok := CopiesDistinct(copy);
      c := new Graph<M>();
      var nodeMap := c.AddCopies(nodeCount, indices, copy);
      c.AddEdges(edges, nodeMap, adjList, indices, ok);
    }

    /**
     * The node half of `Clone`, run on the empty copy: scans the indices
     * `0..n-1` of the source and adds a node for the image of each label not
     * seen before. A label's first insertion is at the first index that
     * carries it, so this visits the labels in their first-insertion order.
     * When the images are distinct, node `k` of the copy carries the image of
     * the source's label `k`.
     */
    method AddCopies<S(==)>(n: int, ix: map<int, S>, copy: S -> L) returns (nodeMap: map<S, L>)
      requires Valid() && nodeCount == 0 && 0 <= n
      requires forall k :: 0 <= k < n ==> k in ix
      modifies this
      ensures Valid() && edgeCount == old(edgeCount)
      ensures forall v :: v in nodeMap ==> nodeMap[v] == copy(v)
      ensures forall k :: 0 <= k < n ==> ix[k] in nodeMap
      ensures ImagesDistinct(copy, ix, n) ==>
        && nodeCount == n
        && (forall k :: 0 <= k < n ==> indices[k] == copy(ix[k]) && copy(ix[k]) in nodeValues && nodeValues[copy(ix[k])] == k)
        && (forall k :: 0 <= k < n ==> nodeMap[ix[k]] in nodeValues && nodeValues[nodeMap[ix[k]]] == k)
    {
      ghost var ok := ImagesDistinct(copy, ix, n);
      nodeMap := map[];
      var i := 0;
      while i < n
        invariant 0 <= i <= n
        invariant Valid() && edgeCount == old(edgeCount)
        invariant forall v :: v in nodeMap ==> nodeMap[v] == copy(v)
        invariant forall k :: 0 <= k < i ==> ix[k] in nodeMap
        invariant ok ==> nodeCount == i
        invariant ok ==> forall k :: 0 <= k < i ==> indices[k] == copy(ix[k]) && copy(ix[k]) in nodeValues && nodeValues[copy(ix[k])] == k
        invariant ok ==> forall k :: i <= k < n ==> ix[k] !in nodeMap
      {
        var node := ix[i];
        if node !in nodeMap {
          var nodeClone := copy(node);
          AddNode(nodeClone);
          nodeMap := nodeMap[node := nodeClone];
        }
        i := i + 1;
      }
    }

    /**
     * The edge-replay half of `Clone`, run on the copy: for each labelled edge
     * of the source list `adj`, adds the edge between the images of its ends.
     * When `exact` holds, source node `k` was copied to node `k` here, and
     * exactly the source's edges are added.
     */
    method AddEdges<S>(edges: seq<(S, S)>, nodeMap: map<S, L>, ghost adj: AdjList, ghost ix: map<int, S>, ghost exact: bool)
      requires Valid() && edgeCount == 0
      requires InRange(adj) && NoDuplicates(adj) && forall k :: 0 <= k < |adj| ==> k in ix
      requires edges == LabelEdges(ix, UpperEdges(adj))
      requires forall k :: 0 <= k < |adj| ==> ix[k] in nodeMap
      requires exact ==> forall k :: 0 <= k < |adj| ==> nodeMap[ix[k]] in nodeValues && nodeValues[nodeMap[ix[k]]] == k
      modifies this
      ensures Valid()
      ensures nodeCount == old(nodeCount) && nodeValues == old(nodeValues) && indices == old(indices)
      ensures exact ==> EdgeSet(adjList) == EdgeSet(adj) && edgeCount == |EdgeSet(adj)|
    {
      ghost var es := UpperEdges(adj);
      LabelledEndsKnown(adj, ix, edges, nodeMap);
      if exact {
        LabelledEdgesReplay(adj, ix, edges, nodeMap, nodeValues);
      }
      var k := 0;
      while k < |edges|
        invariant 0 <= k <= |edges|
        invariant Valid()
        invariant nodeCount == old(nodeCount) && nodeValues == old(nodeValues) && indices == old(indices)
        invariant exact ==> EdgeSet(adjList) == Elems(es[..k]) && edgeCount == k
      {
        ReplayEdge(edges, nodeMap, es, k, exact);
        k := k + 1;
      }
      assert es[..|es|] == es;
      if exact {
        UpperEdgesIsEdgeSet(adj);
        UpperEdgesElems(adj);
      }
    }

    /** One step of `AddEdges`: the edge between the images of the ends of `edges[k]`. */
    method ReplayEdge<S>(edges: seq<(S, S)>, nodeMap: map<S, L>, ghost es: seq<(int, int)>, k: int, ghost exact: bool)
      requires Valid() && 0 <= k < |edges|
      requires edges[k].0 in nodeMap && edges[k].1 in nodeMap
      requires exact ==> Replays(edges, nodeMap, nodeValues, es) && EdgeSet(adjList) == Elems(es[..k]) && edgeCount == k
      modifies this
      ensures Valid()
      ensures nodeCount == old(nodeCount) && nodeValues == old(nodeValues) && indices == old(indices)
      ensures exact ==> EdgeSet(adjList) == Elems(es[..k + 1]) && edgeCount == k + 1
    {
      var start := nodeMap[edges[k].0];
      var end := nodeMap[edges[k].1];
      if exact {
        ContainsEdgeIsEdgeSet(start, end);
        DistinctNotInPrefix(es, k);
        ElemsPrefixStep(es, k);
      }
      var _ := AddEdge(start, end);
    }
  }

  /** Appending both arcs of an edge `{i, j}` not yet present keeps the list simple and undirected. */
  lemma AddEdgeKeepsUndirected(adj: AdjList, i: int, j: int)
    requires Undirected(adj) && 0 <= i < |adj| && 0 <= j < |adj| && i != j
    requires j !in adj[i] || i !in adj[j]
    ensures Undirected(AddArc(AddArc(adj, i, j), j, i))
  {
    assert j !in adj[i] && i !in adj[j];
    AddArcKeepsSimple(adj, i, j);
    AddArcKeepsSimple(AddArc(adj, i, j), j, i);
    var r := AddArc(AddArc(adj, i, j), j, i);
    forall x, y | 0 <= x < |r| && 0 <= y < |r| && y in r[x] ensures x in r[y] {
      if !(x == i && y == j) && !(x == j && y == i) {
        assert y in adj[x];
      }
    }
  }

  /** ... and adds exactly the edge `{i, j}`, which was not in the edge set before. */
  lemma AddEdgeGrowsEdgeSet(adj: AdjList, i: int, j: int)
    requires Symmetric(adj) && 0 <= i < |adj| && 0 <= j < |adj| && i != j
    requires j !in adj[i] || i !in adj[j]
    ensures EdgeSet(AddArc(AddArc(adj, i, j), j, i)) == EdgeSet(adj) + {Pair(i, j)}
    ensures |EdgeSet(AddArc(AddArc(adj, i, j), j, i))| == |EdgeSet(adj)| + 1
  {
    EdgeSetAddEdge(adj, i, j);
    EdgeSetAdjacent(adj, i, j);
  }

  /** The directed store's invariant, on the values of its fields. */
  ghost predicate DigraphInv<L>(adj: AdjList, n: int, m: int, nodeValues: map<L, int>, indices: map<int, L>) {
    && n == |adj|
    && InRange(adj) && NoDuplicates(adj) && Loopless(adj)
    && m == |ArcSet(adj)|
    && LabelMaps(n, nodeValues, indices)
  }

  /** A new node `v` with an empty row keeps the invariant. */
  lemma DigraphInvAddNode<L>(adj: AdjList, n: int, m: int, nodeValues: map<L, int>, indices: map<int, L>, v: L)
    requires DigraphInv(adj, n, m, nodeValues, indices)
    ensures DigraphInv(adj + [[]], n + 1, m, nodeValues[v := n], indices[n := v])
  {
    var r := adj + [[]];
    assert ArcSet(r) == ArcSet(adj) by {
      forall e | e in ArcSet(r) ensures e in ArcSet(adj) {
        assert e.1 in r[e.0];
      }
    }
  }

  /** Appending a new arc `i -> j` between distinct nodes keeps the rows in range, duplicate-free and loop-free. */
  lemma AddArcKeepsSimple(adj: AdjList, i: int, j: int)
    requires InRange(adj) && NoDuplicates(adj) && Loopless(adj)
    requires 0 <= i < |adj| && 0 <= j < |adj| && i != j && j !in adj[i]
    ensures InRange(AddArc(adj, i, j)) && NoDuplicates(AddArc(adj, i, j)) && Loopless(AddArc(adj, i, j))
  {
    var r := AddArc(adj, i, j);
    forall x | 0 <= x < |r| ensures Distinct(r[x]) {
      assert Distinct(adj[x]);
    }
  }

  /** Appending a new arc `i -> j` between distinct nodes keeps the invariant, with one more arc. */
  lemma DigraphInvLink<L>(adj: AdjList, n: int, m: int, nodeValues: map<L, int>, indices: map<int, L>, i: int, j: int)
    requires DigraphInv(adj, n, m, nodeValues, indices)
    requires 0 <= i < n && 0 <= j < n && i != j && j !in adj[i]
    ensures DigraphInv(AddArc(adj, i, j), n, m + 1, nodeValues, indices)
    ensures ArcSet(AddArc(adj, i, j)) == ArcSet(adj) + {(i, j)}
  {
    ArcSetAddArc(adj, i, j);
    AddArcKeepsSimple(adj, i, j);
  }

  /** Appending a new arc `(i, j)` adds exactly that arc to the arc set. */
  lemma ArcSetAddArc(adj: AdjList, i: int, j: int)
    requires 0 <= i < |adj|
    ensures ArcSet(AddArc(adj, i, j)) == ArcSet(adj) + {(i, j)}
  {
    var r := AddArc(adj, i, j);
    forall e | e in ArcSet(r) ensures e in ArcSet(adj) + {(i, j)} {
      if e != (i, j) {
        assert e.1 in adj[e.0];
      }
    }
    assert j in r[i];
  }

  /** Labelling one more pair appends its label pair. */
  lemma LabelEdgesSnoc<L>(indices: map<int, L>, es: seq<(int, int)>, e: (int, int))
    requires forall k :: 0 <= k < |es| ==> es[k].0 in indices && es[k].1 in indices
    requires e.0 in indices && e.1 in indices
    ensures LabelEdges(indices, es + [e]) == LabelEdges(indices, es) + [(indices[e.0], indices[e.1])]
  {
    var r, s := LabelEdges(indices, es + [e]), LabelEdges(indices, es) + [(indices[e.0], indices[e.1])];
    assert |r| == |s|;
    forall k | 0 <= k < |r| ensures r[k] == s[k] {
      assert (es + [e])[k] == if k < |es| then es[k] else e;
    }
  }

  /**
   * The inner loop of the undirected `GetEdges`: the pairs `(i, t)` for the
   * targets `t` of row `i` not yet marked, which with nodes `0..i` marked are
   * those above `i`.
   */
  method UnmarkedTargets(marked: array<bool>, i: int, row: seq<int>) returns (out: seq<(int, int)>)
    requires forall j :: 0 <= j < |row| ==> 0 <= row[j] < marked.Length
    requires forall k :: 0 <= k < marked.Length ==> marked[k] == (k <= i)
    ensures out == RowUpper(i, row)
  {
    out := [];
    var j := 0;
    while j < |row|
      invariant 0 <= j <= |row|
      invariant out == RowUpper(i, row[..j])
    {
      var targetIndex := row[j];
      assert row[..j + 1][..j] == row[..j];
      if !marked[targetIndex] {
        out := out + [(i, row[j])];
      }
      j := j + 1;
    }
    assert row[..|row|] == row;
  }

  /** Labelling distributes over concatenation. */
  lemma LabelEdgesAppend<L>(indices: map<int, L>, xs: seq<(int, int)>, ys: seq<(int, int)>)
    requires forall k :: 0 <= k < |xs| ==> xs[k].0 in indices && xs[k].1 in indices
    requires forall k :: 0 <= k < |ys| ==> ys[k].0 in indices && ys[k].1 in indices
    ensures LabelEdges(indices, xs + ys) == LabelEdges(indices, xs) + LabelEdges(indices, ys)
  {
    var r, s := LabelEdges(indices, xs + ys), LabelEdges(indices, xs) + LabelEdges(indices, ys);
    assert |r| == |s|;
    forall k | 0 <= k < |r| ensures r[k] == s[k] {
      assert (xs + ys)[k] == if k < |xs| then xs[k] else ys[k - |xs|];
    }
  }

  /** The nested loops of the directed `GetEdges`: every arc, labelled, row by row and in row order. */
  method LabelArcs<L>(adj: AdjList, indices: map<int, L>) returns (edges: seq<(L, L)>)
    requires InRange(adj) && forall k :: 0 <= k < |adj| ==> k in indices
    ensures Within(Arcs(adj), |adj|)
    ensures edges == LabelEdges(indices, Arcs(adj))
  {
    edges := [];
    var i := 0;
    while i < |adj|
      invariant 0 <= i <= |adj|
      invariant Within(ArcsUpTo(adj, i), |adj|)
      invariant edges == LabelEdges(indices, ArcsUpTo(adj, i))
    {
      ArcsUpToWithin(adj, i + 1);
      var row := adj[i];
      var rowEdges := LabelRow(indices, i, row);
      LabelEdgesAppend(indices, ArcsUpTo(adj, i), RowArcs(i, row));
      edges := edges + rowEdges;
      i := i + 1;
    }
  }

  /** The inner loop of the directed `GetEdges`: the arcs leaving node `i`, labelled, in row order. */
  method LabelRow<L>(indices: map<int, L>, i: int, row: seq<int>) returns (rowEdges: seq<(L, L)>)
    requires i in indices && forall j :: 0 <= j < |row| ==> row[j] in indices
    ensures rowEdges == LabelEdges(indices, RowArcs(i, row))
  {
    rowEdges := [];
    var j := 0;
    while j < |row|
      invariant 0 <= j <= |row|
      invariant rowEdges == LabelEdges(indices, RowArcs(i, row[..j]))
    {
      assert row[..j + 1][..j] == row[..j];
      LabelEdgesSnoc(indices, RowArcs(i, row[..j]), (i, row[j]));
      rowEdges := rowEdges + [(indices[i], indices[row[j]])];
      j := j + 1;
    }
    assert row[..|row|] == row;
  }

  /**
   * The directed variant: `AddEdge` inserts one arc, `ContainsEdge` and
   * `GetEdges` look at one direction. Its `AddNode` is the undirected one.
   */
  class Digraph<L(==)> {
    var adjList: AdjList
    var nodeCount: int
    var edgeCount: int
    var nodeValues: map<L, int>
    var indices: map<int, L>

    /** A loop-free adjacency list without parallel arcs; `edgeCount` counts arcs. */
    ghost predicate Valid()
      reads this
    {
      DigraphInv(adjList, nodeCount, edgeCount, nodeValues, indices)
    }

    ghost predicate DistinctLabels()
      reads this
      requires Valid()
    {
      forall i :: 0 <= i < nodeCount ==> nodeValues[indices[i]] == i
    }

    constructor ()
      ensures Valid()
      ensures adjList == [] && nodeCount == 0 && edgeCount == 0
      ensures nodeValues == map[] && indices == map[]
    {
      adjList := [];
      nodeCount := 0;
      edgeCount := 0;
      nodeValues := map[];
      indices := map[];
    }

    method AddNode(v: L)
      requires Valid()
      modifies this
      ensures Valid()
      ensures adjList == old(adjList) + [[]]
      ensures nodeCount == old(nodeCount) + 1 && edgeCount == old(edgeCount)
      ensures nodeValues == old(nodeValues)[v := old(nodeCount)]
      ensures indices == old(indices)[old(nodeCount) := v]
    {
      DigraphInvAddNode(adjList, nodeCount, edgeCount, nodeValues, indices, v);
      adjList := adjList + [[]];
      nodeValues := nodeValues[v := nodeCount];
      indices := indices[nodeCount := v];
      nodeCount := nodeCount + 1;
    }

    /**
     * Adds the arc from `a` to `b` unless it is present. Answers true whenever
     * both labels are present and distinct, whether or not the arc was new.
     */
    method AddEdge(a: L, b: L) returns (added: bool)
      requires Valid()
      modifies this
      ensures Valid()
      ensures added <==> a != b && a in old(nodeValues) && b in old(nodeValues)
      ensures nodeCount == old(nodeCount) && nodeValues == old(nodeValues) && indices == old(indices)
      ensures added && !old(ContainsEdge(a, b)) ==>
        && adjList == AddArc(old(adjList), nodeValues[a], nodeValues[b])
        && ArcSet(adjList) == old(ArcSet(adjList)) + {(nodeValues[a], nodeValues[b])}
        && edgeCount == old(edgeCount) + 1
      ensures !added || old(ContainsEdge(a, b)) ==> adjList == old(adjList) && edgeCount == old(edgeCount)
    {
      if a == b {
        return false;
      }
      var containsNodes := a in nodeValues && b in nodeValues;
      added := false;
      if containsNodes {
        var index1 := nodeValues[a];
        var index2 := nodeValues[b];
        var oneTwoExists := index2 in adjList[index1];
        added := true;
        if !oneTwoExists {
          Link(index1, index2);
        }
      }
    }

    /** Appends `j` to the row of `i`, a new arc between distinct nodes. */
    method Link(i: int, j: int)
      requires Valid() && 0 <= i < nodeCount && 0 <= j < nodeCount && i != j && j !in adjList[i]
      modifies this
      ensures Valid()
      ensures adjList == AddArc(old(adjList), i, j)
      ensures ArcSet(adjList) == old(ArcSet(adjList)) + {(i, j)}
      ensures edgeCount == old(edgeCount) + 1
      ensures nodeCount == old(nodeCount) && nodeValues == old(nodeValues) && indices == old(indices)
    {
      DigraphInvLink(adjList, nodeCount, edgeCount, nodeValues, indices, i, j);
      adjList := AddArc(adjList, i, j);
      edgeCount := edgeCount + 1;
    }

    /** Both labels are present and the arc from `a` to `b` is listed. */
    predicate ContainsEdge(a: L, b: L)
      reads this
      requires Valid()
      ensures ContainsEdge(a, b) <==> a in nodeValues && b in nodeValues && (nodeValues[a], nodeValues[b]) in ArcSet(adjList)
      ensures ContainsEdge(a, b) ==> nodeValues[a] != nodeValues[b]
    {
      if a !in nodeValues || b !in nodeValues then false
      else nodeValues[b] in adjList[nodeValues[a]]
    }

    /** Every arc as a `(from, to)` pair of labels, row by row and in row order. */
    method GetEdges() returns (edges: seq<(L, L)>)
      requires Valid()
      ensures edges == LabelEdges(indices, Arcs(adjList))
      ensures |edges| == edgeCount
    {
      edges := LabelArcs(adjList, indices);
      ArcsIsArcSet(adjList);
    }

    /** With distinct labels, `(a, b)` is among the listed arcs exactly when the graph holds the arc. */
    lemma GetEdgesIsContainsEdge(a: L, b: L)
      requires Valid() && DistinctLabels()
      ensures (a, b) in LabelEdges(indices, Arcs(adjList)) <==> ContainsEdge(a, b)
    {
      var es := Arcs(adjList);
      var edges := LabelEdges(indices, es);
      ArcsMembers(adjList);
      if (a, b) in edges {
        var k :| 0 <= k < |edges| && edges[k] == (a, b);
        assert es[k] in es;
      }
      if ContainsEdge(a, b) {
        var e := (nodeValues[a], nodeValues[b]);
        assert e in es;
        var k :| 0 <= k < |es| && es[k] == e;
        assert edges[k] == (a, b);
      }
    }
  }
}
