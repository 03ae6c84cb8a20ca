/**
 * Connected components and induced subgraphs of the undirected store:
 * `memoizeCC` marks everything reachable from a node by depth-first search,
 * `getConnectedComponent` collects the marked indices, and `subGraph` copies
 * a list of nodes with the edges among them into a fresh graph.
 */
module Components {
  import opened Structure
  import opened GraphStore

  // ---------------------------------------------------------------------------
  // Depth-first marking

  /** The unmarked positions of `s`. */
  function Unvisited(s: seq<bool>): set<int> {
    set v | 0 <= v < |s| && !s[v]
  }

  /** Marking more positions leaves fewer unmarked ones. */
  lemma UnvisitedShrinks(a: seq<bool>, b: seq<bool>)
    requires |a| == |b| && forall v :: 0 <= v < |a| && a[v] ==> b[v]
    ensures |Unvisited(b)| <= |Unvisited(a)|
  {
    assert Unvisited(b) <= Unvisited(a);
    SubsetCard(Unvisited(b), Unvisited(a));
  }

  /** Marking an unmarked position leaves one fewer. */
  lemma MarkShrinks(a: seq<bool>, i: int)
    requires 0 <= i < |a| && !a[i]
    ensures |Unvisited(a[i := true])| == |Unvisited(a)| - 1
  {
    assert Unvisited(a[i := true]) == Unvisited(a) - {i};
  }

  /**
   * `memoizeCC`: marks `nodeIx`, then recurses into each neighbour not yet
   * marked. Only marks are added. Every newly marked node is reachable from
   * `nodeIx`, and every neighbour of a newly marked node ends up marked.
   */
  method MemoizeCC(nodeIx: int, adj: AdjList, visited: array<bool>)
    requires InRange(adj) && visited.Length == |adj| && 0 <= nodeIx < |adj|
    modifies visited
    ensures visited[nodeIx]
    ensures forall v :: 0 <= v < |adj| && old(visited[v]) ==> visited[v]
    ensures forall v :: 0 <= v < |adj| && visited[v] && !old(visited[v]) ==> Reachable(adj, nodeIx, v)
    ensures forall u, k :: 0 <= u < |adj| && visited[u] && !old(visited[u]) && 0 <= k < |adj[u]| ==> visited[adj[u][k]]
    decreases |Unvisited(visited[..])|, if visited[nodeIx] then 1 else 0
  {
    ghost var entry := visited[..];
    if !visited[nodeIx] {
      MarkShrinks(entry, nodeIx);
    } else {
      assert entry[nodeIx := true] == entry;
    }
    visited[nodeIx] := true;
    assert visited[..] == entry[nodeIx := true];
    ReachableSelf(adj, nodeIx);
    var i := 0;
    while i < |adj[nodeIx]|
      invariant 0 <= i <= |adj[nodeIx]|
      invariant visited[nodeIx]
      invariant forall v :: 0 <= v < |adj| && old(visited[v]) ==> visited[v]
      invariant forall v :: 0 <= v < |adj| && visited[v] && !old(visited[v]) ==> Reachable(adj, nodeIx, v)
      invariant forall u, k :: 0 <= u < |adj| && u != nodeIx && visited[u] && !old(visited[u]) && 0 <= k < |adj[u]| ==> visited[adj[u][k]]
      invariant forall k :: 0 <= k < i ==> visited[adj[nodeIx][k]]
      invariant |Unvisited(visited[..])| < |Unvisited(old(visited[..]))|
             || (|Unvisited(visited[..])| == |Unvisited(old(visited[..]))| && old(visited[nodeIx]))
    {
      var targetIndex := adj[nodeIx][i];
      if !visited[targetIndex] {
        ghost var before := visited[..];
        MemoizeCC(targetIndex, adj, visited);
        UnvisitedShrinks(before, visited[..]);
        forall v | 0 <= v < |adj| && visited[v] && !before[v] ensures Reachable(adj, nodeIx, v) {
          ReachableStep(adj, nodeIx, targetIndex, v);
        }
      }
      i := i + 1;
    }
  }

  /** The marked positions of `flags`, in increasing order. */
  function Marked(flags: seq<bool>): (r: seq<int>)
    ensures forall k :: 0 <= k < |r| ==> 0 <= r[k] < |flags| && flags[r[k]]
  {
    if flags == [] then []
    else Marked(flags[..|flags| - 1]) + (if flags[|flags| - 1] then [|flags| - 1] else [])
  }

  /** `Marked` lists each marked position once, in increasing order, and nothing else. */
  lemma {:induction false} MarkedMembers(flags: seq<bool>)
    ensures forall v :: v in Marked(flags) <==> 0 <= v < |flags| && flags[v]
    ensures forall a, b :: 0 <= a < b < |Marked(flags)| ==> Marked(flags)[a] < Marked(flags)[b]
  {
    if flags != [] {
      var init := flags[..|flags| - 1];
      MarkedMembers(init);
      assert forall v :: 0 <= v < |init| ==> init[v] == flags[v];
    }
  }

  // ---------------------------------------------------------------------------
  // Induced subgraphs

  /** The entries of `ns` that name one of the nodes `0..n-1`, in order; `subGraph` skips the others. */
  function Kept(ns: seq<int>, n: int): (r: seq<int>)
    ensures |r| <= |ns|
    ensures forall k :: 0 <= k < |r| ==> 0 <= r[k] < n
  {
    if ns == [] then []
    else Kept(ns[..|ns| - 1], n) + (if 0 <= ns[|ns| - 1] < n then [ns[|ns| - 1]] else [])
  }

  /** `Kept` keeps exactly the entries in range. */
  lemma {:induction false} KeptMembers(ns: seq<int>, n: int)
    ensures forall x :: x in Kept(ns, n) <==> x in ns && 0 <= x < n
  {
    if ns != [] {
      var init := ns[..|ns| - 1];
      KeptMembers(init, n);
      assert ns == init + [ns[|ns| - 1]];
    }
  }

  /** Entries kept apart stay apart. */
  lemma {:induction false} KeptDistinct(ns: seq<int>, n: int)
    requires Distinct(ns)
    ensures Distinct(Kept(ns, n))
  {
    if ns != [] {
      var init := ns[..|ns| - 1];
      KeptDistinct(init, n);
      KeptMembers(init, n);
      assert ns[|ns| - 1] !in init;
    }
  }

  /** A prefix of the entries keeps a prefix of what the whole keeps. */
  lemma {:induction false} KeptPrefix(ns: seq<int>, n: int, k: int)
    requires 0 <= k <= |ns|
    ensures Kept(ns[..k], n) <= Kept(ns, n)
    decreases |ns|
  {
    if k < |ns| {
      var init := ns[..|ns| - 1];
      KeptPrefix(init, n, k);
      assert init[..k] == ns[..k];
    } else {
      assert ns[..k] == ns;
    }
  }

  /** The pairs `subGraph` asks `g` to join: `source` with each of `targets` that `g` holds, other than itself. */
  ghost function Joins<L>(nodeValues: map<L, int>, source: L, targets: seq<L>): set<(int, int)>
    requires source in nodeValues
  {
    set t | t in targets && t in nodeValues && t != source :: Pair(nodeValues[source], nodeValues[t])
  }

  /** One more target adds its pair, when `g` holds it and it is not `source`. */
  lemma JoinsSnoc<L>(nodeValues: map<L, int>, source: L, targets: seq<L>, j: int)
    requires source in nodeValues && 0 <= j < |targets|
    ensures Joins(nodeValues, source, targets[..j + 1]) ==
      Joins(nodeValues, source, targets[..j]) +
      (if targets[j] in nodeValues && targets[j] != source
       then {Pair(nodeValues[source], nodeValues[targets[j]])} else {})
  {
    assert targets[..j + 1] == targets[..j] + [targets[j]];
  }

  /**
   * One step of the inner loop of `subGraph`: `addEdge(source, targets[j])`
   * when `g` holds `targets[j]`; the edges joined so far then take in
   * `targets[j]`.
   */
  method JoinTarget<L(==)>(g: Graph<L>, source: L, targets: seq<L>, j: int, ghost edges: set<(int, int)>)
    requires g.Valid() && source in g.nodeValues && 0 <= j < |targets|
    requires EdgeSet(g.adjList) == edges + Joins(g.nodeValues, source, targets[..j])
    modifies g
    ensures g.Valid()
    ensures g.nodeCount == old(g.nodeCount) && g.nodeValues == old(g.nodeValues) && g.indices == old(g.indices)
    ensures EdgeSet(g.adjList) == edges + Joins(g.nodeValues, source, targets[..j + 1])
  {
    JoinsSnoc(g.nodeValues, source, targets, j);
    Join(g, source, targets[j]);
  }

  /**
   * `addEdge(a, b)` when `g` holds `b`: the edge set takes in their pair
   * unless `b` is missing or is `a` itself.
   */
  method Join<L(==)>(g: Graph<L>, a: L, b: L)
    requires g.Valid() && a in g.nodeValues
    modifies g
    ensures g.Valid()
    ensures g.nodeCount == old(g.nodeCount) && g.nodeValues == old(g.nodeValues) && g.indices == old(g.indices)
    ensures EdgeSet(g.adjList) == old(EdgeSet(g.adjList)) +
      (if b in g.nodeValues && b != a then {Pair(g.nodeValues[a], g.nodeValues[b])} else {})
  {
    if b in g.nodeValues {
      g.ContainsEdgeIsEdgeSet(a, b);
      var _ := g.AddEdge(a, b);
    }
  }

  /**
   * The inner loop of `subGraph`: joins `source` to each label of `targets`
   * that `g` holds, in order. `addEdge` turns down the label itself and the
   * edges already present, so the edge set grows by exactly the pairs named
   * and the labels stay as they were.
   */
  method AddEdgesFrom<L(==)>(g: Graph<L>, source: L, targets: seq<L>)
    requires g.Valid() && source in g.nodeValues
    modifies g
    ensures g.Valid()
    ensures g.nodeCount == old(g.nodeCount) && g.nodeValues == old(g.nodeValues) && g.indices == old(g.indices)
    ensures EdgeSet(g.adjList) == old(EdgeSet(g.adjList)) + Joins(g.nodeValues, source, targets)
  {
    ghost var edges := EdgeSet(g.adjList);
    assert targets[..0] == [];
    var j := 0;
    while j < |targets|
      invariant 0 <= j <= |targets|
      invariant g.Valid()
      invariant g.nodeCount == old(g.nodeCount) && g.nodeValues == old(g.nodeValues) && g.indices == old(g.indices)
      invariant EdgeSet(g.adjList) == edges + Joins(g.nodeValues, source, targets[..j])
    {
      JoinTarget(g, source, targets, j, edges);
      j := j + 1;
    }
    assert targets[..|targets|] == targets;
  }

  /** The edges among `kept`, renumbered by position, whose first end is one of the first `p` positions. */
  ghost function Induced(adj: AdjList, kept: seq<int>, p: int): set<(int, int)>
    requires forall k :: 0 <= k < |kept| ==> 0 <= kept[k] < |adj|
  {
    set a, b | 0 <= a < p && a < |kept| && 0 <= b < |kept| && a != b && kept[b] in adj[kept[a]] :: Pair(a, b)
  }

  /** The positions of `kept` name nodes of `adj`. */
  predicate NodesOf(kept: seq<int>, adj: AdjList) {
    forall k :: 0 <= k < |kept| ==> 0 <= kept[k] < |adj|
  }

  /** The neighbour labels `getNeighbors` hands out for the kept node at position `p`. */
  ghost predicate RowLabels<L>(adj: AdjList, indices: map<int, L>, u: int, targets: seq<L>)
    requires 0 <= u < |adj|
  {
    |targets| == |adj[u]| && forall k :: 0 <= k < |targets| ==> adj[u][k] in indices && targets[k] == indices[adj[u][k]]
  }

  /**
   * The labels of the new graph: position `a` carries the label of `kept[a]`,
   * which maps back to `a`, and no other label is present.
   */
  ghost predicate CopiedLabels<L>(kept: seq<int>, indices: map<int, L>, nodeValues: map<L, int>)
  {
    && (forall a :: 0 <= a < |kept| ==> kept[a] in indices && indices[kept[a]] in nodeValues && nodeValues[indices[kept[a]]] == a)
    && (forall x :: x in nodeValues ==> 0 <= nodeValues[x] < |kept| && kept[nodeValues[x]] in indices && x == indices[kept[nodeValues[x]]])
  }

  /** The source's labels tell its nodes apart. */
  ghost predicate Injective<L>(n: int, indices: map<int, L>, nodeValues: map<L, int>) {
    forall i :: 0 <= i < n ==> i in indices && indices[i] in nodeValues && nodeValues[indices[i]] == i
  }

  /** The pairs joined for the kept node at position `p` are that node's edges to the other kept nodes. */
  lemma JoinsIsRow<L>(adj: AdjList, indices: map<int, L>, nodeValues: map<L, int>, kept: seq<int>, p: int,
                      copied: map<L, int>, targets: seq<L>)
    requires InRange(adj) && NodesOf(kept, adj) && 0 <= p < |kept| && Injective(|adj|, indices, nodeValues)
    requires RowLabels(adj, indices, kept[p], targets) && CopiedLabels(kept, indices, copied)
    ensures Joins(copied, indices[kept[p]], targets) ==
      set b | 0 <= b < |kept| && b != p && kept[b] in adj[kept[p]] :: Pair(p, b)
  {
    var u := kept[p];
    var source := indices[u];
    var row := set b | 0 <= b < |kept| && b != p && kept[b] in adj[u] :: Pair(p, b);
    forall e | e in Joins(copied, source, targets) ensures e in row {
      var t :| t in targets && t in copied && t != source && e == Pair(copied[source], copied[t]);
      var k :| 0 <= k < |targets| && targets[k] == t;
      var b := copied[t];
      assert nodeValues[indices[adj[u][k]]] == adj[u][k];
      assert kept[b] == adj[u][k];
    }
    forall e | e in row ensures e in Joins(copied, source, targets) {
      var b :| 0 <= b < |kept| && b != p && kept[b] in adj[u] && e == Pair(p, b);
      var k :| 0 <= k < |adj[u]| && adj[u][k] == kept[b];
      var t := indices[kept[b]];
      assert targets[k] == t;
      assert nodeValues[t] == kept[b] && nodeValues[source] == u;
    }
  }

  /** Taking in the row of position `p` extends the induced edges by that row. */
  lemma InducedStep(adj: AdjList, kept: seq<int>, p: int)
    requires NodesOf(kept, adj) && 0 <= p < |kept|
    ensures Induced(adj, kept, p + 1) ==
      Induced(adj, kept, p) + set b | 0 <= b < |kept| && b != p && kept[b] in adj[kept[p]] :: Pair(p, b)
  {
  }

  /** Once every row is taken in, the renumbered graph joins two positions exactly when `adj` joins their nodes. */
  lemma InducedAdjacent(adj: AdjList, kept: seq<int>, sub: AdjList)
    requires NodesOf(kept, adj) && Distinct(kept) && Loopless(adj) && Symmetric(adj)
    requires |sub| == |kept| && Loopless(sub) && Symmetric(sub) && EdgeSet(sub) == Induced(adj, kept, |kept|)
    ensures forall a, b :: 0 <= a < |kept| && 0 <= b < |kept| ==> (b in sub[a] <==> kept[b] in adj[kept[a]])
  {
    forall a, b | 0 <= a < |kept| && 0 <= b < |kept| ensures b in sub[a] <==> kept[b] in adj[kept[a]] {
      if a != b {
        EdgeSetAdjacent(sub, a, b);
        if kept[b] in adj[kept[a]] {
          assert Pair(a, b) in Induced(adj, kept, |kept|);
        }
        if Pair(a, b) in Induced(adj, kept, |kept|) {
          var x, y :| 0 <= x < |kept| && 0 <= y < |kept| && x != y && kept[y] in adj[kept[x]] && Pair(a, b) == Pair(x, y);
          if x != a {
            assert kept[x] in adj[kept[y]];
          }
        }
      }
    }
  }

  /** The new graph holds a bare node for each kept entry among the first `k`, labelled as in `graph`. */
  ghost predicate NodesCopied<L>(g: Graph<L>, nodeIndices: seq<int>, graph: Graph<L>, k: int, exact: bool)
    reads g, graph
    requires 0 <= k <= |nodeIndices|
  {
    && g.Valid() && graph.Valid() && g.edgeCount == 0 && g.adjList == seq(g.nodeCount, _ => [])
    && g.nodeCount == |Kept(nodeIndices[..k], graph.nodeCount)|
    && (forall a :: 0 <= a < g.nodeCount ==> g.indices[a] == graph.indices[Kept(nodeIndices[..k], graph.nodeCount)[a]])
    && (exact ==> g.DistinctLabels())
  }

  /** One step of the first loop of `subGraph`: the node for `nodeIndices[k]`, when it names one. */
  method AddKeptNode<L(==)>(g: Graph<L>, nodeIndices: seq<int>, graph: Graph<L>, k: int, ghost exact: bool)
    requires 0 <= k < |nodeIndices| && g != graph
    requires exact ==> Distinct(nodeIndices) && graph.Valid() && graph.DistinctLabels()
    requires NodesCopied(g, nodeIndices, graph, k, exact)
    modifies g
    ensures NodesCopied(g, nodeIndices, graph, k + 1, exact)
  {
    ghost var n := graph.nodeCount;
    var index := nodeIndices[k];
    assert nodeIndices[..k + 1] == nodeIndices[..k] + [index];
    ghost var before := Kept(nodeIndices[..k], n);
    if index in graph.indices {
      if exact {
        KeptMembers(nodeIndices[..k], n);
        assert index !in before;
        assert forall a :: 0 <= a < g.nodeCount ==> g.indices[a] != graph.indices[index];
      }
      g.AddNode(graph.indices[index]);
    }
  }

  /**
   * The first loop of `subGraph`: adds a node, with its label, for each entry
   * of `nodeIndices` that names a node of `graph`, and skips the others.
   */
  method AddKeptNodes<L(==)>(g: Graph<L>, nodeIndices: seq<int>, graph: Graph<L>)
    requires g.Valid() && g.nodeCount == 0 && graph.Valid() && g != graph
    modifies g
    ensures g.Valid() && g.edgeCount == 0 && g.adjList == seq(g.nodeCount, _ => [])
    ensures g.nodeCount == |Kept(nodeIndices, graph.nodeCount)|
    ensures forall a :: 0 <= a < g.nodeCount ==> g.indices[a] == graph.indices[Kept(nodeIndices, graph.nodeCount)[a]]
    ensures Distinct(nodeIndices) && graph.DistinctLabels() ==> g.DistinctLabels()
  {
    ghost var exact := Distinct(nodeIndices) && graph.DistinctLabels();
    assert g.adjList == [];
    var k := 0;
    while k < |nodeIndices|
      invariant 0 <= k <= |nodeIndices|
      invariant NodesCopied(g, nodeIndices, graph, k, exact)
    {
      AddKeptNode(g, nodeIndices, graph, k, exact);
      k := k + 1;
    }
    assert nodeIndices[..|nodeIndices|] == nodeIndices;
  }

  /** The new graph so far: a node per kept entry, and the edges of the first `p` of them. */
  ghost predicate EdgesCopied<L>(g: Graph<L>, graph: Graph<L>, kept: seq<int>, p: int, exact: bool)
    reads g, graph
  {
    && g.Valid() && graph.Valid() && NodesOf(kept, graph.adjList) && g.nodeCount == |kept|
    && (forall a :: 0 <= a < |kept| ==> g.indices[a] == graph.indices[kept[a]])
    && (exact ==>
         && g.DistinctLabels() && graph.DistinctLabels() && Distinct(kept)
         && EdgeSet(g.adjList) == Induced(graph.adjList, kept, p))
  }

  /**
   * One pass of the second loop of `subGraph`, for the kept node at position
   * `p`: joins its label to each neighbour label the new graph holds.
   */
  method JoinRow<L(==)>(g: Graph<L>, graph: Graph<L>, ghost kept: seq<int>, ghost p: int, index: int, ghost exact: bool)
    requires g != graph && 0 <= p < |kept| && kept[p] == index
    requires EdgesCopied(g, graph, kept, p, exact)
    modifies g
    ensures EdgesCopied(g, graph, kept, p + 1, exact)
  {
    var sourceValue := graph.indices[index];
    var targets := graph.GetNeighbors(sourceValue).value;
    assert g.indices[p] == sourceValue;
    if exact {
      assert RowLabels(graph.adjList, graph.indices, index, targets);
      assert CopiedLabels(kept, graph.indices, g.nodeValues);
      JoinsIsRow(graph.adjList, graph.indices, graph.nodeValues, kept, p, g.nodeValues, targets);
      InducedStep(graph.adjList, kept, p);
    }
    AddEdgesFrom(g, sourceValue, targets);
  }

  /** Scanning entry `k` keeps it, as the next kept node, exactly when it names a node. */
  lemma KeptNext(ns: seq<int>, n: int, k: int)
    requires 0 <= k < |ns|
    ensures |Kept(ns[..k + 1], n)| == |Kept(ns[..k], n)| + (if 0 <= ns[k] < n then 1 else 0)
    ensures |Kept(ns[..k + 1], n)| <= |Kept(ns, n)|
    ensures 0 <= ns[k] < n ==> Kept(ns, n)[|Kept(ns[..k], n)|] == ns[k]
  {
    assert ns[..k + 1][..k] == ns[..k];
    KeptPrefix(ns, n, k + 1);
  }

  /**
   * The second loop of `subGraph`: for each entry that names a node of
   * `graph`, joins its label to the neighbour labels the new graph holds.
   */
  method AddKeptEdges<L(==)>(g: Graph<L>, nodeIndices: seq<int>, graph: Graph<L>, ghost exact: bool)
    requires g != graph && EdgesCopied(g, graph, Kept(nodeIndices, graph.nodeCount), 0, exact)
    modifies g
    ensures EdgesCopied(g, graph, Kept(nodeIndices, graph.nodeCount), |Kept(nodeIndices, graph.nodeCount)|, exact)
  {
    ghost var kept := Kept(nodeIndices, graph.nodeCount);
    ghost var p := 0;
    var k := 0;
    while k < |nodeIndices|
      invariant 0 <= k <= |nodeIndices| && p == |Kept(nodeIndices[..k], graph.nodeCount)|
      invariant EdgesCopied(g, graph, kept, p, exact)
    {
      p := JoinEntry(g, nodeIndices, graph, k, p, exact);
      k := k + 1;
    }
    KeptWhole(nodeIndices, graph.nodeCount);
  }

  lemma KeptWhole(ns: seq<int>, n: int)
    ensures |Kept(ns[..|ns|], n)| == |Kept(ns, n)|
  {
    assert ns[..|ns|] == ns;
  }

  /** One pass of `AddKeptEdges`: the entry `nodeIndices[k]`, joined if it names a node, the `p`-th one kept. */
  method JoinEntry<L(==)>(g: Graph<L>, nodeIndices: seq<int>, graph: Graph<L>, k: int, ghost p: int, ghost exact: bool)
    returns (ghost next: int)
    requires g != graph && 0 <= k < |nodeIndices| && p == |Kept(nodeIndices[..k], graph.nodeCount)|
    requires EdgesCopied(g, graph, Kept(nodeIndices, graph.nodeCount), p, exact)
    modifies g
    ensures next == |Kept(nodeIndices[..k + 1], graph.nodeCount)|
    ensures EdgesCopied(g, graph, Kept(nodeIndices, graph.nodeCount), next, exact)
  {
    var index := nodeIndices[k];
    KeptNext(nodeIndices, graph.nodeCount, k);
    next := p;
    if index in graph.indices {
      JoinRow(g, graph, Kept(nodeIndices, graph.nodeCount), p, index, exact);
      next := p + 1;
    }
  }

  /**
   * `subGraph`: a fresh graph with a node for each entry of `nodeIndices` that
   * names a node of `graph`, in order and with its label, and with the edges
   * `graph` has among those nodes. When the entries and `graph`'s labels are
   * distinct, two new nodes are joined exactly when their originals are.
   */
  method SubGraph<L(==)>(nodeIndices: seq<int>, graph: Graph<L>) returns (c: Graph<L>)
    requires graph.Valid()
    ensures fresh(c) && c.Valid()
    ensures c.nodeCount == |Kept(nodeIndices, graph.nodeCount)|
    ensures forall a :: 0 <= a < c.nodeCount ==> c.indices[a] == graph.indices[Kept(nodeIndices, graph.nodeCount)[a]]
    ensures Distinct(nodeIndices) && graph.DistinctLabels() ==>
      && c.DistinctLabels()
      && forall a, b :: 0 <= a < c.nodeCount && 0 <= b < c.nodeCount ==>
           (b in c.adjList[a] <==> Kept(nodeIndices, graph.nodeCount)[b] in graph.adjList[Kept(nodeIndices, graph.nodeCount)[a]])
  {
    c := new Graph<L>();
    AddKeptNodes(c, nodeIndices, graph);
    ghost var kept := Kept(nodeIndices, graph.nodeCount);
    ghost var exact := Distinct(nodeIndices) && graph.DistinctLabels();
    if exact {
      KeptDistinct(nodeIndices, graph.nodeCount);
      assert EdgeSet(c.adjList) == {};
    }
    AddKeptEdges(c, nodeIndices, graph, exact);
    if exact {
      InducedAdjacent(graph.adjList, kept, c.adjList);
    }
  }

  // ---------------------------------------------------------------------------
  // Connected components

  /** The nodes reachable from `s`, in increasing order. */
  ghost function Component(adj: AdjList, s: int): seq<int> {
    Marked(seq(|adj|, v => Reachable(adj, s, v)))
  }

  /** The nodes of a component are exactly those reachable, each listed once, in increasing order. */
  lemma ComponentMembers(adj: AdjList, s: int)
    ensures forall v :: v in Component(adj, s) <==> 0 <= v < |adj| && Reachable(adj, s, v)
    ensures forall a, b :: 0 <= a < b < |Component(adj, s)| ==> Component(adj, s)[a] < Component(adj, s)[b]
  {
    MarkedMembers(seq(|adj|, v => Reachable(adj, s, v)));
  }

  /** Entries that all name nodes are all kept. */
  lemma {:induction false} KeptAll(ns: seq<int>, n: int)
    requires forall k :: 0 <= k < |ns| ==> 0 <= ns[k] < n
    ensures Kept(ns, n) == ns
  {
    if ns != [] {
      KeptAll(ns[..|ns| - 1], n);
    }
  }

  /** The loop of `getConnectedComponent` that lists the marked indices. */
  method MarkedIndices(visited: array<bool>) returns (connectedIndices: seq<int>)
    ensures connectedIndices == Marked(visited[..])
  {
    connectedIndices := [];
    var i := 0;
    while i < visited.Length
      invariant 0 <= i <= visited.Length
      invariant connectedIndices == Marked(visited[..i])
    {
      assert visited[..i + 1][..i] == visited[..i];
      if visited[i] {
        connectedIndices := connectedIndices + [i];
      }
      i := i + 1;
    }
    assert visited[..visited.Length] == visited[..];
  }

  /**
   * `getConnectedComponent`: an empty graph when `node` is not a label of
   * `graph`; otherwise the subgraph on the nodes reachable from it, in
   * index order. With distinct labels it keeps every edge among them.
   */
  method GetConnectedComponent<L(==)>(node: L, graph: Graph<L>) returns (c: Graph<L>)
    requires graph.Valid()
    ensures fresh(c) && c.Valid()
    ensures node !in graph.nodeValues ==> c.nodeCount == 0 && c.edgeCount == 0
    ensures node in graph.nodeValues ==>
      var comp := Component(graph.adjList, graph.nodeValues[node]);
      && c.nodeCount == |comp|
      && (forall a :: 0 <= a < |comp| ==> c.indices[a] == graph.indices[comp[a]])
      && (graph.DistinctLabels() ==>
           && c.DistinctLabels()
           && forall a, b :: 0 <= a < |comp| && 0 <= b < |comp| ==> (b in c.adjList[a] <==> comp[b] in graph.adjList[comp[a]]))
  {
    if node !in graph.nodeValues {
      c := new Graph<L>();
      return;
    }
    var curIndex := graph.nodeValues[node];
    var connectedIndices := ComponentIndices(curIndex, graph.GetAdjList());
    ComponentMembers(graph.adjList, curIndex);
    KeptAll(connectedIndices, graph.nodeCount);
    c := SubGraph(connectedIndices, graph);
  }

  /** The search and the index scan of `getConnectedComponent`: the nodes reachable from `curIndex`, in increasing order. */
  method ComponentIndices(curIndex: int, adj: AdjList) returns (connectedIndices: seq<int>)
    requires InRange(adj) && 0 <= curIndex < |adj|
    ensures connectedIndices == Component(adj, curIndex)
  {
    var visited := new bool[|adj|](_ => false);
    MemoizeCC(curIndex, adj, visited);
    ReachableIsVisited(adj, curIndex, visited[..]);
    connectedIndices := MarkedIndices(visited);
  }

  /**
   * After a search from `s` over an all-unmarked array, the marks are the
   * nodes reachable from `s`: each mark is reachable, and the marks are
   * closed under adjacency.
   */
  lemma ReachableIsVisited(adj: AdjList, s: int, visited: seq<bool>)
    requires InRange(adj) && |visited| == |adj| && 0 <= s < |adj| && visited[s]
    requires forall v :: 0 <= v < |adj| && visited[v] ==> Reachable(adj, s, v)
    requires forall u, k :: 0 <= u < |adj| && visited[u] && 0 <= k < |adj[u]| ==> visited[adj[u][k]]
    ensures visited == seq(|adj|, v => Reachable(adj, s, v))
  {
    var marked := set v | 0 <= v < |adj| && visited[v];
    forall u, t | u in marked && 0 <= u < |adj| && t in adj[u] ensures t in marked {
      var k :| 0 <= k < |adj[u]| && adj[u][k] == t;
    }
    forall v | 0 <= v < |adj| && Reachable(adj, s, v) ensures visited[v] {
      ClosedSetHoldsReachable(adj, s, marked, v);
    }
  }
}
