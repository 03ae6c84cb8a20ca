# graph-builder-game: the graph engine in Dafny

This project is a Dafny model of the graph engine behind graph-builder-game,
a browser game in which the player draws a graph and is told which known
shapes it has. The game decides this with three parts, and each is modelled
here:

- **A labelled graph store.** `Graph` and `Digraph` keep an adjacency list
  of node indices, node and edge counters, and two maps between the
  caller's node labels and the indices. Nodes and edges are only ever added.
  `getEdgeIndices`, `getEdges` and `getNeighbors` read the store, and
  `clone` rebuilds it.
- **The algorithms over the store.** These are:
  - isomorphism by brute force over all permutations;
  - classifiers based on degree counts: complete, cycle, paw and star;
  - template classifiers: kayak paddle and butterfly;
  - `calculateGraphType`, which combines the classifiers;
  - the connected component of a node, found by depth-first search and cut
    out as an induced subgraph;
  - export to the DOT language of GraphViz.
- **The older copy of the algorithms.** It carries its own smaller `Graph`:
  a single `labels` map, an extra `directedEdgeCount`, no guard against
  self-edges, and an unguarded `isOneCycle`.

Modules:

| Module | What it holds |
|---|---|
| `Structure` | Plain adjacency lists (`seq<seq<int>>`) and the predicates over them: symmetric, loop-free, no duplicates, edge and arc sets, reachability. |
| `GraphStore` | The mutable classes `Graph` and `Digraph`, each with a `Valid()` invariant. |
| `Isomorphism` | `checkEdges`, `bruteForce` and `isomorphism`, proved against "some permutation maps edges to edges and keeps degrees". |
| `CycleWalk` | The walk of `isOneCycle`, proved to decide connectivity of a 2-regular graph. |
| `Classifiers` | The classifiers. They read only `nodeCount`, `edgeCount` and the adjacency list, passed in as a `GraphView` value, so both copies of the algorithms share them. |
| `Components` | `memoizeCC`, `subGraph` and `getConnectedComponent`. |
| `Dot` | `getDot`. |
| `Counting` | The handshake lemma and bounds on degrees. |
| `LegacyGraphAlgs` | The older `Graph` class and its cycle checkers. |

Integers are unbounded. This matches JavaScript numbers for every count
these graphs can reach.

## Model

| member | source | states |
|---|---|---|
| GraphStore.Graph.constructor | public/algorithms/graph.mjs:1-8 | A new graph is empty: no rows, both counters zero, both maps empty. It satisfies the store invariant. |
| GraphStore.Graph.AddNode | public/algorithms/graph.mjs:13-19 | Appends one empty row and increments `nodeCount`. Points the label at the new index in `nodeValues`, overwriting an earlier entry for the same label, and the index back at the label in `indices`. Leaves `edgeCount` unchanged and keeps the invariant. |
| GraphStore.Graph.AddEdge | public/algorithms/graph.mjs:26-53 | Returns true exactly when the labels differ, both are present and the edge is not yet there. In that case it appends each index to the other's row, the edge set gains exactly that pair, and `edgeCount` grows by 1. Otherwise nothing changes. Afterwards the edge is present both ways, so a repeated call, in either order, is refused. |
| GraphStore.Graph.ContainsEdge | public/algorithms/graph.mjs:56-65 | `containsEdge(a, b)` holds iff both labels are known and the index of `b` is in the row of `a`. It never holds for two labels that share an index, so a node is never its own neighbour. |
| GraphStore.Graph.ContainsEdgeIsEdgeSet | public/algorithms/graph.mjs:56-65 | `containsEdge(a, b)` holds iff both labels are known and the unordered pair of their indices is an edge. |
| GraphStore.Graph.View | public/algorithms/graph.mjs:1-8 | The counters and the adjacency list of a valid store form a simple undirected graph whose counters are its node and edge counts. |
| GraphStore.Graph.GetAdjList | public/algorithms/graph.mjs:68-70 | The list handed out is symmetric, loop-free and duplicate-free, with one row per node and `edgeCount` edges. |
| GraphStore.Graph.GetEdgeIndices | public/algorithms/graph.mjs:88-103 | The marked scan emits each edge exactly once, as `(i, j)` with `i < j`, in row order. The list has no repeats, holds exactly the edge set, and its length is `edgeCount`. |
| GraphStore.Graph.GetEdges | public/algorithms/graph.mjs:82-85 | The edge list, with indices replaced by labels. It has `edgeCount` entries. |
| GraphStore.Graph.GetEdgesIsContainsEdge | public/algorithms/graph.mjs:82-103 | When no label was added twice, `(a, b)` is listed iff `containsEdge(a, b)` holds and `a`'s index is below `b`'s. |
| GraphStore.Graph.GetNeighbors | public/algorithms/graph.mjs:106-109 | Returns a result iff the label is known. The result is the node's row with each index replaced by its label. |
| GraphStore.Graph.NeighborsAreEdges | public/algorithms/graph.mjs:106-109 | When no label was added twice, `u` is a neighbour of `v` iff `containsEdge(v, u)` holds. |
| GraphStore.Graph.Clone | public/algorithms/graph.mjs:114-137 | The copy is a fresh object, so later changes to either graph leave the other alone. With a copy function that keeps labels apart, the copy has the same node count, edge count and edge set, and node `i` carries the copied label of node `i`. |
| GraphStore.Graph.AddCopies | public/algorithms/graph.mjs:117-121 | The first loop of `clone`: adds one node per distinct label, in first-seen order. Records each label's copy, and keeps the edge count unchanged. |
| GraphStore.Graph.AddEdges | public/algorithms/graph.mjs:123-127 | The second loop of `clone`: replaying the labelled edges rebuilds exactly the source's edge set and edge count. |
| GraphStore.Digraph.constructor | public/algorithms/graph.mjs:141-144 | A new digraph is empty and valid. |
| GraphStore.Digraph.AddNode | public/algorithms/graph.mjs:13-19 | The inherited `addNode`: the same effect as on `Graph`, and the digraph invariant is kept. |
| GraphStore.Digraph.AddEdge | public/algorithms/graph.mjs:151-172 | Returns true iff the labels differ and both are present, even when the arc already exists. A new arc is appended to the first node's row only: the arc set gains exactly `(i, j)` and `edgeCount` grows by 1. An existing arc changes nothing. |
| GraphStore.Digraph.GetEdges | public/algorithms/graph.mjs:189-197 | Every arc once, labelled, row by row. There are `edgeCount` of them. |
| GraphStore.Digraph.ContainsEdge | public/algorithms/graph.mjs:175-184 | The override holds iff both labels are known and the arc from the index of `a` to the index of `b` is in the arc set. It never holds for two labels that share an index. |
| GraphStore.Digraph.GetEdgesIsContainsEdge | public/algorithms/graph.mjs:175-197 | When no label was added twice, `(a, b)` is listed iff `containsEdge(a, b)` holds, in the directed sense. |
| Isomorphism.CheckEdges | public/algorithms/graph_algs.js:75-92 | True iff for every node `i`, each neighbour `t` of `i` in the first graph has `perm[t]` in the row of `perm[i]`, and the two rows have the same length. The older copy in `public/graph_algs.js`, lines 36-53, is the same code. |
| Isomorphism.BruteForce | public/algorithms/graph_algs.js:53-71 | Restores `used` on return and leaves the already fixed tail of `perm` alone. Returns true iff some permutation extending that tail passes `checkEdges`. The older copy in `public/graph_algs.js`, lines 14-33, is the same code. |
| Isomorphism.IsIsomorphic | public/algorithms/graph_algs.js:41-50 | True iff the lists have the same length and some permutation of the nodes passes `checkEdges`. The older copy in `public/graph_algs.js`, lines 3-12, is the same code. |
| Isomorphism.CompletableEmpty | public/algorithms/graph_algs.js:41-50 | Starting the search with nothing fixed succeeds iff the graphs are isomorphic. |
| Isomorphism.EmptyIsomorphic | public/algorithms/graph_algs.js:41-50 | Two empty graphs are isomorphic. |
| Isomorphism.IsomorphicReflexive | public/algorithms/graph_algs.js:41-50 | Every graph with in-range entries is isomorphic to itself. |
| Isomorphism.IsomorphicSymmetric | public/algorithms/graph_algs.js:41-50 | On duplicate-free lists, isomorphism does not depend on the order of its arguments. |
| Isomorphism.IsomorphicTransitive | public/algorithms/graph_algs.js:41-50 | Isomorphism composes. |
| CycleWalk.FirstNonEmpty | public/algorithms/graph_algs.js:133 | The `findIndex` for the first node with a neighbour: -1 iff every row is empty, otherwise the least such index. |
| CycleWalk.Walk | public/algorithms/graph_algs.js:137-157 | On a simple 2-regular graph, the walk from the first node returns to it after visiting everything iff the graph is connected. |
| CycleWalk.ClosedConnected | public/algorithms/graph_algs.js:137-157 | A walk that closes at node 0 covers the whole graph iff the graph is connected. |
| Classifiers.IsComplete | public/algorithms/graph_algs.js:95-97 | `isComplete` holds iff twice the edge counter equals `n(n-1)`, for every node count `n`. The halving is exact because `n(n-1)` is even. The older copy in `public/graph_algs.js`, lines 104-106, is the same code. |
| Classifiers.CompleteIffAllAdjacent | public/algorithms/graph_algs.js:95-97 | On a simple graph, `edgeCount == n(n-1)/2` iff every two distinct nodes are adjacent. The older copy in `public/graph_algs.js`, lines 104-106, is the same code. On the older store's graphs this holds only when there are no self-loops, as the findings show. |
| Classifiers.CompleteGraphChecker | public/algorithms/graph_algs.js:101-105 | `completeGraphChecker(n)` holds iff the node counter is `n` and twice the edge counter is `n(n-1)`. |
| Classifiers.CompleteGraphCheckerIsKn | public/algorithms/graph_algs.js:101-105 | `completeGraphChecker(n)` holds iff the graph has `n` nodes and is complete. The older copy in `public/graph_algs.js`, lines 110-114, is the same code. |
| Classifiers.IsOnlyCycles | public/algorithms/graph_algs.js:120-127 | If `isOnlyCycles` passes and the node counter matches the list, every node has degree 2 and the degree sum is twice the edge counter. |
| Classifiers.OnlyCyclesIsTwoRegular | public/algorithms/graph_algs.js:120-127 | `isOnlyCycles` holds iff there are at least three nodes and every node has degree 2. The edge-count test follows from the handshake lemma. |
| Classifiers.IsOneCycle | public/algorithms/graph_algs.js:130-158 | Returns false when no node has a neighbour. On a 2-regular graph it returns true iff the graph is connected. |
| Classifiers.IsCycleGraph | public/algorithms/graph_algs.js:114-116 | True iff there are at least three nodes, every node has degree 2 and the graph is connected, that is, a single cycle. |
| Classifiers.CycleGraphChecker | public/algorithms/graph_algs.js:108-112 | True iff the graph is the cycle on exactly `n` nodes, with `n >= 3`. |
| Classifiers.CompleteCycleIsTriangle | public/algorithms/graph_algs.js:6-32 | A graph reported as both complete and a cycle is the triangle. |
| Classifiers.IsPaw | public/algorithms/graph_algs.js:160-166 | If `isPaw` passes on four rows, exactly one of them has length 3. |
| Classifiers.PawDegrees | public/algorithms/graph_algs.js:160-166 | `isPaw` holds iff there are 4 nodes with degrees 3, 2, 2 and 1. The older copy in `public/graph_algs.js`, lines 157-163, is the same code. |
| Classifiers.PawShape | public/algorithms/graph_algs.js:160-166 | On a simple graph, `isPaw` holds iff the graph is a paw. A paw has four distinct nodes `h`, `x`, `y`, `z`, and its edges are exactly the triangle `h`-`x`-`y` and the pendant edge `h`-`z`. |
| Classifiers.PawIsNeitherCompleteNorCycle | public/algorithms/graph_algs.js:6-32 | A paw is never also reported as complete or as a cycle. |
| Classifiers.StarIntendedIsStar | public/algorithms/graph_algs.js:168-177 | The corrected star test holds iff the graph has `n` nodes, one centre adjacent to all others, and no other edges. |
| Classifiers.StarGraphChecker | public/algorithms/graph_algs.js:168-177 | When the node counter matches the list and `n` is not 2, `starGraphChecker(n)` as written equals the corrected test. The older copy in `public/graph_algs.js`, lines 165-173, is the same code. |
| Classifiers.StarCheckerRejectsTwo | public/algorithms/graph_algs.js:168-177 | `starGraphChecker(2)` as written rejects every simple graph. |
| Classifiers.SingleEdgeStar | public/algorithms/graph_algs.js:168-177 | The single edge is a star on two nodes and passes the corrected test, but the code as written rejects it. |
| Classifiers.IsKayakPaddleGraph | public/algorithms/graph_algs.js:179-192 | True iff there are 6 nodes and the graph is isomorphic to the kayak-paddle template. The older copy in `public/graph_algs.js`, lines 175-188, is the same code. |
| Classifiers.KayakPaddleShape | public/algorithms/graph_algs.js:179-192 | The template is a simple graph. Its edges are two triangles joined by a handle. |
| Classifiers.IsButterflyGraph | public/algorithms/graph_algs.js:194-207 | True iff there are 5 nodes and the graph is isomorphic to the butterfly template. The older copy in `public/graph_algs.js`, lines 190-203, is the same code. |
| Classifiers.ButterflyShape | public/algorithms/graph_algs.js:194-207 | The template is a simple graph. Its edges are two triangles sharing one node. |
| Classifiers.CalculateGraphType | public/algorithms/graph_algs.js:6-32 | Returns "trivial" for one node and "unconnected" for no edges. Otherwise it lists every class the graph is in, in a fixed order. |
| Components.MemoizeCC | public/algorithms/graph_algs.js:229-239 | The depth-first search marks its start and unmarks nothing. Every node it newly marks is reachable from the start, and every neighbour of a newly marked node is marked. |
| Components.ReachableIsVisited | public/algorithms/graph_algs.js:229-239 | When the search starts from an all-false array, the marked nodes are exactly those reachable from the start. |
| Components.ComponentIndices | public/algorithms/graph_algs.js:212-223 | The indices collected from the marks are the component of the start node, in increasing order. |
| Components.ComponentMembers | public/algorithms/graph_algs.js:217-223 | The component holds exactly the reachable nodes, in strictly increasing order. |
| Components.MarkedIndices | public/algorithms/graph_algs.js:218-223 | The loop over `visited` collects the marked indices in order. |
| Components.AddEdgesFrom | public/algorithms/graph_algs.js:253-257 | Joining a node to each listed neighbour adds exactly those pairs that are known, distinct labels. |
| Components.AddKeptNodes | public/algorithms/graph_algs.js:245-249 | The first loop of `subGraph`: adds one node per requested index that exists, in order, carrying the same label. It adds no edges. |
| Components.AddKeptEdges | public/algorithms/graph_algs.js:250-259 | The second loop of `subGraph`: copies, row by row, every edge of the source between two kept nodes. |
| Components.SubGraph | public/algorithms/graph_algs.js:243-261 | Skips requested indices that do not exist. With distinct indices and distinct labels, two nodes of the result are adjacent iff the source nodes they copy are adjacent, which makes it the induced subgraph. |
| Components.InducedAdjacent | public/algorithms/graph_algs.js:243-261 | A graph whose edge set is the induced edge set has adjacency iff the source nodes are adjacent. |
| Components.KeptMembers | public/algorithms/graph_algs.js:245-249 | The kept indices are exactly the requested ones that exist. |
| Components.GetConnectedComponent | public/algorithms/graph_algs.js:211-226 | An unknown label gives an empty graph. Otherwise the result has one node per node reachable from the label's node, in index order and with the same labels. With distinct labels, its adjacency is the source's. |
| Dot.GetDot | public/algorithms/graph_algs.js:267-282 | The text is the header, then a line per `getEdgeIndices` pair in order, then a line per node without edges in index order, then the closing brace. |
| Dot.AppendEdgeLines | public/algorithms/graph_algs.js:268-272 | The edge loop appends the edge lines in order. |
| Dot.AppendNodeLines | public/algorithms/graph_algs.js:274-279 | The node loop appends a line for each empty row, in index order. |
| Dot.DotNamesEveryNode | public/algorithms/graph_algs.js:267-282 | Every node is named: a node gets its own line iff its row is empty, and otherwise it is an end of a listed edge. |
| Dot.DotLineCount | public/algorithms/graph_algs.js:267-282 | The text has one line break per edge, one per node without edges, and one after the header. |
| Dot.NatToStringRoundTrip | public/algorithms/graph_algs.js:271-277 | The decimal numeral of an index reads back as the index and has no leading zero. |
| Dot.NatToStringInjective | public/algorithms/graph_algs.js:271-277 | Distinct nodes get distinct names. |
| Counting.Handshake | public/algorithms/graph_algs.js:120-127 | In a simple graph the degrees add up to twice the number of edges. |
| Counting.RowBound | public/algorithms/graph_algs.js:168-177 | A row of a simple graph on `n` nodes has at most `n - 1` entries, and has exactly `n - 1` iff it holds every other node. |
| LegacyGraphAlgs.LegacyGraph.constructor | public/graph_algs.js:55-62 | A new graph is empty: all three counters are zero and `labels` is empty. |
| LegacyGraphAlgs.LegacyGraph.AddNode | public/graph_algs.js:64-68 | Appends an empty row, points the label at the new index and increments `nodeCount`. Both edge counters are unchanged. |
| LegacyGraphAlgs.LegacyGraph.AddEdge | public/graph_algs.js:71-96 | With an unknown label nothing changes. Otherwise the missing direction(s) are appended, a self-edge included. The edge set, counting self-loops, gains that pair. `edgeCount` grows by 1 and `directedEdgeCount` by 2 iff something was added, so `directedEdgeCount == 2 * edgeCount` is kept. |
| LegacyGraphAlgs.LegacyGraph.GetAdjList | public/graph_algs.js:99-101 | The list is symmetric and in range, with one row per node. Its edges, self-loops included, number `edgeCount`. |
| LegacyGraphAlgs.JoinedKeepsInv | public/graph_algs.js:76-94 | Joining two nodes keeps the rows in range, duplicate-free and symmetric. The edge set gains exactly that pair and grows by one iff the pair was new. |
| LegacyGraphAlgs.TwoAppendsJoin | public/graph_algs.js:76-94 | The two conditional appends add the pair once, and the second fires only if the first did. |
| LegacyGraphAlgs.JoinedIdempotent | public/graph_algs.js:76-94 | Adding the same edge again, in either order, changes nothing. |
| LegacyGraphAlgs.LoopHandshake | public/graph_algs.js:122-128 | With self-loops, the degrees plus the number of self-loops add up to twice the number of edges. |
| LegacyGraphAlgs.OnlyCyclesHasNoLoops | public/graph_algs.js:122-128 | A graph that passes `isOnlyCycles` has no self-loops. |
| LegacyGraphAlgs.LoopFreeIsWellFormed | public/graph_algs.js:55-101 | A graph of the older store without self-loops is a simple graph, so every classifier lemma applies to it. |
| LegacyGraphAlgs.IsOneCycle | public/graph_algs.js:130-155 | The unguarded walk: on a 2-regular graph without self-loops it returns true iff the graph is empty or connected. |
| LegacyGraphAlgs.CycleGraphChecker | public/graph_algs.js:116-120 | For any graph of the older store, including one with self-loops, true iff it is the cycle on exactly `n >= 3` nodes. |
| LegacyGraphAlgs.SelfLoopLooksComplete | public/graph_algs.js:71-96 | The graph with nodes 0 and 1 and a self-loop on 0 satisfies the store invariant and passes `isComplete`, although its two nodes are not adjacent. |
| LegacyGraphAlgs.OneSelfLoop | public/graph_algs.js:64-96 | `addNode(0)`, `addNode(1)`, `addEdge(0, 0)` build exactly that graph. |

## Left out

- The user interface is not modelled: canvas drawing, DOM events, the undo stack, the easter eggs and the static file server. It has no bearing on the engine.
- The floating-point geometry of the canvas (`sqrt`, `atan2`, ray casting) is not modelled.
- The curried checkers (`completeGraphChecker(n)` returns a function of the graph) take `n` and the graph together.
- The `console.assert` calls in the source have no counterpart. They report but never stop the program.
- `getNodeValues` (an iterator over the keys of `nodeValues`) is not modelled on its own. `clone`, its only caller here, is modelled as visiting those keys in first-insertion order.
- GraphStore.Graph.GetNeighbors: for an unknown label the source indexes the adjacency list with `undefined` and throws. The model returns `None` instead.
- Labels are any type with equality. The source compares labels with `Map` key identity.
- `clone` is modelled on `Graph`. On a `Digraph` the source builds an undirected `Graph` by replaying arcs, which is left out.
- `getNeighbors`, `getEdgeIndices` and `getAdjList`, which `Digraph` inherits, are not modelled on `Digraph`. `Digraph.ContainsEdge` models its own override at `public/algorithms/graph.mjs`, lines 175-184.
- Classifiers.IsOneCycle: modelled only on graphs whose rows all have length 2 or all length 0. The source calls it only after `isOnlyCycles`, which ensures the first; the walk on other inputs is not described.
- LegacyGraphAlgs.IsOneCycle: requires every row to have length 2. This leaves out the crash of the unguarded walk (`adjList[-1]`) on a non-empty graph without edges. The checker only calls it after `isOnlyCycles`, where that cannot happen.
- Isomorphism.BruteForce: the recursion depth and the factorial running time are not modelled, only the result.
- Components.MemoizeCC: the recursion is modelled as recursion. Deep recursion overflowing the JavaScript stack on long paths is not modelled.
- The browser import of `graph_algs.mjs`, and the `require` of `graph.js` at the top of `public/algorithms/graph_algs.js`, are taken to mean the `Graph` of `public/algorithms/graph.mjs`.
- The classifiers of the older copy other than the cycle checkers are the same expressions as the newer ones. They are modelled once, on `GraphView`. Their lemmas apply to the older store's graphs through `LegacyGraphAlgs.LoopFreeIsWellFormed`. With self-loops, the finding below shows where they differ.

## Findings

| source | as written | input that shows it | evidently intended | confidence | as-written member | corrected member |
|---|---|---|---|---|---|---|
| public/algorithms/graph_algs.js:168-177 | `starGraphChecker(n)` asks for a node of degree `n - 1` and for exactly `n - 1` nodes of degree 1. For `n = 2` the centre has degree 1 too, so two nodes have degree 1. (The same code is at public/graph_algs.js:165-173.) | `n = 2`, two nodes joined by one edge | The single edge is the star with one leaf: count the degree-1 nodes other than the centre | medium, not executed | Classifiers.StarCheckerRejectsTwo | Classifiers.StarIntendedIsStar |
| public/graph_algs.js:71-96 | `addEdge(a, a)` has no self-edge guard. It appends `a` to its own row and counts one edge, which `isComplete`'s edge-count test then counts as a link between two nodes. | `addNode(0)`, `addNode(1)`, `addEdge(0, 0)`: one edge for two nodes, so `isComplete` is true, but 0 and 1 are not adjacent | Refuse self-edges, as the newer store does at public/algorithms/graph.mjs:27-30 | high, not executed | LegacyGraphAlgs.SelfLoopLooksComplete | GraphStore.Graph.AddEdge |
