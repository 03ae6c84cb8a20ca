/**
 * The walk behind `isOneCycle`. It starts at the first node that has a
 * neighbour and, once per node, marks the current node and moves on:
 * - to its one unvisited neighbour;
 * - to its second neighbour when neither is visited;
 * - back to the start when both are visited and one of them is the start.
 * Otherwise it fails. It succeeds when it ends at the start.
 *
 * On a simple graph where every node has degree 2, the walk goes round the
 * cycle through the start. It succeeds exactly when that cycle holds every
 * node, that is, when the graph is connected.
 */
module CycleWalk {
  import opened Structure

  /** Every row has exactly two entries. */
  predicate TwoRegular(adj: AdjList) {
    forall i :: 0 <= i < |adj| ==> |adj[i]| == 2
  }

  /** The graph has a node, and every node can be reached from node 0. */
  ghost predicate Connected(adj: AdjList) {
    |adj| > 0 && forall v :: 0 <= v < |adj| ==> Reachable(adj, 0, v)
  }

  /** The index of the first row with an entry, or -1 when there is none. */
  function FirstNonEmpty(adj: AdjList): (r: int)
    ensures -1 <= r < |adj|
    ensures r == -1 <==> forall i :: 0 <= i < |adj| ==> adj[i] == []
    ensures r >= 0 ==> adj[r] != [] && forall i :: 0 <= i < r ==> adj[i] == []
  {
    if adj == [] then -1
    else if adj[0] != [] then 0
    else
      var r := FirstNonEmpty(adj[1..]);
      if r == -1 then -1 else r + 1
  }

  /** `path` is a walk from `start` through distinct nodes. */
  ghost predicate SimpleWalk(adj: AdjList, start: int, path: seq<int>) {
    && (|path| > 0 ==> path[0] == start)
    && Distinct(path)
    && (forall k :: 0 <= k < |path| ==> 0 <= path[k] < |adj|)
    && (forall k :: 0 <= k < |path| - 1 ==> path[k + 1] in adj[path[k]])
  }

  /** The walk so far is `path`, and its next node `cur` has not been visited. */
  ghost predicate Open(adj: AdjList, start: int, path: seq<int>, cur: int) {
    && SimpleWalk(adj, start, path)
    && 0 <= cur < |adj| && cur !in path
    && (path == [] ==> cur == start)
    && (path != [] ==> cur in adj[path[|path| - 1]])
  }

  /** The walk `path` has come back to `start`: every neighbour of a node on it is on it. */
  ghost predicate Closed(adj: AdjList, start: int, path: seq<int>) {
    && SimpleWalk(adj, start, path) && |path| > 0
    && forall k, t :: 0 <= k < |path| && t in adj[path[k]] ==> t in path
  }

  /** The visited flags of the nodes `0..n-1` after the walk `path`. */
  ghost function Marks(path: seq<int>, n: nat): (m: seq<bool>)
    ensures |m| == n && forall v :: 0 <= v < n ==> (m[v] <==> v in path)
  {
    seq(n, v => v in path)
  }

  /** Marking `cur` turns the flags of `path` into those of the walk that goes on to `cur`. */
  lemma MarkStep(path: seq<int>, cur: int, n: nat)
    requires 0 <= cur < n
    ensures Marks(path, n)[cur := true] == Marks(path + [cur], n)
    ensures cur in path ==> Marks(path, n)[cur := true] == Marks(path, n)
  {
  }

  /** A row of length two holding two distinct values holds nothing else. */
  lemma RowIsPair(adj: AdjList, u: int, a: int, b: int)
    requires TwoRegular(adj) && 0 <= u < |adj| && a in adj[u] && b in adj[u] && a != b
    ensures forall x :: x in adj[u] ==> x == a || x == b
  {
    assert adj[u] == [adj[u][0], adj[u][1]];
  }

  /** An inner node of a simple walk has its predecessor and successor as its only neighbours. */
  lemma InnerNeighbours(adj: AdjList, start: int, path: seq<int>, k: int)
    requires Undirected(adj) && TwoRegular(adj) && SimpleWalk(adj, start, path) && 0 < k < |path| - 1
    ensures forall x :: x in adj[path[k]] ==> x == path[k - 1] || x == path[k + 1]
  {
    assert path[k] in adj[path[k - 1]];
    assert path[k - 1] in adj[path[k]];
    assert path[k + 1] in adj[path[k]];
    RowIsPair(adj, path[k], path[k - 1], path[k + 1]);
  }

  /** Visiting `cur` extends the walk by one node. */
  lemma Extend(adj: AdjList, start: int, path: seq<int>, cur: int)
    requires InRange(adj) && Open(adj, start, path, cur)
    ensures SimpleWalk(adj, start, path + [cur])
    ensures forall x :: x in adj[cur] && x !in path + [cur] ==> Open(adj, start, path + [cur], x) && |path + [cur]| < |adj|
  {
    var p := path + [cur];
    forall x | x in adj[cur] && x !in p ensures Open(adj, start, p, x) && |p| < |adj| {
      DistinctNodes(p + [x], |adj|);
    }
  }

  /**
   * When both neighbours of the new node `cur` are already visited, the
   * neighbour that is not its predecessor is the start.
   */
  lemma BothVisitedMeansStart(adj: AdjList, start: int, path: seq<int>, cur: int)
    requires Undirected(adj) && TwoRegular(adj) && Open(adj, start, path, cur)
    requires adj[cur][0] in path + [cur] && adj[cur][1] in path + [cur]
    ensures |path| >= 2
    ensures adj[cur][0] == start || adj[cur][1] == start
    ensures start in adj[cur] && path[|path| - 1] in adj[cur] && start != path[|path| - 1]
  {
    var n0, n1 := adj[cur][0], adj[cur][1];
    assert n0 != cur && n1 != cur;
    assert path != [];
    var prev := path[|path| - 1];
    assert prev in adj[cur];
    var w := if n0 == prev then n1 else n0;
    assert w in adj[cur] && w != prev && w in path;
    var k :| 0 <= k < |path| && path[k] == w;
    if k > 0 {
      assert k < |path| - 1;
      assert cur in adj[w];
      InnerNeighbours(adj, start, path, k);
      assert false;
    }
  }

  /** A walk back to the start closes the cycle through the start. */
  lemma Closes(adj: AdjList, start: int, path: seq<int>, cur: int)
    requires Undirected(adj) && TwoRegular(adj) && Open(adj, start, path, cur)
    requires |path| >= 2 && start in adj[cur] && path[|path| - 1] in adj[cur] && start != path[|path| - 1]
    ensures Closed(adj, start, path + [cur])
  {
    var p := path + [cur];
    Extend(adj, start, path, cur);
    RowIsPair(adj, cur, start, path[|path| - 1]);
    assert cur in adj[start];
    assert p[1] in adj[start] && p[1] != cur;
    RowIsPair(adj, start, p[1], cur);
    forall k, t | 0 <= k < |p| && t in adj[p[k]] ensures t in p {
      if 0 < k < |p| - 1 {
        InnerNeighbours(adj, start, p, k);
      }
    }
  }

  /** The walk at an open state: where each branch of the step leads. */
  lemma OpenStep(adj: AdjList, start: int, path: seq<int>, cur: int)
    requires Undirected(adj) && TwoRegular(adj) && Open(adj, start, path, cur)
    ensures adj[cur][0] !in path + [cur] ==> Open(adj, start, path + [cur], adj[cur][0]) && |path + [cur]| < |adj|
    ensures adj[cur][1] !in path + [cur] ==> Open(adj, start, path + [cur], adj[cur][1]) && |path + [cur]| < |adj|
    ensures adj[cur][0] in path + [cur] && adj[cur][1] in path + [cur] ==>
      (adj[cur][0] == start || adj[cur][1] == start) && Closed(adj, start, path + [cur])
  {
    Extend(adj, start, path, cur);
    if adj[cur][0] in path + [cur] && adj[cur][1] in path + [cur] {
      BothVisitedMeansStart(adj, start, path, cur);
      Closes(adj, start, path, cur);
    }
  }

  /** Back at the start of a closed walk, both neighbours are visited and neither is the start. */
  lemma ClosedStep(adj: AdjList, start: int, path: seq<int>)
    requires Undirected(adj) && TwoRegular(adj) && Closed(adj, start, path)
    ensures adj[start][0] in path && adj[start][1] in path
    ensures adj[start][0] != start && adj[start][1] != start
    ensures forall x :: x in adj[start] ==> x in path
  {
    assert path[0] == start;
    assert adj[start][0] in adj[path[0]] && adj[start][1] in adj[path[0]];
  }

  /** A closed walk from node 0 shows the graph connected exactly when it visits every node. */
  lemma ClosedConnected(adj: AdjList, path: seq<int>)
    requires Closed(adj, 0, path)
    ensures Connected(adj) <==> |path| == |adj|
  {
    DistinctNodes(path, |adj|);
    if |path| == |adj| {
      forall v | 0 <= v < |adj| ensures Reachable(adj, 0, v) {
        assert v in path;
        var k :| 0 <= k < |path| && path[k] == v;
        assert IsPath(adj, path[..k + 1]);
      }
    } else {
      var v :| 0 <= v < |adj| && v !in path;
      var c := Elems(path);
      forall u, t | u in c && 0 <= u < |adj| && t in adj[u] ensures t in c {
        var k :| 0 <= k < |path| && path[k] == u;
      }
      if Reachable(adj, 0, v) {
        ClosedSetHoldsReachable(adj, 0, c, v);
      }
    }
  }

  /** The walk is either still open at `cur`, or closed and back at `start`. */
  ghost predicate WalkState(adj: AdjList, start: int, path: seq<int>, cur: int, closed: bool) {
    && (!closed ==> Open(adj, start, path, cur) && |path| < |adj|)
    && (closed ==> cur == start && Closed(adj, start, path))
  }

  /** Moving on to an unvisited neighbour `x` keeps the walk open; only an open walk has one. */
  lemma MoveOn(adj: AdjList, start: int, path: seq<int>, cur: int, closed: bool, x: int)
    requires Undirected(adj) && TwoRegular(adj) && WalkState(adj, start, path, cur, closed)
    requires x in adj[cur] && x !in (if closed then path else path + [cur])
    ensures !closed && WalkState(adj, start, path + [cur], x, false)
  {
    if closed {
      ClosedStep(adj, start, path);
      assert false;
    } else {
      Extend(adj, start, path, cur);
    }
  }

  /** Both neighbours visited, one of them the start: the open walk closes. */
  lemma CloseAt(adj: AdjList, start: int, path: seq<int>, cur: int, closed: bool)
    requires Undirected(adj) && TwoRegular(adj) && WalkState(adj, start, path, cur, closed)
    requires var next := if closed then path else path + [cur];
      adj[cur][0] in next && adj[cur][1] in next && (adj[cur][0] == start || adj[cur][1] == start)
    ensures !closed && WalkState(adj, start, path + [cur], start, true)
  {
    if closed {
      ClosedStep(adj, start, path);
    } else {
      OpenStep(adj, start, path, cur);
    }
  }

  /** Both neighbours visited and neither the start: only a closed walk gets here. */
  lemma Stuck(adj: AdjList, start: int, path: seq<int>, cur: int, closed: bool)
    requires Undirected(adj) && TwoRegular(adj) && WalkState(adj, start, path, cur, closed)
    requires var next := if closed then path else path + [cur];
      adj[cur][0] in next && adj[cur][1] in next && adj[cur][0] != start && adj[cur][1] != start
    ensures closed && Closed(adj, start, path)
  {
    if !closed {
      OpenStep(adj, start, path, cur);
    }
  }

  /**
   * The loop of `isOneCycle` from `start`. On a simple graph whose every node
   * has degree 2 it succeeds exactly when the graph is empty or connected.
   */
  method Walk(adj: AdjList, start: int) returns (r: bool)
    requires Undirected(adj) && TwoRegular(adj) && start == FirstNonEmpty(adj)
    ensures r <==> |adj| == 0 || Connected(adj)
  {
    assert |adj| > 0 ==> adj[0] != [] && start == 0;
    var cur := start;
    var visited := new bool[|adj|](_ => false);
    var isCycle := true;
    ghost var path: seq<int> := [];
    ghost var closed := false;
    var i := 0;
    while i < |adj|
      invariant 0 <= i <= |adj| && |path| == i
      invariant visited[..] == Marks(path, |adj|)
      invariant |adj| > 0 ==> WalkState(adj, start, path, cur, closed)
      invariant |adj| == 0 ==> cur == start
    {
      ghost var here := cur;
      ghost var next := if closed then path else path + [cur];
      MarkStep(path, cur, |adj|);
      ghost var before := visited[..];
      visited[cur] := true;
      assert visited[..] == before[cur := true] == Marks(next, |adj|);
      var neighbor0 := adj[cur][0];
      var neighbor1 := adj[cur][1];
      assert neighbor0 in adj[cur] && neighbor1 in adj[cur];
      if visited[neighbor0] && !visited[neighbor1] {
        MoveOn(adj, start, path, cur, closed, neighbor1);
        cur := neighbor1;
      } else if !visited[neighbor0] && visited[neighbor1] {
        MoveOn(adj, start, path, cur, closed, neighbor0);
        cur := neighbor0;
      } else if !visited[neighbor0] && !visited[neighbor1] {
        MoveOn(adj, start, path, cur, closed, neighbor1);
        cur := neighbor1;
      } else if neighbor0 == start || neighbor1 == start {
        CloseAt(adj, start, path, cur, closed);
        cur := start;
        closed := true;
      } else {
        Stuck(adj, start, path, cur, closed);
        ClosedConnected(adj, path);
        isCycle := false;
        break;
      }
      path := path + [here];
      i := i + 1;
    }
    if isCycle && |adj| > 0 {
      ClosedConnected(adj, path);
    }
    return isCycle && cur == start;
  }
}
