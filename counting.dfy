/**
 * Counting facts behind the degree-based classifiers: how long a row of a
 * simple graph can be, how the row lengths add up, and the handshake lemma
 * (they add up to twice the number of edges).
 */
module Counting {
  import opened Structure

  /** The sum of the row lengths, that is, of the degrees. */
  function DegreeSum(adj: AdjList): nat {
    if adj == [] then 0 else DegreeSum(adj[..|adj| - 1]) + |adj[|adj| - 1]|
  }

  /** When every row has length `d`, the degrees add up to `d` per node. */
  lemma {:induction false} DegreeSumRegular(adj: AdjList, d: nat)
    requires forall i :: 0 <= i < |adj| ==> |adj[i]| == d
    ensures DegreeSum(adj) == d * |adj|
  {
    if adj != [] {
      DegreeSumRegular(adj[..|adj| - 1], d);
    }
  }

  /** Rows of at most `d` entries add up to at most `d` per node, and to exactly that when every row has `d`. */
  lemma {:induction false} DegreeSumAtMost(adj: AdjList, d: int)
    requires forall i :: 0 <= i < |adj| ==> |adj[i]| <= d
    ensures DegreeSum(adj) <= d * |adj|
    ensures DegreeSum(adj) == d * |adj| <==> forall i :: 0 <= i < |adj| ==> |adj[i]| == d
  {
    if adj != [] {
      var init := adj[..|adj| - 1];
      DegreeSumAtMost(init, d);
      assert d * |adj| == d * |init| + d;
      assert forall i :: 0 <= i < |init| ==> init[i] == adj[i];
    }
  }

  /** The arcs of the first `m` rows are as many as their entries. */
  lemma {:induction false} ArcsUpToLength(adj: AdjList, m: int)
    requires 0 <= m <= |adj|
    ensures |ArcsUpTo(adj, m)| == DegreeSum(adj[..m])
  {
    if m > 0 {
      ArcsUpToLength(adj, m - 1);
      assert adj[..m][..m - 1] == adj[..m - 1];
    }
  }

  /** The arcs with their two ends exchanged. */
  function Swapped(s: set<(int, int)>): set<(int, int)> {
    set e | e in s :: (e.1, e.0)
  }

  /** Exchanging the ends of the arcs loses none of them. */
  lemma {:induction false} SwappedCard(s: set<(int, int)>)
    ensures |Swapped(s)| == |s|
    decreases |s|
  {
    if s != {} {
      var x :| x in s;
      var t := s - {x};
      SwappedCard(t);
      assert Swapped(s) == Swapped(t) + {(x.1, x.0)};
    }
  }

  /** In a simple graph each edge `(i, j)`, `i < j`, stands for the two arcs `(i, j)` and `(j, i)`. */
  lemma ArcSetSplit(adj: AdjList)
    requires Undirected(adj)
    ensures ArcSet(adj) == EdgeSet(adj) + Swapped(EdgeSet(adj))
    ensures EdgeSet(adj) * Swapped(EdgeSet(adj)) == {}
  {
    var es := EdgeSet(adj);
    forall e | e in ArcSet(adj) ensures e in es + Swapped(es) {
      var i, j :| 0 <= i < |adj| && j in adj[i] && e == (i, j);
      if j < i {
        assert (j, i) in es;
      }
    }
    forall e | e in Swapped(es) ensures e in ArcSet(adj) {
      var f :| f in es && e == (f.1, f.0);
    }
  }

  /** The handshake lemma: the degrees of a simple graph add up to twice its number of edges. */
  lemma Handshake(adj: AdjList)
    requires Undirected(adj)
    ensures DegreeSum(adj) == 2 * |EdgeSet(adj)|
  {
    ArcsUpToLength(adj, |adj|);
    assert adj[..|adj|] == adj;
    ArcsIsArcSet(adj);
    DistinctCard(Arcs(adj));
    assert (set x | x in Arcs(adj)) == ArcSet(adj);
    ArcSetSplit(adj);
    SwappedCard(EdgeSet(adj));
  }

  /**
   * A row of a simple graph on `n` nodes has at most `n - 1` entries, and it
   * has exactly `n - 1` when it holds every other node.
   */
  lemma RowBound(adj: AdjList, i: int)
    requires Undirected(adj) && 0 <= i < |adj|
    ensures |adj[i]| <= |adj| - 1
    ensures |adj[i]| == |adj| - 1 <==> forall v :: 0 <= v < |adj| && v != i ==> v in adj[i]
  {
    var s := adj[i] + [i];
    assert Distinct(s);
    DistinctNodes(s, |adj|);
    if |adj[i]| == |adj| - 1 {
      forall v | 0 <= v < |adj| && v != i ensures v in adj[i] {
        assert v in s;
      }
    } else {
      var v :| 0 <= v < |adj| && v !in s;
      assert v != i && v !in adj[i];
    }
  }
}
