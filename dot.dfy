/**
 * `getDot`: the graph as text in the DOT language read by GraphViz. Node `i`
 * is written `n<i>` (DOT names may not start with a digit), each edge gets a
 * line `n<i> -- n<j>`, and each node without edges gets a line of its own so
 * that it is not lost.
 */
module Dot {
  import opened Structure
  import opened GraphStore

  // ---------------------------------------------------------------------------
  // Decimal numerals

  predicate IsDigits(s: string) {
    forall k :: 0 <= k < |s| ==> '0' <= s[k] <= '9'
  }

  function DigitChar(d: int): char
    requires 0 <= d < 10
  {
    ('0' as int + d) as char
  }

  /** A node index as JavaScript writes a non-negative integer: its decimal digits, most significant first. */
  function NatToString(n: nat): (r: string)
    ensures 1 <= |r| && IsDigits(r)
  {
    if n < 10 then [DigitChar(n)] else NatToString(n / 10) + [DigitChar(n % 10)]
  }

  /** The value of a string of decimal digits. */
  function ParseNat(s: string): nat
    requires IsDigits(s)
  {
    if s == [] then 0 else ParseNat(s[..|s| - 1]) * 10 + (s[|s| - 1] as int - '0' as int)
  }

  /** Reading the numeral back gives the index, and the numeral has no leading zero. */
  lemma {:induction false} NatToStringRoundTrip(n: nat)
    ensures ParseNat(NatToString(n)) == n
    ensures NatToString(n)[0] == '0' ==> n == 0
  {
    if n >= 10 {
      NatToStringRoundTrip(n / 10);
      var s := NatToString(n);
      assert s[..|s| - 1] == NatToString(n / 10);
    }
  }

  /** Distinct nodes get distinct DOT names. */
  lemma NatToStringInjective(a: nat, b: nat)
    ensures NatToString(a) == NatToString(b) <==> a == b
  {
    NatToStringRoundTrip(a);
    NatToStringRoundTrip(b);
  }

  // ---------------------------------------------------------------------------
  // The text

  /** The line for the edge `(i, j)`. */
  function EdgeLine(e: (int, int)): string
    requires 0 <= e.0 && 0 <= e.1
  {
    " n" + NatToString(e.0) + " -- n" + NatToString(e.1) + " \n"
  }

  /** The line for a node without edges. */
  function NodeLine(i: nat): string {
    " n" + NatToString(i) + "\n"
  }

  /** The edge lines of `es`, one after the other. */
  function EdgeText(es: seq<(int, int)>): string
    requires forall k :: 0 <= k < |es| ==> 0 <= es[k].0 && 0 <= es[k].1
  {
    if es == [] then "" else EdgeText(es[..|es| - 1]) + EdgeLine(es[|es| - 1])
  }

  /** The node lines of `ns`, one after the other. */
  function NodeText(ns: seq<nat>): string {
    if ns == [] then "" else NodeText(ns[..|ns| - 1]) + NodeLine(ns[|ns| - 1])
  }

  /** The nodes `0..m-1` whose rows are empty, in increasing order. */
  function Isolated(adj: AdjList, m: int): (r: seq<nat>)
    requires 0 <= m <= |adj|
  {
    if m == 0 then [] else Isolated(adj, m - 1) + (if |adj[m - 1]| == 0 then [m - 1] else [])
  }

  /** `Isolated` lists exactly the nodes with empty rows. */
  lemma {:induction false} IsolatedMembers(adj: AdjList, m: int)
    requires 0 <= m <= |adj|
    ensures forall i :: i in Isolated(adj, m) <==> 0 <= i < m && |adj[i]| == 0
  {
    if m > 0 {
      IsolatedMembers(adj, m - 1);
    }
  }

  /** `Isolated` lists as many nodes as `CountRows` counts empty rows. */
  lemma {:induction false} IsolatedCount(adj: AdjList, m: int)
    requires 0 <= m <= |adj|
    ensures |Isolated(adj, m)| == CountRows(adj[..m], 0)
  {
    if m > 0 {
      IsolatedCount(adj, m - 1);
      assert adj[..m][..m - 1] == adj[..m - 1];
    }
  }

  /** The whole text `getDot` returns: the header, the edge lines in `getEdgeIndices` order, the lines of the nodes without edges, and the closing brace. */
  function Dot(adj: AdjList): string
    requires InRange(adj)
  {
    "graph {\n" + EdgeText(UpperEdges(adj)) + NodeText(Isolated(adj, |adj|)) + "}"
  }

  lemma AppendAssoc(a: string, b: string, c: string)
    ensures (a + b) + c == a + (b + c)
  {
  }

  /** `getDot`: the header, a line per edge, a line per node without edges, and the closing brace. */
  method GetDot<L(==)>(graph: Graph<L>) returns (ret: string)
    requires graph.Valid()
    ensures ret == Dot(graph.adjList)
  {
    var edges := graph.GetEdgeIndices();
    ret := AppendEdgeLines("graph {\n", edges);
    var adjList := graph.GetAdjList();
    ret := AppendNodeLines(ret, adjList);
    AppendAssoc("graph {\n", EdgeText(edges), NodeText(Isolated(adjList, |adjList|)));
    ret := ret + "}";
  }

  /** The first loop of `getDot`: a line for each edge, in order, after `prefix`. */
  method AppendEdgeLines(prefix: string, edges: seq<(int, int)>) returns (ret: string)
    requires forall k :: 0 <= k < |edges| ==> 0 <= edges[k].0 && 0 <= edges[k].1
    ensures ret == prefix + EdgeText(edges)
  {
    ret := prefix;
    var k := 0;
    while k < |edges|
      invariant 0 <= k <= |edges|
      invariant ret == prefix + EdgeText(edges[..k])
    {
      assert edges[..k + 1][..k] == edges[..k];
      AppendAssoc(prefix, EdgeText(edges[..k]), EdgeLine(edges[k]));
      ret := ret + EdgeLine(edges[k]);
      k := k + 1;
    }
    assert edges[..|edges|] == edges;
  }

  /** The second loop of `getDot`: a line for each node with an empty row, in index order, after `prefix`. */
  method AppendNodeLines(prefix: string, adj: AdjList) returns (ret: string)
    ensures ret == prefix + NodeText(Isolated(adj, |adj|))
  {
    ret := prefix;
    var i := 0;
    while i < |adj|
      invariant 0 <= i <= |adj|
      invariant ret == prefix + NodeText(Isolated(adj, i))
    {
      if |adj[i]| == 0 {
        assert (Isolated(adj, i) + [i])[..|Isolated(adj, i)|] == Isolated(adj, i);
        AppendAssoc(prefix, NodeText(Isolated(adj, i)), NodeLine(i));
        ret := ret + NodeLine(i);
      } else {
        assert Isolated(adj, i + 1) == Isolated(adj, i);
      }
      i := i + 1;
    }
  }

  // ---------------------------------------------------------------------------
  // What the text says

  /**
   * Every node is named in the text: a node without edges gets a line of its
   * own, and any other node is an end of the edge to its first neighbour,
   * which gets an edge line.
   */
  lemma DotNamesEveryNode(adj: AdjList, i: int)
    requires Undirected(adj) && 0 <= i < |adj|
    ensures i in Isolated(adj, |adj|) <==> |adj[i]| == 0
    ensures |adj[i]| > 0 ==> Pair(i, adj[i][0]) in UpperEdges(adj)
  {
    IsolatedMembers(adj, |adj|);
    if |adj[i]| > 0 {
      UpperEdgesMembers(adj);
      EdgeSetAdjacent(adj, i, adj[i][0]);
    }
  }

  /** The number of line breaks in a text. */
  function Newlines(s: string): nat {
    multiset(s)['\n']
  }

  lemma NumeralHasNoNewline(n: nat)
    ensures Newlines(NatToString(n)) == 0
  {
    assert '\n' !in NatToString(n);
  }

  lemma EdgeLineHasOneNewline(e: (int, int))
    requires 0 <= e.0 && 0 <= e.1
    ensures Newlines(EdgeLine(e)) == 1
  {
    NumeralHasNoNewline(e.0);
    NumeralHasNoNewline(e.1);
    assert multiset(" n")['\n'] == 0 && multiset(" -- n")['\n'] == 0 && multiset(" \n")['\n'] == 1;
  }

  lemma NodeLineHasOneNewline(i: nat)
    ensures Newlines(NodeLine(i)) == 1
  {
    NumeralHasNoNewline(i);
    assert multiset(" n")['\n'] == 0 && multiset("\n")['\n'] == 1;
  }

  lemma {:induction false} EdgeTextNewlines(es: seq<(int, int)>)
    requires forall k :: 0 <= k < |es| ==> 0 <= es[k].0 && 0 <= es[k].1
    ensures Newlines(EdgeText(es)) == |es|
  {
    if es != [] {
      EdgeTextNewlines(es[..|es| - 1]);
      EdgeLineHasOneNewline(es[|es| - 1]);
    }
  }

  lemma {:induction false} NodeTextNewlines(ns: seq<nat>)
    ensures Newlines(NodeText(ns)) == |ns|
  {
    if ns != [] {
      NodeTextNewlines(ns[..|ns| - 1]);
      NodeLineHasOneNewline(ns[|ns| - 1]);
    }
  }

  /** The text has one line per edge, one per node without edges, and the header line. */
  lemma DotLineCount(adj: AdjList)
    requires Undirected(adj)
    ensures Newlines(Dot(adj)) == |EdgeSet(adj)| + CountRows(adj, 0) + 1
  {
    UpperEdgesIsEdgeSet(adj);
    EdgeTextNewlines(UpperEdges(adj));
    IsolatedCount(adj, |adj|);
    NodeTextNewlines(Isolated(adj, |adj|));
    assert adj[..|adj|] == adj;
    assert multiset("graph {\n")['\n'] == 1 && multiset("}")['\n'] == 0;
  }
}
