/**
 * Isomorphism by exhaustive search: `BruteForce` tries every permutation of
 * the nodes, filling `perm` from the last position down to the first, and
 * `CheckEdges` accepts one that maps every arc onto an arc and keeps every
 * degree. Both copies of the graph algorithms share this code verbatim.
 */
module Isomorphism {
  import opened Structure

  /**
   * `p` sends node `i` of `g1` to node `p[i]` of `g2`, every arc `i -> t` of
   * `g1` onto an arc `p[i] -> p[t]` of `g2`, and keeps each node's degree.
   */
  predicate MapsEdges(p: seq<int>, g1: AdjList, g2: AdjList) {
    && |p| == |g1|
    && (forall i :: 0 <= i < |p| ==> 0 <= p[i] < |g2|)
    && (forall i, j :: 0 <= i < |g1| && 0 <= j < |g1[i]| ==> 0 <= g1[i][j] < |p| && p[g1[i][j]] in g2[p[i]])
    && (forall i :: 0 <= i < |g1| ==> |g1[i]| == |g2[p[i]]|)
  }

  /** Some permutation of the nodes of `g1` maps it onto `g2`. */
  ghost predicate Isomorphic(g1: AdjList, g2: AdjList) {
    |g1| == |g2| && exists p :: IsPermutation(p, |g1|) && MapsEdges(p, g1, g2)
  }

  /** `p` is a permutation of `0..n-1` whose last `|s|` entries are `s`. */
  ghost predicate Extends(p: seq<int>, s: seq<int>, n: int) {
    IsPermutation(p, n) && |s| <= n && p[n - |s|..] == s
  }

  /** The partial assignment `s` of the last positions completes to a permutation that `CheckEdges` accepts. */
  ghost predicate Completable(s: seq<int>, g1: AdjList, g2: AdjList) {
    exists p :: Extends(p, s, |g1|) && MapsEdges(p, g1, g2)
  }

  /**
   * The search state at `level`: positions above `level` of `perm` hold
   * distinct nodes, and `used` marks exactly those nodes.
   */
  ghost predicate Placed(used: seq<bool>, perm: seq<int>, level: int) {
    && |used| == |perm| && -1 <= level < |perm|
    && Distinct(perm[level + 1..])
    && (forall k :: level + 1 <= k < |perm| ==> 0 <= perm[k] < |perm|)
    && (forall v :: 0 <= v < |used| ==> (used[v] <==> v in perm[level + 1..]))
  }

  /**
   * Checks a complete assignment row by row: first each arc of the row, then
   * the row's degree. A target outside `perm` has no image, which no row of
   * `g2` lists.
   */
  method CheckEdges(perm: seq<int>, g1: AdjList, g2: AdjList) returns (ok: bool)
    requires |perm| == |g1| && forall i :: 0 <= i < |perm| ==> 0 <= perm[i] < |g2|
    ensures ok <==> MapsEdges(perm, g1, g2)
  {
    var i := 0;
    while i < |g1|
      invariant 0 <= i <= |g1|
      invariant forall i', j :: 0 <= i' < i && 0 <= j < |g1[i']| ==> 0 <= g1[i'][j] < |perm| && perm[g1[i'][j]] in g2[perm[i']]
      invariant forall i' :: 0 <= i' < i ==> |g1[i']| == |g2[perm[i']]|
    {
      var j := 0;
      while j < |g1[i]|
        invariant 0 <= j <= |g1[i]|
        invariant forall j' :: 0 <= j' < j ==> 0 <= g1[i][j'] < |perm| && perm[g1[i][j']] in g2[perm[i]]
      {
        var g1Target := g1[i][j];
        var g2Source := perm[i];
        if !(0 <= g1Target < |perm|) {
          return false;
        }
        var g2Target := perm[g1Target];
        var g2AllTargets := g2[g2Source];
        if g2Target !in g2AllTargets {
          return false;
        }
        j := j + 1;
      }
      if |g1[i]| != |g2[perm[i]]| {
        return false;
      }
      i := i + 1;
    }
    return true;
  }

  /**
   * Fills positions `level` down to `0` of `perm` with the unused nodes in
   * every order, stopping at the first complete assignment `CheckEdges`
   * accepts. Each branch gives back the node it took, so `used` and the
   * positions above `level` are as they were.
   */
  method BruteForce(level: int, used: array<bool>, perm: array<int>, g1: AdjList, g2: AdjList) returns (result: bool)
    requires used.Length == perm.Length == |g1| == |g2|
    requires Placed(used[..], perm[..], level)
    modifies used, perm
    ensures used[..] == old(used[..])
    ensures perm[level + 1..] == old(perm[level + 1..])
    ensures result <==> Completable(old(perm[level + 1..]), g1, g2)
    decreases level + 1
  {
    result := false;
    ghost var s := perm[level + 1..];
    if level == -1 {
      assert perm[..] == s;
      result := CheckEdges(perm[..], g1, g2);
      OnlyCompletion(perm[..], g1, g2);
    } else {
      var i := 0;
      while i < |g1| && !result
        invariant 0 <= i <= |g1|
        invariant used[..] == old(used[..]) && perm[level + 1..] == s
        invariant result ==> Completable(s, g1, g2)
        invariant !result ==> forall p :: Extends(p, s, |g1|) && MapsEdges(p, g1, g2) ==> p[level] >= i
      {
        if !used[i] {
          Choose(used[..], perm[..], level, i);
          used[i] := true;
          perm[level] := i;
          assert perm[level..] == [i] + s;
          result := BruteForce(level - 1, used, perm, g1, g2);
          assert perm[level + 1..] == perm[level..][1..];
          used[i] := false;
          assert used[..] == old(used[..]);
          ExtendsOneMore(s, i, g1, g2);
        } else {
          UsedNotFirst(s, i, |g1|);
        }
        i := i + 1;
      }
      if !result {
        forall p | Extends(p, s, |g1|) ensures !MapsEdges(p, g1, g2) {
          assert 0 <= p[level] < |g1|;
        }
      }
    }
  }

  /** Taking the unused node `i` at `level` gives the search state one level down. */
  lemma Choose(used: seq<bool>, perm: seq<int>, level: int, i: int)
    requires Placed(used, perm, level) && 0 <= level && 0 <= i < |used| && !used[i]
    ensures Placed(used[i := true], perm[level := i], level - 1)
    ensures perm[level := i][level..] == [i] + perm[level + 1..]
  {
    var p := perm[level := i];
    assert p[level..] == [i] + perm[level + 1..];
    assert p[level + 1..] == perm[level + 1..];
  }

  /** With all positions placed, the only completion is the assignment itself. */
  lemma OnlyCompletion(perm: seq<int>, g1: AdjList, g2: AdjList)
    requires |perm| == |g1| && Distinct(perm) && forall k :: 0 <= k < |perm| ==> 0 <= perm[k] < |perm|
    ensures Completable(perm, g1, g2) <==> MapsEdges(perm, g1, g2)
  {
    assert perm[0..] == perm;
    if MapsEdges(perm, g1, g2) {
      assert Extends(perm, perm, |g1|);
    }
  }

  /**
   * Completions of `[i] + s` are the completions of `s` with `i` at the free
   * position nearest to `s`.
   */
  lemma ExtendsOneMore(s: seq<int>, i: int, g1: AdjList, g2: AdjList)
    requires |s| < |g1|
    ensures Completable([i] + s, g1, g2) ==> Completable(s, g1, g2)
    ensures forall p :: Extends(p, s, |g1|) && MapsEdges(p, g1, g2) && p[|g1| - |s| - 1] == i ==> Completable([i] + s, g1, g2)
  {
    var n := |g1|;
    if Completable([i] + s, g1, g2) {
      var p :| Extends(p, [i] + s, n) && MapsEdges(p, g1, g2);
      assert p[n - |s|..] == p[n - |s| - 1..][1..];
      assert Extends(p, s, n);
    }
    forall p | Extends(p, s, n) && MapsEdges(p, g1, g2) && p[n - |s| - 1] == i ensures Completable([i] + s, g1, g2) {
      assert p[n - |s| - 1..] == [i] + s;
      assert Extends(p, [i] + s, n);
    }
  }

  /** A node already placed in `s` cannot take the free position nearest to `s`. */
  lemma UsedNotFirst(s: seq<int>, i: int, n: int)
    requires |s| < n && i in s
    ensures forall p :: Extends(p, s, n) ==> p[n - |s| - 1] != i
  {
    forall p | Extends(p, s, n) ensures p[n - |s| - 1] != i {
      var k :| 0 <= k < |s| && s[k] == i;
      assert p[n - |s| + k] == i;
    }
  }

  /** The search from an empty assignment: false on a length mismatch, otherwise whether the lists are isomorphic. */
  method IsIsomorphic(g1: AdjList, g2: AdjList) returns (r: bool)
    ensures r <==> Isomorphic(g1, g2)
  {
    if |g1| != |g2| {
      return false;
    }
    var perm := new int[|g1|](_ => -1);
    var used := new bool[|g1|](_ => false);
    var level := |g1| - 1;
    assert perm[level + 1..] == [];
    r := BruteForce(level, used, perm, g1, g2);
    CompletableEmpty(g1, g2);
  }

  /** Completing the empty assignment is finding an isomorphism. */
  lemma CompletableEmpty(g1: AdjList, g2: AdjList)
    requires |g1| == |g2|
    ensures Completable([], g1, g2) <==> Isomorphic(g1, g2)
  {
    if Isomorphic(g1, g2) {
      var p :| IsPermutation(p, |g1|) && MapsEdges(p, g1, g2);
      assert p[|g1|..] == [];
      assert Extends(p, [], |g1|);
    }
  }

  /** Two empty lists are isomorphic. */
  lemma EmptyIsomorphic()
    ensures Isomorphic([], [])
  {
    assert IsPermutation([], 0) && MapsEdges([], [], []);
  }

  /** Every list whose entries are nodes is isomorphic to itself, by the identity. */
  lemma IsomorphicReflexive(g: AdjList)
    requires InRange(g)
    ensures Isomorphic(g, g)
  {
    var id := seq(|g|, k => k);
    assert IsPermutation(id, |g|);
    assert MapsEdges(id, g, g);
  }

  /**
   * A permutation of `0..n-1` is onto: its inverse is a permutation too.
   */
  lemma Inverse(p: seq<int>, n: int) returns (q: seq<int>)
    requires IsPermutation(p, n)
    ensures IsPermutation(q, n)
    ensures forall i :: 0 <= i < n ==> q[p[i]] == i
    ensures forall w :: 0 <= w < n ==> p[q[w]] == w
  {
    var range := seq(n, k => k);
    forall x | x in p ensures x in range {
      var k :| 0 <= k < |p| && p[k] == x;
      assert range[x] == x;
    }
    Pigeonhole(p, range);
    forall w | 0 <= w < n ensures w in p {
      assert range[w] == w;
    }
    q := seq(n, w requires 0 <= w < n && w in p => var k :| 0 <= k < n && p[k] == w; k);
    forall i | 0 <= i < n ensures q[p[i]] == i {
      var k := q[p[i]];
      assert p[k] == p[i];
    }
    forall a, b | 0 <= a < b < n ensures q[a] != q[b] {
      assert p[q[a]] == a && p[q[b]] == b;
    }
  }

  /**
   * On lists without repeated entries and with every entry a node, an
   * isomorphism has an inverse isomorphism: `p` maps the `d` distinct
   * neighbours of `i` onto `d` distinct neighbours of `p[i]`, which has only
   * `d`, so it hits all of them.
   */
  lemma IsomorphicSymmetric(g1: AdjList, g2: AdjList)
    requires NoDuplicates(g1) && InRange(g2)
    requires Isomorphic(g1, g2)
    ensures Isomorphic(g2, g1)
  {
    var n := |g1|;
    var p :| IsPermutation(p, n) && MapsEdges(p, g1, g2);
    var q := Inverse(p, n);
    forall u, j | 0 <= u < n && 0 <= j < |g2[u]| ensures 0 <= g2[u][j] < |q| && q[g2[u][j]] in g1[q[u]] {
      var i := q[u];
      ImagesCoverRow(p, g1, g2, i);
      assert p[i] == u && g2[u][j] in g2[p[i]];
      var t :| t in g1[i] && p[t] == g2[u][j];
      assert q[g2[u][j]] == t;
    }
    forall u | 0 <= u < n ensures |g2[u]| == |g1[q[u]]| {
      assert p[q[u]] == u;
    }
    assert MapsEdges(q, g2, g1);
  }

  /** Under an isomorphism, every neighbour of `p[i]` is the image of a neighbour of `i`. */
  lemma ImagesCoverRow(p: seq<int>, g1: AdjList, g2: AdjList, i: int)
    requires IsPermutation(p, |g1|) && MapsEdges(p, g1, g2) && NoDuplicates(g1)
    requires 0 <= i < |g1|
    ensures forall w :: w in g2[p[i]] ==> exists t :: t in g1[i] && p[t] == w
  {
    var row := g1[i];
    var m := seq(|row|, j requires 0 <= j < |row| => p[row[j]]);
    forall a, b | 0 <= a < b < |m| ensures m[a] != m[b] {
      assert Distinct(row);
    }
    forall x | x in m ensures x in g2[p[i]] {
      var j :| 0 <= j < |m| && m[j] == x;
    }
    Pigeonhole(m, g2[p[i]]);
    forall w | w in g2[p[i]] ensures exists t :: t in g1[i] && p[t] == w {
      var j :| 0 <= j < |m| && m[j] == w;
      assert row[j] in g1[i];
    }
  }

  /** Isomorphisms compose. */
  lemma IsomorphicTransitive(g1: AdjList, g2: AdjList, g3: AdjList)
    requires Isomorphic(g1, g2) && Isomorphic(g2, g3)
    ensures Isomorphic(g1, g3)
  {
    var n := |g1|;
    var p :| IsPermutation(p, n) && MapsEdges(p, g1, g2);
    var p2 :| IsPermutation(p2, n) && MapsEdges(p2, g2, g3);
    var c := seq(n, k requires 0 <= k < n => p2[p[k]]);
    forall a, b | 0 <= a < b < n ensures c[a] != c[b] {
      assert p[a] != p[b];
    }
    assert IsPermutation(c, n);
    forall i, j | 0 <= i < n && 0 <= j < |g1[i]| ensures 0 <= g1[i][j] < |c| && c[g1[i][j]] in g3[c[i]] {
      var t := g1[i][j];
      var k :| 0 <= k < |g2[p[i]]| && g2[p[i]][k] == p[t];
    }
    assert MapsEdges(c, g1, g3);
  }
}
