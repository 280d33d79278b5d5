// Weighted undirected graphs as networkx holds them (node -> neighbour -> edge
// weight), walks in them, and the facts about walk weights that the labelling
// proofs rely on.

module Walks {

  /** `g[u][v]` is the `weight` attribute of edge {u, v}. */
  type Graph = map<int, map<int, int>>

  /** An undirected graph: every neighbour is a node and both ends see the same weight. */
  predicate Undirected(g: Graph)
  {
    forall u, v :: u in g && v in g[u] ==> v in g && u in g[v] && g[v][u] == g[u][v]
  }

  predicate NonNegative(g: Graph)
  {
    forall u, v :: u in g && v in g[u] ==> g[u][v] >= 0
  }

  predicate IsWalk(g: Graph, p: seq<int>)
  {
    |p| >= 1 &&
    (forall i :: 0 <= i < |p| ==> p[i] in g) &&
    (forall i :: 0 <= i < |p| - 1 ==> p[i + 1] in g[p[i]])
  }

  function Weight(g: Graph, p: seq<int>): int
    requires IsWalk(g, p)
    decreases |p|
  {
    if |p| == 1 then 0
    else
      assert IsWalk(g, p[..|p| - 1]);
      Weight(g, p[..|p| - 1]) + g[p[|p| - 2]][p[|p| - 1]]
  }

  /** Some walk from `a` to `b` weighs at most `k`. */
  ghost predicate HasWalk(g: Graph, a: int, b: int, k: int)
  {
    exists p :: IsWalk(g, p) && p[0] == a && p[|p| - 1] == b && Weight(g, p) <= k
  }

  lemma TrivialWalk(g: Graph, a: int)
    requires a in g
    ensures HasWalk(g, a, a, 0)
  {
    var p := [a];
    assert IsWalk(g, p) && Weight(g, p) == 0;
  }

  lemma ExtendWalk(g: Graph, a: int, b: int, k: int, c: int)
    requires HasWalk(g, a, b, k) && b in g && c in g[b] && c in g
    ensures HasWalk(g, a, c, k + g[b][c])
  {
    var p :| IsWalk(g, p) && p[0] == a && p[|p| - 1] == b && Weight(g, p) <= k;
    var q := p + [c];
    assert q[..|q| - 1] == p;
    assert IsWalk(g, q);
    assert Weight(g, q) == Weight(g, p) + g[b][c];
  }

  lemma {:induction false} WeightConcat(g: Graph, p: seq<int>, q: seq<int>)
    requires IsWalk(g, p) && IsWalk(g, q) && p[|p| - 1] == q[0]
    ensures IsWalk(g, p + q[1..])
    ensures Weight(g, p + q[1..]) == Weight(g, p) + Weight(g, q)
    decreases |q|
  {
    if |q| == 1 {
      assert p + q[1..] == p;
    } else {
      var q' := q[..|q| - 1];
      assert IsWalk(g, q');
      WeightConcat(g, p, q');
      var r := p + q[1..];
      assert r[..|r| - 1] == p + q'[1..];
      assert r[|r| - 2] == q[|q| - 2] && r[|r| - 1] == q[|q| - 1];
    }
  }

  lemma ConcatWalks(g: Graph, a: int, b: int, k1: int, c: int, k2: int)
    requires HasWalk(g, a, b, k1) && HasWalk(g, b, c, k2)
    ensures HasWalk(g, a, c, k1 + k2)
  {
    var p :| IsWalk(g, p) && p[0] == a && p[|p| - 1] == b && Weight(g, p) <= k1;
    var q :| IsWalk(g, q) && q[0] == b && q[|q| - 1] == c && Weight(g, q) <= k2;
    WeightConcat(g, p, q);
    var r := p + q[1..];
    assert r[0] == a && r[|r| - 1] == c;
  }

  function Reverse(p: seq<int>): (r: seq<int>)
    ensures |r| == |p| && forall i :: 0 <= i < |p| ==> r[i] == p[|p| - 1 - i]
  {
    if p == [] then [] else [p[|p| - 1]] + Reverse(p[..|p| - 1])
  }

  lemma {:induction false} WeightReverse(g: Graph, p: seq<int>)
    requires Undirected(g) && IsWalk(g, p)
    ensures IsWalk(g, Reverse(p)) && Weight(g, Reverse(p)) == Weight(g, p)
    decreases |p|
  {
    if |p| > 1 {
      var p' := p[..|p| - 1];
      assert IsWalk(g, p');
      WeightReverse(g, p');
      var x, y := p[|p| - 2], p[|p| - 1];
      var e := [y, x];
      assert x in g[y];
      assert IsWalk(g, e);
      assert e[..1] == [y];
      assert Weight(g, e) == g[x][y];
      WeightConcat(g, e, Reverse(p'));
      assert Reverse(p) == e + Reverse(p')[1..];
    }
  }

  lemma ReverseWalk(g: Graph, a: int, b: int, k: int)
    requires Undirected(g) && HasWalk(g, a, b, k)
    ensures HasWalk(g, b, a, k)
  {
    var p :| IsWalk(g, p) && p[0] == a && p[|p| - 1] == b && Weight(g, p) <= k;
    WeightReverse(g, p);
    var r := Reverse(p);
    assert r[0] == b && r[|r| - 1] == a;
  }

  /** Every edge of `g` is an edge of `h`, no heavier. */
  predicate Covers(h: Graph, g: Graph)
  {
    (forall u :: u in g ==> u in h) &&
    (forall u, v :: u in g && v in g[u] ==> v in h[u] && h[u][v] <= g[u][v])
  }

  lemma CoveredNode(h: Graph, g: Graph, u: int)
    requires Covers(h, g) && u in g
    ensures u in h
  {
  }

  lemma CoveredEdge(h: Graph, g: Graph, u: int, v: int)
    requires Covers(h, g) && u in g && v in g[u]
    ensures u in h && v in h[u] && h[u][v] <= g[u][v]
  {
  }

  lemma {:induction false} WeightCovered(h: Graph, g: Graph, p: seq<int>)
    requires Covers(h, g) && IsWalk(g, p)
    ensures IsWalk(h, p) && Weight(h, p) <= Weight(g, p)
    decreases |p|
  {
    forall i | 0 <= i < |p| ensures p[i] in h {
      CoveredNode(h, g, p[i]);
    }
    forall i | 0 <= i < |p| - 1 ensures p[i + 1] in h[p[i]] {
      CoveredEdge(h, g, p[i], p[i + 1]);
    }
    if |p| > 1 {
      var n := |p|;
      assert IsWalk(g, p[..n - 1]);
      WeightCovered(h, g, p[..n - 1]);
      CoveredEdge(h, g, p[n - 2], p[n - 1]);
    }
  }

  lemma CoveredWalk(h: Graph, g: Graph, a: int, b: int, k: int)
    requires Covers(h, g) && HasWalk(g, a, b, k)
    ensures HasWalk(h, a, b, k)
  {
    var p :| IsWalk(g, p) && p[0] == a && p[|p| - 1] == b && Weight(g, p) <= k;
    WeightCovered(h, g, p);
  }
}
