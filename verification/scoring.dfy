/**
  The scoring of a path: each node is worth its quality times the weight of
  its biome, a path is worth the sum over its nodes, and the best of several
  paths is the first one of greatest worth.  Scores are exact reals here.
 */
module Scoring {
  import opened Graph
  import opened Paths

  /** The weight of each biome index. */
  const Biomes: seq<int> := [1, 14, 28, 42, 57, 85, 100]

  /** Every node's biome indexes the weight table. */
  predicate BiomesInRange(nodes: seq<Node>)
  {
    forall i :: 0 <= i < |nodes| ==> 0 <= nodes[i].biome < |Biomes|
  }

  /**
    The precomputed score of one node.  Every weight is positive, so a
    node's score has the sign of its quality.
   */
  function NodeScore(n: Node): (r: real)
    requires 0 <= n.biome < |Biomes|
    ensures r > 0.0 <==> n.quality > 0.0
    ensures r == 0.0 <==> n.quality == 0.0
  {
    n.quality * Biomes[n.biome] as real
  }

  /** The worth of a path: the sum of its nodes' scores, added up from the first. */
  function Score(nodes: seq<Node>, path: seq<nat>): real
    requires InRange(path, |nodes|) && BiomesInRange(nodes)
    decreases |path|
  {
    if path == [] then 0.0
    else
      var q := path[..|path| - 1];
      assert InRange(q, |nodes|);
      Score(nodes, q) + NodeScore(nodes[path[|path| - 1]])
  }

  /** A one-node path is worth that node's score. */
  lemma ScoreSingle(nodes: seq<Node>, i: nat)
    requires i < |nodes| && BiomesInRange(nodes)
    ensures InRange([i], |nodes|) && Score(nodes, [i]) == NodeScore(nodes[i])
  {
  }

  /** The worth of two paths joined is the sum of their worths. */
  lemma {:induction false} ScoreConcat(nodes: seq<Node>, a: seq<nat>, b: seq<nat>)
    requires InRange(a, |nodes|) && InRange(b, |nodes|) && BiomesInRange(nodes)
    ensures InRange(a + b, |nodes|)
    ensures Score(nodes, a + b) == Score(nodes, a) + Score(nodes, b)
    decreases |b|
  {
    assert InRange(a + b, |nodes|);
    if b != [] {
      var q := b[..|b| - 1];
      assert InRange(q, |nodes|);
      ScoreConcat(nodes, a, q);
      assert (a + b)[..|a + b| - 1] == a + q;
    } else {
      assert a + b == a;
    }
  }

  /** CalculateScore: the node scores of the path, summed in path order from 0. */
  method CalculateScore(nodes: seq<Node>, path: seq<nat>) returns (r: real)
    requires InRange(path, |nodes|) && BiomesInRange(nodes)
    ensures r == Score(nodes, path)
  {
    r := 0.0;
    var i := 0;
    while i < |path|
      invariant 0 <= i <= |path| && InRange(path[..i], |nodes|)
      invariant r == Score(nodes, path[..i])
    {
      assert path[..i + 1][..i] == path[..i];
      r := r + NodeScore(nodes[path[i]]);
      i := i + 1;
    }
    assert path[..i] == path;
  }

  /**
    Position `b` holds the greatest value, and no earlier position holds a
    value as great: what a stable descending sort puts first.
   */
  predicate IsFirstMax(scores: seq<real>, b: nat)
  {
    && b < |scores|
    && (forall i :: 0 <= i < |scores| ==> scores[i] <= scores[b])
    && (forall i :: 0 <= i < b ==> scores[i] < scores[b])
  }

  /** At most one position is the first maximum. */
  lemma FirstMaxUnique(scores: seq<real>, b1: nat, b2: nat)
    requires IsFirstMax(scores, b1) && IsFirstMax(scores, b2)
    ensures b1 == b2
  {
    assert scores[b1] == scores[b2];
  }

  /** The head of the candidates ordered by descending worth: a scan that keeps the first strict maximum. */
  method BestIndex(scores: seq<real>) returns (b: nat)
    requires |scores| > 0
    ensures IsFirstMax(scores, b)
  {
    b := 0;
    var i := 1;
    while i < |scores|
      invariant b < i <= |scores|
      invariant forall k :: 0 <= k < i ==> scores[k] <= scores[b]
      invariant forall k :: 0 <= k < b ==> scores[k] < scores[b]
    {
      if scores[i] > scores[b] {
        b := i;
      }
      i := i + 1;
    }
  }
}
