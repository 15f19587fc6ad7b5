/**
  Paths through the node store, as lists of node indices: the walks the
  search builds, which start at the north pole, follow successor edges and
  never revisit a node.  Also the finite universe such paths live in, which
  bounds the search.
 */
module Paths {
  import opened Graph

  /** Every index names one of `n` nodes. */
  predicate InRange(s: seq<nat>, n: nat)
  {
    forall i :: 0 <= i < |s| ==> s[i] < n
  }

  /** No index occurs twice, checked element by element from the end. */
  predicate DupFree(s: seq<nat>)
    decreases |s|
  {
    |s| == 0 || (DupFree(s[..|s| - 1]) && s[|s| - 1] !in s[..|s| - 1])
  }

  /** No index occurs twice, as a statement about every pair of positions. */
  predicate Distinct(s: seq<nat>)
  {
    forall i, j :: 0 <= i < j < |s| ==> s[i] != s[j]
  }

  lemma {:induction false} DupFreeIsDistinct(s: seq<nat>)
    ensures DupFree(s) <==> Distinct(s)
    decreases |s|
  {
    if |s| > 0 {
      var q := s[..|s| - 1];
      DupFreeIsDistinct(q);
      assert forall i :: 0 <= i < |q| ==> q[i] == s[i];
      if Distinct(s) {
        assert Distinct(q);
      }
    }
  }

  /**
    A path the search may hold: it starts at `north`, each further index is
    a successor of the one before it, and no node is visited twice.
   */
  predicate SimpleWalk(g: Graph, north: nat, s: seq<nat>)
    decreases |s|
  {
    if |s| == 0 then false
    else if |s| == 1 then s[0] == north && north < |g.nodes|
    else
      var q := s[..|s| - 1];
      var c := s[|s| - 1];
      && SimpleWalk(g, north, q)
      && q[|q| - 1] < |g.succ| && c in g.succ[q[|q| - 1]]
      && c < |g.nodes| && c !in q
  }

  /** Extending a path by one node: the step the search takes for every successor it tries. */
  lemma SimpleWalkExtend(g: Graph, north: nat, p: seq<nat>, c: nat)
    requires |p| > 0
    ensures SimpleWalk(g, north, p + [c]) <==>
      && SimpleWalk(g, north, p)
      && p[|p| - 1] < |g.succ| && c in g.succ[p[|p| - 1]]
      && c < |g.nodes| && c !in p
  {
  }

  /** Every edge of a path: each index after the first is a successor of the one before. */
  ghost predicate Follows(g: Graph, s: seq<nat>)
  {
    forall i :: 0 <= i < |s| - 1 ==> s[i] < |g.succ| && s[i + 1] in g.succ[s[i]]
  }

  /** The position-by-position facts of a list, split into its first part and its last index. */
  lemma SplitLast(g: Graph, s: seq<nat>)
    requires |s| > 1
    ensures var q, c := s[..|s| - 1], s[|s| - 1];
      && (InRange(s, |g.nodes|) <==> InRange(q, |g.nodes|) && c < |g.nodes|)
      && (Follows(g, s) <==> Follows(g, q) && q[|q| - 1] < |g.succ| && c in g.succ[q[|q| - 1]])
      && s[0] == q[0]
  {
  }

  /** SimpleWalk, stated position by position. */
  lemma {:induction false} SimpleWalkMeans(g: Graph, north: nat, s: seq<nat>)
    ensures SimpleWalk(g, north, s) <==>
      |s| > 0 && s[0] == north && InRange(s, |g.nodes|) && DupFree(s) && Follows(g, s)
    decreases |s|
  {
    if |s| == 1 {
      assert s[..0] == [];
      assert DupFree(s);
      assert InRange(s, |g.nodes|) <==> s[0] < |g.nodes|;
    } else if |s| > 1 {
      var q := s[..|s| - 1];
      SimpleWalkMeans(g, north, q);
      SplitLast(g, s);
      assert DupFree(s) <==> DupFree(q) && s[|s| - 1] !in q;
    }
  }

  /** The distinct values of a list. */
  ghost function Elems(s: seq<nat>): set<nat>
  {
    set x | x in s
  }

  lemma {:induction false} ElemsCard(s: seq<nat>)
    requires DupFree(s)
    ensures |Elems(s)| == |s|
    decreases |s|
  {
    if |s| > 0 {
      var q := s[..|s| - 1];
      ElemsCard(q);
      assert s == q + [s[|s| - 1]];
      assert Elems(s) == Elems(q) + {s[|s| - 1]};
    }
  }

  /** The indices of `n` nodes. */
  ghost function Below(n: nat): set<nat>
  {
    if n == 0 then {} else Below(n - 1) + {n - 1}
  }

  lemma {:induction false} BelowFacts(n: nat)
    ensures |Below(n)| == n
    ensures forall x: nat :: x in Below(n) <==> x < n
  {
    if n > 0 {
      BelowFacts(n - 1);
      assert n - 1 !in Below(n - 1);
      forall x: nat ensures x in Below(n) <==> x < n {
        assert x in Below(n) <==> x in Below(n - 1) || x == n - 1;
      }
    }
  }

  lemma SubsetCard<T>(a: set<T>, b: set<T>)
    requires a <= b
    ensures |a| <= |b|
  {
    assert b == a + (b - a);
    assert a * (b - a) == {};
  }

  /** The pigeonhole bound: a list of distinct indices of `n` nodes has at most `n` entries. */
  lemma DupFreeBound(s: seq<nat>, n: nat)
    requires InRange(s, n) && DupFree(s)
    ensures |s| <= n
  {
    ElemsCard(s);
    BelowFacts(n);
    SubsetCard(Elems(s), Below(n));
  }

  /** Every list of at most `len` indices of `n` nodes. */
  ghost function Bounded(n: nat, len: nat): set<seq<nat>>
  {
    if len == 0 then {[]}
    else {[]} + set s, x: nat | s in Bounded(n, len - 1) && x < n :: s + [x]
  }

  lemma {:induction false} BoundedComplete(n: nat, len: nat, s: seq<nat>)
    requires InRange(s, n) && |s| <= len
    ensures s in Bounded(n, len)
  {
    if s != [] {
      var q := s[..|s| - 1];
      BoundedComplete(n, len - 1, q);
      assert s == q + [s[|s| - 1]];
    }
  }

  /** Every path the search can hold on a graph of `n` nodes lies in one finite set. */
  lemma SimpleWalkBounded(g: Graph, north: nat, s: seq<nat>)
    requires SimpleWalk(g, north, s)
    ensures s in Bounded(|g.nodes|, |g.nodes|)
  {
    SimpleWalkMeans(g, north, s);
    DupFreeBound(s, |g.nodes|);
    BoundedComplete(|g.nodes|, |g.nodes|, s);
  }
}
