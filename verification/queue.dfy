/**
  The search frontier: a SortedSet of path entries ordered by a comparer
  that looks at the score alone and in reverse, so two entries of equal
  score count as the same element and `Max` is the entry of LOWEST score.
  It is kept as a list in ascending score order, whose head is that `Max`.
 */
module Frontier {

  /** A frontier entry: the node reached, the score recorded for the path, and the path itself. */
  datatype PathNode = PathNode(node: nat, score: real, path: seq<nat>)

  /** The set's comparer: the sign of `b`'s score compared with `a`'s. */
  function Compare(a: PathNode, b: PathNode): (r: int)
    ensures r < 0 <==> b.score < a.score
    ensures r == 0 <==> a.score == b.score
    ensures r > 0 <==> a.score < b.score
  {
    if b.score < a.score then -1 else if b.score == a.score then 0 else 1
  }

  /** Scores strictly increase along the list: no two entries tie. */
  predicate Ascending(q: seq<PathNode>)
    decreases |q|
  {
    |q| <= 1 || (q[0].score < q[1].score && Ascending(q[1..]))
  }

  /** Every later entry scores above the head, and no two entries share a score. */
  lemma {:induction false} AscendingMeans(q: seq<PathNode>)
    requires Ascending(q)
    ensures forall i, j :: 0 <= i < j < |q| ==> q[i].score < q[j].score
    decreases |q|
  {
    if |q| > 1 {
      AscendingMeans(q[1..]);
      forall i, j | 0 <= i < j < |q| ensures q[i].score < q[j].score {
        if i > 0 {
          assert q[i] == q[1..][i - 1] && q[j] == q[1..][j - 1];
        } else if j > 1 {
          assert q[1] == q[1..][0] && q[j] == q[1..][j - 1];
        }
      }
    }
  }

  /** The scores in the set: the keys under which the comparer tells entries apart. */
  function Scores(q: seq<PathNode>): set<real>
    decreases |q|
  {
    if q == [] then {} else {q[0].score} + Scores(q[1..])
  }

  /** A score is in the set exactly when some entry carries it. */
  lemma {:induction false} ScoresMeans(q: seq<PathNode>, v: real)
    ensures v in Scores(q) <==> exists i :: 0 <= i < |q| && q[i].score == v
    decreases |q|
  {
    if q != [] {
      ScoresMeans(q[1..], v);
      if v in Scores(q[1..]) {
        var i :| 0 <= i < |q[1..]| && q[1..][i].score == v;
        assert q[i + 1].score == v;
      }
      if exists i :: 0 <= i < |q| && q[i].score == v {
        var i :| 0 <= i < |q| && q[i].score == v;
        if i > 0 {
          assert q[1..][i - 1].score == v;
        }
      }
    }
  }

  /** SortedSet.Add: the entry goes in at its place in the score order, unless its score is already taken. */
  function Enqueue(q: seq<PathNode>, e: PathNode): (r: seq<PathNode>)
    requires Ascending(q)
    decreases |q|
    ensures Ascending(r)
    ensures r != [] && (r[0] == e || (q != [] && r[0] == q[0]))
  {
    if q == [] then [e]
    else if e.score < q[0].score then [e] + q
    else if e.score == q[0].score then q
    else
      var r := [q[0]] + Enqueue(q[1..], e);
      assert r[1..] == Enqueue(q[1..], e);
      r
  }

  /** Add keeps every entry, and the only entry it can bring in is the new one. */
  lemma {:induction false} EnqueueKeeps(q: seq<PathNode>, e: PathNode)
    requires Ascending(q)
    ensures forall x :: x in q ==> x in Enqueue(q, e)
    ensures forall x :: x in Enqueue(q, e) ==> x in q || x == e
    decreases |q|
  {
    if q != [] && e.score > q[0].score {
      EnqueueKeeps(q[1..], e);
      assert Enqueue(q, e) == [q[0]] + Enqueue(q[1..], e);
    }
  }

  /** After Add the set's scores are the old ones and the new entry's. */
  lemma {:induction false} EnqueueScores(q: seq<PathNode>, e: PathNode)
    requires Ascending(q)
    ensures Scores(Enqueue(q, e)) == Scores(q) + {e.score}
    decreases |q|
  {
    if q != [] && e.score > q[0].score {
      EnqueueScores(q[1..], e);
      var r := Enqueue(q, e);
      assert r == [q[0]] + Enqueue(q[1..], e);
      assert r[1..] == Enqueue(q[1..], e);
    } else if q != [] && e.score < q[0].score {
      assert ([e] + q)[1..] == q;
    }
  }

  /**
    The comparer's ties: an entry whose score is already present is dropped
    and the set is unchanged; otherwise the set gains exactly that entry.
   */
  lemma {:induction false} EnqueueTie(q: seq<PathNode>, e: PathNode)
    requires Ascending(q)
    ensures e.score in Scores(q) ==> Enqueue(q, e) == q
    ensures e.score !in Scores(q) ==> |Enqueue(q, e)| == |q| + 1 && e in Enqueue(q, e)
    decreases |q|
  {
    if q != [] {
      if e.score < q[0].score {
        AscendingMeans(q);
        ScoresMeans(q, e.score);
      } else if e.score > q[0].score {
        EnqueueTie(q[1..], e);
        assert Enqueue(q, e) == [q[0]] + Enqueue(q[1..], e);
      }
    }
  }

  /** The element `Max` picks: in the set, and no entry above it in the comparer's order. */
  predicate IsMax(q: seq<PathNode>, m: PathNode)
  {
    m in q && forall x :: x in q ==> Compare(x, m) <= 0
  }

  /** On the ascending list the head is the set's `Max`, the lowest score, and it is the only such entry. */
  lemma HeadIsMax(q: seq<PathNode>)
    requires Ascending(q) && q != []
    ensures IsMax(q, q[0])
    ensures forall m :: IsMax(q, m) ==> m == q[0]
    ensures forall x :: x in q[1..] ==> q[0].score < x.score
  {
  }

  /** Removing the `Max` leaves the rest of the list, still ascending. */
  lemma RemoveMax(q: seq<PathNode>)
    requires Ascending(q) && q != []
    ensures Ascending(q[1..])
    ensures forall x :: x in q <==> x == q[0] || x in q[1..]
    ensures q[0] !in q[1..]
  {
    HeadIsMax(q);
  }
}
