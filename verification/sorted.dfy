/**
  Ascending lists of distinct integers: the `Distinct().OrderBy(v => v).ToList()`
  coordinate lists, and the `IndexOf` lookup into them.
 */
module Sorted {

  /** Strictly ascending, hence free of duplicates. */
  predicate StrictlySorted(s: seq<int>)
  {
    forall i, j :: 0 <= i < j < |s| ==> s[i] < s[j]
  }

  /** Insert `v` at its place in an ascending list, unless it is already there. */
  function Insert(s: seq<int>, v: int): (r: seq<int>)
    ensures forall w :: w in r <==> w in s || w == v
  {
    if s == [] then [v]
    else if v < s[0] then [v] + s
    else if v == s[0] then s
    else [s[0]] + Insert(s[1..], v)
  }

  /** Insertion keeps an ascending list ascending. */
  lemma {:induction false} InsertSorted(s: seq<int>, v: int)
    requires StrictlySorted(s)
    ensures StrictlySorted(Insert(s, v))
  {
    if s != [] && s[0] < v {
      var t := Insert(s[1..], v);
      InsertSorted(s[1..], v);
      assert forall w :: w in t ==> s[0] < w by {
        assert forall i :: 1 <= i < |s| ==> s[0] < s[i];
      }
      var r := [s[0]] + t;
      assert r == Insert(s, v);
      forall i, j | 0 <= i < j < |r| ensures r[i] < r[j] {
        assert r[j] == t[j - 1];
        if i > 0 {
          assert r[i] == t[i - 1];
        } else {
          assert t[j - 1] in t;
        }
      }
    }
  }

  /** The distinct values of `vals`, in ascending order. */
  function DistinctSorted(vals: seq<int>): (r: seq<int>)
    ensures forall w :: w in r <==> w in vals
  {
    if vals == [] then []
    else Insert(DistinctSorted(vals[..|vals| - 1]), vals[|vals| - 1])
  }

  /** The distinct values come out ascending. */
  lemma {:induction false} DistinctSortedSorted(vals: seq<int>)
    ensures StrictlySorted(DistinctSorted(vals))
  {
    if vals != [] {
      DistinctSortedSorted(vals[..|vals| - 1]);
      InsertSorted(DistinctSorted(vals[..|vals| - 1]), vals[|vals| - 1]);
    }
  }

  /** List.IndexOf: the position of the first occurrence of `v`. */
  function IndexOf(s: seq<int>, v: int): (r: nat)
    requires v in s
    ensures r < |s| && s[r] == v && v !in s[..r]
  {
    if s[0] == v then 0
    else
      var k := IndexOf(s[1..], v);
      assert s[..k + 1] == [s[0]] + s[1..][..k];
      k + 1
  }
}
