/**
  The node store of a planet.  Nodes are never removed, so a node is
  identified by its index in insertion order, and a successor edge is stored
  as the index of its target.  A node's fixed data (coordinate, biome,
  quality) and its successor list are kept in two sequences indexed alike:
  adding edges then leaves the nodes themselves untouched.
 */
module Graph {
  import opened Wrappers

  /** A grid position; the source keys nodes by the text "x,y". */
  datatype Coord = Coord(x: int, y: int)

  /** A location's fixed data: coordinate, biome index and quality.  One parsed input line is one of these. */
  datatype Node = Node(coord: Coord, biome: int, quality: real)

  /** The nodes in insertion order, and for each the successor indices in the order they were added. */
  datatype Graph = Graph(nodes: seq<Node>, succ: seq<seq<nat>>)

  /** No nodes and no edges, as a fresh planet starts. */
  const EmptyGraph := Graph([], [])

  /** Every node has exactly one successor list. */
  predicate Indexed(g: Graph)
  {
    |g.succ| == |g.nodes|
  }

  /** Every edge points at a node. */
  predicate EdgesWithin(succ: seq<seq<nat>>, n: nat)
  {
    forall i, k :: 0 <= i < |succ| && 0 <= k < |succ[i]| ==> succ[i][k] < n
  }

  /** The representation invariant: one successor list per node, and edges only to nodes. */
  predicate Valid(g: Graph)
  {
    Indexed(g) && EdgesWithin(g.succ, |g.nodes|)
  }

  /** No two nodes share a coordinate. */
  predicate UniqueCoords(nodes: seq<Node>)
  {
    forall i, j :: 0 <= i < j < |nodes| ==> nodes[i].coord != nodes[j].coord
  }

  function FindFrom(nodes: seq<Node>, c: Coord, i: nat): (r: Option<nat>)
    requires i <= |nodes|
    decreases |nodes| - i
    ensures r.Some? ==> i <= r.value < |nodes| && nodes[r.value].coord == c
  {
    if i == |nodes| then None
    else if nodes[i].coord == c then Some(i)
    else FindFrom(nodes, c, i + 1)
  }

  lemma {:induction false} FindFromFirst(nodes: seq<Node>, c: Coord, i: nat)
    requires i <= |nodes|
    ensures FindFrom(nodes, c, i).Some? ==>
      forall j :: i <= j < FindFrom(nodes, c, i).value ==> nodes[j].coord != c
    ensures FindFrom(nodes, c, i).None? <==> forall j :: i <= j < |nodes| ==> nodes[j].coord != c
    decreases |nodes| - i
  {
    if i < |nodes| && nodes[i].coord != c {
      FindFromFirst(nodes, c, i + 1);
    }
  }

  /** GetNode: the first node whose coordinate is `c`, or None when there is none. */
  function Find(nodes: seq<Node>, c: Coord): (r: Option<nat>)
    ensures r.Some? ==> r.value < |nodes| && nodes[r.value].coord == c
  {
    FindFrom(nodes, c, 0)
  }

  /** The lookup is first-match, and it misses exactly when no node has the coordinate. */
  lemma FindFirst(nodes: seq<Node>, c: Coord)
    ensures Find(nodes, c).Some? ==> forall j :: 0 <= j < Find(nodes, c).value ==> nodes[j].coord != c
    ensures Find(nodes, c).None? <==> forall j :: 0 <= j < |nodes| ==> nodes[j].coord != c
  {
    FindFromFirst(nodes, c, 0);
  }

  /** With unique coordinates, a node's own coordinate finds that node. */
  lemma FindOwn(nodes: seq<Node>, i: nat)
    requires UniqueCoords(nodes) && i < |nodes|
    ensures Find(nodes, nodes[i].coord) == Some(i)
  {
    FindFirst(nodes, nodes[i].coord);
  }

  /** Every node is the one its own coordinate finds: unique coordinates, as the lookups see them. */
  predicate OwnFound(nodes: seq<Node>)
  {
    forall i :: 0 <= i < |nodes| ==> Find(nodes, nodes[i].coord) == Some(i)
  }

  lemma UniqueOwnFound(nodes: seq<Node>)
    requires UniqueCoords(nodes)
    ensures OwnFound(nodes)
  {
    forall i | 0 <= i < |nodes| ensures Find(nodes, nodes[i].coord) == Some(i) {
      FindOwn(nodes, i);
    }
  }

  lemma {:induction false} FindFromPrefix(nodes: seq<Node>, more: seq<Node>, c: Coord, i: nat)
    requires i <= |nodes| <= |more| && more[..|nodes|] == nodes && FindFrom(nodes, c, i).Some?
    ensures FindFrom(more, c, i) == FindFrom(nodes, c, i)
    decreases |nodes| - i
  {
    assert more[i] == more[..|nodes|][i];
    if nodes[i].coord != c {
      FindFromPrefix(nodes, more, c, i + 1);
    }
  }

  /** Appending nodes never changes a lookup that already hits. */
  lemma FindPrefix(nodes: seq<Node>, more: seq<Node>, c: Coord)
    requires |nodes| <= |more| && more[..|nodes|] == nodes && Find(nodes, c).Some?
    ensures Find(more, c) == Find(nodes, c)
  {
    FindFromPrefix(nodes, more, c, 0);
  }

  /** A lookup with one node appended: a hit stands, otherwise the new node may match. */
  lemma FindAppend(nodes: seq<Node>, n: Node, d: Coord)
    ensures Find(nodes + [n], d) ==
      if Find(nodes, d).Some? then Find(nodes, d) else if n.coord == d then Some(|nodes|) else None
  {
    var more := nodes + [n];
    assert more[..|nodes|] == nodes;
    FindFirst(nodes, d);
    FindFirst(more, d);
    if Find(nodes, d).Some? {
      FindPrefix(nodes, more, d);
    } else if n.coord == d {
      assert more[|nodes|].coord == d;
    }
  }

  /**
    AddNode: a node for `c` is appended, with no successors, only when no
    node has that coordinate yet; the first write wins.
   */
  function AddNode(g: Graph, c: Coord, biome: int, quality: real): (r: Graph)
    ensures Find(g.nodes, c).Some? ==> r == g
    ensures Find(g.nodes, c).None? ==>
      && |r.nodes| == |g.nodes| + 1 && r.nodes[..|g.nodes|] == g.nodes
      && |r.succ| == |g.succ| + 1 && r.succ[..|g.succ|] == g.succ
    ensures Find(r.nodes, c).Some?
    ensures Find(g.nodes, c).None? ==>
      && Find(r.nodes, c) == Some(|g.nodes|) && r.nodes[|g.nodes|] == Node(c, biome, quality)
      && (Indexed(g) ==> r.succ[|g.nodes|] == [])
    ensures forall d :: d != c ==> Find(r.nodes, d) == Find(g.nodes, d)
    ensures UniqueCoords(g.nodes) ==> UniqueCoords(r.nodes)
    ensures Indexed(g) ==> Indexed(r)
    ensures Valid(g) ==> Valid(r)
  {
    if Find(g.nodes, c).None? then
      var n := Node(c, biome, quality);
      var r := Graph(g.nodes + [n], g.succ + [[]]);
      assert Find(r.nodes, c) == Some(|g.nodes|) && forall d :: d != c ==> Find(r.nodes, d) == Find(g.nodes, d)
      by {
        FindAppend(g.nodes, n, c);
        forall d | d != c ensures Find(r.nodes, d) == Find(g.nodes, d) {
          FindAppend(g.nodes, n, d);
        }
      }
      assert forall j :: 0 <= j < |g.nodes| ==> g.nodes[j].coord != c by {
        FindFirst(g.nodes, c);
      }
      assert r.succ[..|g.succ|] == g.succ;
      r
    else g
  }

  /**
    AddSuccessor: when nodes for both `a` and `b` exist, the node found for
    `b` is appended to the successor list of the node found for `a`;
    otherwise nothing changes.
   */
  function AddSuccessor(g: Graph, a: Coord, b: Coord): (r: Graph)
    requires Indexed(g)
    ensures r.nodes == g.nodes && Indexed(r)
    ensures EdgesWithin(g.succ, |g.nodes|) ==> EdgesWithin(r.succ, |r.nodes|)
  {
    match (Find(g.nodes, a), Find(g.nodes, b))
    case (Some(u), Some(v)) =>
      g.(succ := g.succ[u := g.succ[u] + [v]])
    case _ => g
  }

  /**
    What AddSuccessor does to node `i`: one edge to the node found for `b`
    is appended when `i` is the node found for `a` and `b` is found; every
    other successor list stays as it was.
   */
  lemma AddSuccessorAt(g: Graph, a: Coord, b: Coord, i: nat)
    requires Indexed(g) && i < |g.nodes|
    ensures AddSuccessor(g, a, b).succ[i] ==
      if Find(g.nodes, a) == Some(i) && Find(g.nodes, b).Some? then g.succ[i] + [Find(g.nodes, b).value]
      else g.succ[i]
    ensures Find(g.nodes, a).None? || Find(g.nodes, b).None? ==> AddSuccessor(g, a, b) == g
  {
  }

  /** The node-loading half of ImportFromFile: AddNode for every parsed line, in order. */
  function Load(g: Graph, recs: seq<Node>): (r: Graph)
    decreases |recs|
    ensures |g.nodes| <= |r.nodes| && r.nodes[..|g.nodes|] == g.nodes
    ensures |g.succ| <= |r.succ| && r.succ[..|g.succ|] == g.succ
    ensures forall k :: 0 <= k < |recs| ==> Find(r.nodes, recs[k].coord).Some?
    ensures forall c :: Find(g.nodes, c).Some? ==> Find(r.nodes, c) == Find(g.nodes, c)
    ensures UniqueCoords(g.nodes) ==> UniqueCoords(r.nodes)
    ensures Indexed(g) ==> Indexed(r)
    ensures Valid(g) ==> Valid(r)
  {
    if recs == [] then g
    else
      var g' := AddNode(g, recs[0].coord, recs[0].biome, recs[0].quality);
      var r := Load(g', recs[1..]);
      assert r.nodes[..|g.nodes|] == r.nodes[..|g'.nodes|][..|g.nodes|];
      assert r.succ[..|g.succ|] == r.succ[..|g'.succ|][..|g.succ|];
      assert forall k :: 1 <= k < |recs| ==> recs[k] == recs[1..][k - 1];
      assert forall c :: Find(g.nodes, c).Some? ==> Find(r.nodes, c) == Find(g.nodes, c) by {
        forall c | Find(g.nodes, c).Some? ensures Find(r.nodes, c) == Find(g.nodes, c) {
          FindPrefix(g.nodes, r.nodes, c);
        }
      }
      r
  }

  /** A load appends nothing but parsed lines: every node past the old ones is one of the input records. */
  lemma {:induction false} LoadAppendsOnlyInput(g: Graph, recs: seq<Node>)
    ensures var r := Load(g, recs);
      forall i :: |g.nodes| <= i < |r.nodes| ==> exists k :: 0 <= k < |recs| && r.nodes[i] == recs[k]
    decreases |recs|
  {
    if recs != [] {
      var g' := AddNode(g, recs[0].coord, recs[0].biome, recs[0].quality);
      var r := Load(g, recs);
      assert r == Load(g', recs[1..]);
      LoadAppendsOnlyInput(g', recs[1..]);
      forall i | |g.nodes| <= i < |r.nodes| ensures exists k :: 0 <= k < |recs| && r.nodes[i] == recs[k] {
        if i < |g'.nodes| {
          assert r.nodes[i] == r.nodes[..|g'.nodes|][i] == recs[0];
        } else {
          var k :| 0 <= k < |recs[1..]| && r.nodes[i] == recs[1..][k];
          assert r.nodes[i] == recs[k + 1];
        }
      }
    }
  }

  /**
    First write wins across a whole load: the node for a coordinate that was
    not present before is the first line naming it, and it starts with no
    successors.
   */
  lemma {:induction false} LoadFirstWriteWins(g: Graph, recs: seq<Node>, k: nat)
    requires Indexed(g) && k < |recs|
    requires Find(g.nodes, recs[k].coord).None?
    requires forall j :: 0 <= j < k ==> recs[j].coord != recs[k].coord
    ensures Find(Load(g, recs).nodes, recs[k].coord).Some?
    ensures var r := Load(g, recs); var i := Find(r.nodes, recs[k].coord).value;
      |g.nodes| <= i && r.nodes[i] == recs[k] && i < |r.succ| && r.succ[i] == []
    decreases k
  {
    var c := recs[k].coord;
    var g' := AddNode(g, recs[0].coord, recs[0].biome, recs[0].quality);
    var r := Load(g, recs);
    assert r == Load(g', recs[1..]);
    if k == 0 {
      var i := Find(g'.nodes, c).value;
      FindAppend(g.nodes, recs[0], c);
      assert i == |g.nodes|;
      assert r.nodes[i] == r.nodes[..|g'.nodes|][i];
      assert r.succ[i] == r.succ[..|g'.succ|][i];
    } else {
      assert recs[1..][k - 1] == recs[k];
      LoadFirstWriteWins(g', recs[1..], k - 1);
    }
  }
}
