/**
  The planet and the derivation of its topology once its nodes are loaded:
  the grid is wrapped east to west, not wrapped north to south, and closed
  by two pole nodes that get shortcut edges to and from the rows next to them.
 */
module Topology {
  import opened Wrappers
  import opened Graph
  import opened Sorted
  import opened Int32

  /** The planet's node store and its two poles, which are unset until a derivation succeeds. */
  datatype Planet = Planet(graph: Graph, north: Option<nat>, south: Option<nat>)

  /** Why ImportFromFile throws once the nodes are loaded. */
  datatype ImportError =
    | NoNodes      // `First()` on the empty list of y values
    | NoNorthPole  // no node at (0, maxY)
    | NoSouthPole  // no node at (0, minY)

  /** A planet fresh from the constructor. */
  const Empty := Planet(EmptyGraph, None, None)

  function Xs(nodes: seq<Node>): (r: seq<int>)
    ensures |r| == |nodes| && forall i :: 0 <= i < |nodes| ==> r[i] == nodes[i].coord.x
  {
    seq(|nodes|, i requires 0 <= i < |nodes| => nodes[i].coord.x)
  }

  /** The least y of any node. */
  function MinY(nodes: seq<Node>): int
    requires |nodes| > 0
  {
    if |nodes| == 1 then nodes[0].coord.y
    else
      var m := MinY(nodes[1..]);
      if nodes[0].coord.y < m then nodes[0].coord.y else m
  }

  /** MinY is the y of some node, and no node lies below it. */
  lemma {:induction false} MinYIsLeast(nodes: seq<Node>)
    requires |nodes| > 0
    ensures exists i :: 0 <= i < |nodes| && nodes[i].coord.y == MinY(nodes)
    ensures forall i :: 0 <= i < |nodes| ==> MinY(nodes) <= nodes[i].coord.y
  {
    if |nodes| > 1 {
      MinYIsLeast(nodes[1..]);
      assert forall i :: 1 <= i < |nodes| ==> nodes[i] == nodes[1..][i - 1];
      var i :| 0 <= i < |nodes[1..]| && nodes[1..][i].coord.y == MinY(nodes[1..]);
      if nodes[0].coord.y < MinY(nodes[1..]) {
        assert nodes[0].coord.y == MinY(nodes);
      } else {
        assert nodes[i + 1].coord.y == MinY(nodes);
      }
    } else {
      assert nodes[0].coord.y == MinY(nodes);
    }
  }

  /** The greatest y of any node. */
  function MaxY(nodes: seq<Node>): int
    requires |nodes| > 0
  {
    if |nodes| == 1 then nodes[0].coord.y
    else
      var m := MaxY(nodes[1..]);
      if nodes[0].coord.y > m then nodes[0].coord.y else m
  }

  /** MaxY is the y of some node, and no node lies above it. */
  lemma {:induction false} MaxYIsGreatest(nodes: seq<Node>)
    requires |nodes| > 0
    ensures exists i :: 0 <= i < |nodes| && nodes[i].coord.y == MaxY(nodes)
    ensures forall i :: 0 <= i < |nodes| ==> nodes[i].coord.y <= MaxY(nodes)
  {
    if |nodes| > 1 {
      MaxYIsGreatest(nodes[1..]);
      assert forall i :: 1 <= i < |nodes| ==> nodes[i] == nodes[1..][i - 1];
      var i :| 0 <= i < |nodes[1..]| && nodes[1..][i].coord.y == MaxY(nodes[1..]);
      if nodes[0].coord.y > MaxY(nodes[1..]) {
        assert nodes[0].coord.y == MaxY(nodes);
      } else {
        assert nodes[i + 1].coord.y == MaxY(nodes);
      }
    } else {
      assert nodes[0].coord.y == MaxY(nodes);
    }
  }

  /** The sorted distinct x values. */
  function XValues(nodes: seq<Node>): (r: seq<int>)
    ensures forall i :: 0 <= i < |nodes| ==> nodes[i].coord.x in r
  {
    var xs := DistinctSorted(Xs(nodes));
    assert forall i :: 0 <= i < |nodes| ==> Xs(nodes)[i] in xs;
    xs
  }

  /** The x values are ascending and without repeats, and each is the x of some node. */
  lemma XValuesSorted(nodes: seq<Node>)
    ensures StrictlySorted(XValues(nodes))
    ensures forall w :: w in XValues(nodes) ==> exists i :: 0 <= i < |nodes| && nodes[i].coord.x == w
  {
    DistinctSortedSorted(Xs(nodes));
  }

  /** Every node's x is one of `xs`. */
  predicate XsCover(nodes: seq<Node>, xs: seq<int>)
  {
    forall k :: 0 <= k < |nodes| ==> nodes[k].coord.x in xs
  }

  /**
    The east neighbour's x: the next larger x value, or the smallest one when
    `x` is the largest (the wrap-around).
   */
  function East(xs: seq<int>, x: int): (r: int)
    requires x in xs
    ensures r in xs
  {
    if x == xs[|xs| - 1] then xs[0] else xs[IndexOf(xs, x) + 1]
  }

  /** On a sorted list, East is the next larger value, wrapping to the least one from the greatest. */
  lemma EastIsNext(xs: seq<int>, x: int)
    requires StrictlySorted(xs) && x in xs
    ensures x == xs[|xs| - 1] ==> forall w :: w in xs ==> East(xs, x) <= w
    ensures x != xs[|xs| - 1] ==> x < East(xs, x) && forall w :: w in xs && x < w ==> East(xs, x) <= w
  {
  }

  /**
    The west neighbour's x: the next smaller x value, or the largest one when
    `x` is the smallest (the wrap-around).
   */
  function West(xs: seq<int>, x: int): (r: int)
    requires x in xs
    ensures r in xs
  {
    if x == xs[0] then xs[|xs| - 1] else xs[IndexOf(xs, x) - 1]
  }

  /** On a sorted list, West is the next smaller value, wrapping to the greatest one from the least. */
  lemma WestIsPrevious(xs: seq<int>, x: int)
    requires StrictlySorted(xs) && x in xs
    ensures x == xs[0] ==> forall w :: w in xs ==> w <= West(xs, x)
    ensures x != xs[0] ==> West(xs, x) < x && forall w :: w in xs && w < x ==> w <= West(xs, x)
  {
  }

  /**
    The coordinates node `c` probes, in order: north, south, east, west.
    The vertical probes are `int` sums, so they wrap at the ends of the range.
   */
  function Probes(c: Coord, xs: seq<int>): seq<Coord>
    requires c.x in xs
  {
    [Coord(c.x, Inc32(c.y)), Coord(c.x, Dec32(c.y)), Coord(East(xs, c.x), c.y), Coord(West(xs, c.x), c.y)]
  }

  /** AddSuccessor from `c` to each of `ts`, in order. */
  function LinkAll(g: Graph, c: Coord, ts: seq<Coord>): (r: Graph)
    requires Indexed(g)
    decreases |ts|
    ensures r.nodes == g.nodes && Indexed(r)
    ensures EdgesWithin(g.succ, |g.nodes|) ==> EdgesWithin(r.succ, |r.nodes|)
  {
    if ts == [] then g
    else LinkAll(AddSuccessor(g, c, ts[0]), c, ts[1..])
  }

  /** The four neighbour probes of node `i`. */
  function LinkNode(g: Graph, i: nat, xs: seq<int>): (r: Graph)
    requires Indexed(g) && i < |g.nodes| && g.nodes[i].coord.x in xs
    ensures r.nodes == g.nodes && Indexed(r)
    ensures EdgesWithin(g.succ, |g.nodes|) ==> EdgesWithin(r.succ, |r.nodes|)
  {
    LinkAll(g, g.nodes[i].coord, Probes(g.nodes[i].coord, xs))
  }

  /** The grid loop over the nodes from index `i` on, in array order. */
  function LinkGridFrom(g: Graph, i: nat, xs: seq<int>): (r: Graph)
    requires Indexed(g) && i <= |g.nodes| && XsCover(g.nodes, xs)
    decreases |g.nodes| - i
    ensures r.nodes == g.nodes && Indexed(r)
    ensures EdgesWithin(g.succ, |g.nodes|) ==> EdgesWithin(r.succ, |r.nodes|)
  {
    if i == |g.nodes| then g
    else LinkGridFrom(LinkNode(g, i, xs), i + 1, xs)
  }

  /** A pole loop from index `i` on: every node in `row` gets an edge to `pole` and one back. */
  function LinkPoleFrom(g: Graph, i: nat, row: int, pole: Coord): (r: Graph)
    requires Indexed(g) && i <= |g.nodes|
    decreases |g.nodes| - i
    ensures r.nodes == g.nodes && Indexed(r)
    ensures EdgesWithin(g.succ, |g.nodes|) ==> EdgesWithin(r.succ, |r.nodes|)
  {
    if i == |g.nodes| then g
    else
      var c := g.nodes[i].coord;
      var g' := if c.y == row then AddSuccessor(AddSuccessor(g, c, pole), pole, c) else g;
      LinkPoleFrom(g', i + 1, row, pole)
  }

  /**
    The edge-adding part of the derivation: the grid loop, then the south
    pole loop over `southRow` and the north pole loop over `northRow`.
    Derive passes the rows `minY + 1` and `maxY - 1`, computed as `int` sums.
   */
  function Wire(g: Graph, minY: int, maxY: int, southRow: int, northRow: int): (r: Graph)
    requires Indexed(g)
    ensures r.nodes == g.nodes && Indexed(r)
    ensures EdgesWithin(g.succ, |g.nodes|) ==> EdgesWithin(r.succ, |r.nodes|)
  {
    var g1 := LinkGridFrom(g, 0, XValues(g.nodes));
    var g2 := LinkPoleFrom(g1, 0, southRow, Coord(0, minY));
    LinkPoleFrom(g2, 0, northRow, Coord(0, maxY))
  }

  /**
    The topology half of ImportFromFile: pick the poles at (0, maxY) and
    (0, minY), link the grid, then link the rows next to the poles.
   */
  function Derive(g: Graph): (r: Result<Planet, ImportError>)
    requires Indexed(g)
    ensures r == Failure(NoNodes) <==> |g.nodes| == 0
    ensures r == Failure(NoNorthPole) <==> |g.nodes| > 0 && Find(g.nodes, Coord(0, MaxY(g.nodes))).None?
    ensures r == Failure(NoSouthPole) <==>
      && |g.nodes| > 0 && Find(g.nodes, Coord(0, MaxY(g.nodes))).Some?
      && Find(g.nodes, Coord(0, MinY(g.nodes))).None?
    ensures r.Success? ==>
      && r.value.graph.nodes == g.nodes && Indexed(r.value.graph)
      && r.value.north.Some? && r.value.north == Find(g.nodes, Coord(0, MaxY(g.nodes)))
      && r.value.south.Some? && r.value.south == Find(g.nodes, Coord(0, MinY(g.nodes)))
      && r.value.graph == Wire(g, MinY(g.nodes), MaxY(g.nodes), Inc32(MinY(g.nodes)), Dec32(MaxY(g.nodes)))
    ensures r.Success? && Valid(g) ==> Valid(r.value.graph)
  {
    if |g.nodes| == 0 then Failure(NoNodes)
    else
      var minY, maxY := MinY(g.nodes), MaxY(g.nodes);
      var north, south := Find(g.nodes, Coord(0, maxY)), Find(g.nodes, Coord(0, minY));
      if north.None? then Failure(NoNorthPole)
      else if south.None? then Failure(NoSouthPole)
      else Success(Planet(Wire(g, minY, maxY, Inc32(minY), Dec32(maxY)), north, south))
  }

  /** ImportFromFile on already-parsed lines: load the nodes, then derive the topology. */
  function ImportFromFile(p: Planet, recs: seq<Node>): (r: Result<Planet, ImportError>)
    requires Indexed(p.graph)
    ensures r == Failure(NoNodes) <==> |p.graph.nodes| == 0 && |recs| == 0
    ensures r.Success? ==> forall k :: 0 <= k < |recs| ==> Find(r.value.graph.nodes, recs[k].coord).Some?
    ensures r.Success? ==>
      |p.graph.nodes| <= |r.value.graph.nodes| && r.value.graph.nodes[..|p.graph.nodes|] == p.graph.nodes
    ensures r.Success? && UniqueCoords(p.graph.nodes) ==> UniqueCoords(r.value.graph.nodes)
    ensures r.Success? && Valid(p.graph) ==> Valid(r.value.graph)
  {
    var g := Load(p.graph, recs);
    assert |recs| > 0 ==> Find(g.nodes, recs[0].coord).Some?;
    Derive(g)
  }
}
