/**
  What the topology derivation leaves in every successor list, first exactly
  (in the order the edges are added) and then as the neighbour and pole
  properties the derivation is meant to establish.  All of it assumes unique
  coordinates, which AddNode guarantees for every planet built by loading.
 */
module TopologyProofs {
  import opened Wrappers
  import opened Graph
  import opened Topology
  import opened Int32
  
  /** The node found for `c`, as a list of zero or one index. */
  function Present(nodes: seq<Node>, c: Coord): seq<nat>
  {
    match Find(nodes, c)
    case Some(j) => [j]
    case None => []
  }

  /** The nodes found for `ts`, in order, skipping those that do not exist. */
  function Targets(nodes: seq<Node>, ts: seq<Coord>): seq<nat>
    decreases |ts|
  {
    if ts == [] then [] else Present(nodes, ts[0]) + Targets(nodes, ts[1..])
  }

  /** An index is among the targets exactly when some probed coordinate finds it. */
  lemma {:induction false} TargetsMembers(nodes: seq<Node>, ts: seq<Coord>, j: nat)
    ensures j in Targets(nodes, ts) <==> exists t :: t in ts && Find(nodes, t) == Some(j)
    decreases |ts|
  {
    if ts != [] {
      TargetsMembers(nodes, ts[1..], j);
      assert forall t :: t in ts <==> t == ts[0] || t in ts[1..];
    }
  }

  /** The grid edges of a node at `c`: north, south, east and west neighbours that exist. */
  function GridTargets(nodes: seq<Node>, c: Coord, xs: seq<int>): seq<nat>
    requires c.x in xs
  {
    Targets(nodes, Probes(c, xs))
  }

  /** The nodes from index `i` on whose y is `row`, in array order. */
  function RowFrom(nodes: seq<Node>, i: nat, row: int): seq<nat>
    requires i <= |nodes|
    decreases |nodes| - i
  {
    if i == |nodes| then []
    else if nodes[i].coord.y == row then [i] + RowFrom(nodes, i + 1, row)
    else RowFrom(nodes, i + 1, row)
  }

  lemma {:induction false} RowFromMembers(nodes: seq<Node>, i: nat, row: int, j: nat)
    requires i <= |nodes|
    ensures j in RowFrom(nodes, i, row) <==> i <= j < |nodes| && nodes[j].coord.y == row
    decreases |nodes| - i
  {
    if i < |nodes| {
      RowFromMembers(nodes, i + 1, row, j);
    }
  }

  /**
    The edges a pole loop over `row` from index `i` on adds to node `k`: the
    pole when `k` lies in the row, the row's nodes when `k` is the pole.
   */
  function PoleEdges(nodes: seq<Node>, k: nat, i: nat, row: int, p: nat): seq<nat>
    requires k < |nodes| && i <= |nodes|
  {
    if i <= k && nodes[k].coord.y == row then [p]
    else if k == p then RowFrom(nodes, i, row)
    else []
  }

  lemma ConcatAssoc<T>(a: seq<T>, b: seq<T>, c: seq<T>)
    ensures a + b + c == a + (b + c)
  {
  }

  /** One probe from node `i`'s own coordinate appends the target to node `i` when it exists. */
  lemma LinkFromOwn(g: Graph, i: nat, t: Coord, k: nat)
    requires Indexed(g) && OwnFound(g.nodes) && i < |g.nodes| && k < |g.nodes|
    ensures AddSuccessor(g, g.nodes[i].coord, t).succ[k] ==
      if k == i then g.succ[k] + Present(g.nodes, t) else g.succ[k]
  {
  }

  /** Probing `ts` from node `i`'s own coordinate appends the targets that exist to node `i` only. */
  lemma {:induction false} LinkAllSucc(g: Graph, i: nat, ts: seq<Coord>, k: nat)
    requires Indexed(g) && OwnFound(g.nodes) && i < |g.nodes| && k < |g.nodes|
    ensures LinkAll(g, g.nodes[i].coord, ts).succ[k] ==
      if k == i then g.succ[k] + Targets(g.nodes, ts) else g.succ[k]
    decreases |ts|
  {
    if ts != [] {
      var g' := AddSuccessor(g, g.nodes[i].coord, ts[0]);
      LinkFromOwn(g, i, ts[0], k);
      LinkAllSucc(g', i, ts[1..], k);
      if k == i {
        ConcatAssoc(g.succ[i], Present(g.nodes, ts[0]), Targets(g.nodes, ts[1..]));
      }
    }
  }

  /** LinkNode appends exactly the grid targets to node `i`, in probe order. */
  lemma LinkNodeSucc(g: Graph, i: nat, xs: seq<int>, k: nat)
    requires Indexed(g) && OwnFound(g.nodes) && i < |g.nodes| && g.nodes[i].coord.x in xs && k < |g.nodes|
    ensures LinkNode(g, i, xs).succ[k] ==
      if k == i then g.succ[k] + GridTargets(g.nodes, g.nodes[i].coord, xs) else g.succ[k]
  {
    LinkAllSucc(g, i, Probes(g.nodes[i].coord, xs), k);
  }

  /** The grid loop from index `i` on appends node `k`'s grid targets to it when `k` is not yet passed. */
  lemma {:induction false} LinkGridSucc(g: Graph, i: nat, xs: seq<int>, k: nat)
    requires Indexed(g) && OwnFound(g.nodes) && i <= |g.nodes| && XsCover(g.nodes, xs) && k < |g.nodes|
    ensures LinkGridFrom(g, i, xs).succ[k] ==
      if i <= k then g.succ[k] + GridTargets(g.nodes, g.nodes[k].coord, xs) else g.succ[k]
    decreases |g.nodes| - i
  {
    if i < |g.nodes| {
      var g' := LinkNode(g, i, xs);
      LinkNodeSucc(g, i, xs, k);
      LinkGridSucc(g', i + 1, xs, k);
    }
  }

  /** One pole-loop step for node `i` in the row: an edge from `i` to the pole and one back. */
  lemma PoleStep(g: Graph, i: nat, pole: Coord, p: nat, k: nat)
    requires Indexed(g) && OwnFound(g.nodes) && i < |g.nodes| && k < |g.nodes|
    requires Find(g.nodes, pole) == Some(p) && i != p
    ensures var c := g.nodes[i].coord;
      AddSuccessor(AddSuccessor(g, c, pole), pole, c).succ[k] ==
        if k == i then g.succ[k] + [p] else if k == p then g.succ[k] + [i] else g.succ[k]
  {
  }

  /** What the pole-loop step at index `i` adds to node `k`. */
  function PoleStepEdges(nodes: seq<Node>, k: nat, i: nat, row: int, p: nat): seq<nat>
    requires i < |nodes|
  {
    if nodes[i].coord.y != row then []
    else if k == i then [p]
    else if k == p then [i]
    else []
  }

  /** The pole edges from index `i` on are the step at `i` followed by those from `i + 1` on. */
  lemma PoleEdgesNext(nodes: seq<Node>, k: nat, i: nat, row: int, p: nat)
    requires k < |nodes| && i < |nodes| && p < |nodes| && nodes[p].coord.y != row
    ensures PoleEdges(nodes, k, i, row, p) ==
      PoleStepEdges(nodes, k, i, row, p) + PoleEdges(nodes, k, i + 1, row, p)
  {
  }

  /**
    A pole loop from index `i` on: each later node in `row` gets the pole
    appended, and the pole gets those nodes appended in array order.
   */
  lemma {:induction false} LinkPoleSucc(g: Graph, i: nat, row: int, pole: Coord, p: nat, k: nat)
    requires Indexed(g) && OwnFound(g.nodes) && i <= |g.nodes| && k < |g.nodes|
    requires Find(g.nodes, pole) == Some(p) && pole.y != row
    ensures LinkPoleFrom(g, i, row, pole).succ[k] == g.succ[k] + PoleEdges(g.nodes, k, i, row, p)
    decreases |g.nodes| - i
  {
    if i == |g.nodes| {
      assert PoleEdges(g.nodes, k, i, row, p) == [];
    } else {
      var c := g.nodes[i].coord;
      var g' := if c.y == row then AddSuccessor(AddSuccessor(g, c, pole), pole, c) else g;
      assert g'.succ[k] == g.succ[k] + PoleStepEdges(g.nodes, k, i, row, p) by {
        if c.y == row {
          PoleStep(g, i, pole, p, k);
        }
      }
      LinkPoleSucc(g', i + 1, row, pole, p, k);
      PoleEdgesNext(g.nodes, k, i, row, p);
      ConcatAssoc(g.succ[k], PoleStepEdges(g.nodes, k, i, row, p), PoleEdges(g.nodes, k, i + 1, row, p));
    }
  }

  /** The successor lists Wire leaves, given the indices of the two poles. */
  lemma WireSuccessors(g: Graph, minY: int, maxY: int, rs: int, rn: int, n: nat, s: nat, k: nat)
    requires Indexed(g) && OwnFound(g.nodes) && k < |g.nodes|
    requires rs != minY && rn != maxY
    requires Find(g.nodes, Coord(0, maxY)) == Some(n) && Find(g.nodes, Coord(0, minY)) == Some(s)
    ensures Wire(g, minY, maxY, rs, rn).succ[k] ==
      g.succ[k] + GridTargets(g.nodes, g.nodes[k].coord, XValues(g.nodes))
      + PoleEdges(g.nodes, k, 0, rs, s) + PoleEdges(g.nodes, k, 0, rn, n)
  {
    var xs := XValues(g.nodes);
    var g1 := LinkGridFrom(g, 0, xs);
    var g2 := LinkPoleFrom(g1, 0, rs, Coord(0, minY));
    LinkGridSucc(g, 0, xs, k);
    LinkPoleSucc(g1, 0, rs, Coord(0, minY), s, k);
    LinkPoleSucc(g2, 0, rn, Coord(0, maxY), n, k);
  }

  /** Membership in the pole edges of node `k`: the pole for a row node, the row's nodes for the pole. */
  lemma PoleEdgesMembers(nodes: seq<Node>, k: nat, row: int, p: nat, j: nat)
    requires k < |nodes|
    ensures j in PoleEdges(nodes, k, 0, row, p) <==>
      || (nodes[k].coord.y == row && j == p)
      || (nodes[k].coord.y != row && k == p && j < |nodes| && nodes[j].coord.y == row)
  {
    RowFromMembers(nodes, 0, row, j);
  }

  /** `n` and `s` are the nodes found at (0, maxY) and (0, minY), as Derive picks the poles. */
  predicate PolesAt(nodes: seq<Node>, minY: int, maxY: int, n: nat, s: nat)
  {
    Find(nodes, Coord(0, maxY)) == Some(n) && Find(nodes, Coord(0, minY)) == Some(s)
  }

  /** Membership in a wired successor list, edge source by edge source. */
  lemma WireSuccMembers(g: Graph, minY: int, maxY: int, rs: int, rn: int, n: nat, s: nat, k: nat, j: nat)
    requires Indexed(g) && OwnFound(g.nodes) && PolesAt(g.nodes, minY, maxY, n, s) && k < |g.nodes|
    requires rs != minY && rn != maxY
    ensures var nodes := g.nodes;
      j in Wire(g, minY, maxY, rs, rn).succ[k] <==>
        || j in g.succ[k]
        || j in GridTargets(nodes, nodes[k].coord, XValues(nodes))
        || j in PoleEdges(nodes, k, 0, rs, s)
        || j in PoleEdges(nodes, k, 0, rn, n)
  {
    WireSuccessors(g, minY, maxY, rs, rn, n, s, k);
  }

  /** Every node is linked to each of its probed grid neighbours that exists. */
  lemma WireLinksNeighbours(g: Graph, minY: int, maxY: int, rs: int, rn: int, n: nat, s: nat, k: nat, t: Coord)
    requires Indexed(g) && OwnFound(g.nodes) && PolesAt(g.nodes, minY, maxY, n, s) && k < |g.nodes|
    requires rs != minY && rn != maxY
    requires t in Probes(g.nodes[k].coord, XValues(g.nodes))
    ensures Find(g.nodes, t).Some? ==> Find(g.nodes, t).value in Wire(g, minY, maxY, rs, rn).succ[k]
  {
    if Find(g.nodes, t).Some? {
      var j := Find(g.nodes, t).value;
      TargetsMembers(g.nodes, Probes(g.nodes[k].coord, XValues(g.nodes)), j);
      WireSuccMembers(g, minY, maxY, rs, rn, n, s, k, j);
    }
  }

  /** A node in the row just above the south pole has an edge to the pole and one back. */
  lemma WireLinksSouthPole(g: Graph, minY: int, maxY: int, rs: int, rn: int, n: nat, s: nat, k: nat)
    requires Indexed(g) && OwnFound(g.nodes) && PolesAt(g.nodes, minY, maxY, n, s) && k < |g.nodes|
    requires rs != minY && rn != maxY
    requires g.nodes[k].coord.y == rs
    ensures s in Wire(g, minY, maxY, rs, rn).succ[k] && k in Wire(g, minY, maxY, rs, rn).succ[s]
  {
    WireSuccMembers(g, minY, maxY, rs, rn, n, s, k, s);
    PoleEdgesMembers(g.nodes, k, rs, s, s);
    WireSuccMembers(g, minY, maxY, rs, rn, n, s, s, k);
    PoleEdgesMembers(g.nodes, s, rs, s, k);
  }

  /** A node in the row just below the north pole has an edge to the pole and one back. */
  lemma WireLinksNorthPole(g: Graph, minY: int, maxY: int, rs: int, rn: int, n: nat, s: nat, k: nat)
    requires Indexed(g) && OwnFound(g.nodes) && PolesAt(g.nodes, minY, maxY, n, s) && k < |g.nodes|
    requires rs != minY && rn != maxY
    requires g.nodes[k].coord.y == rn
    ensures n in Wire(g, minY, maxY, rs, rn).succ[k] && k in Wire(g, minY, maxY, rs, rn).succ[n]
  {
    WireSuccMembers(g, minY, maxY, rs, rn, n, s, k, n);
    PoleEdgesMembers(g.nodes, k, rn, n, n);
    WireSuccMembers(g, minY, maxY, rs, rn, n, s, n, k);
    PoleEdgesMembers(g.nodes, n, rn, n, k);
  }

  /** A pole edge between `k` and `j`, in either direction, for the row next to either pole. */
  predicate PoleLink(nodes: seq<Node>, rs: int, rn: int, n: nat, s: nat, k: nat, j: nat)
    requires k < |nodes|
  {
    || (nodes[k].coord.y == rs && j == s)
    || (k == s && j < |nodes| && nodes[j].coord.y == rs)
    || (nodes[k].coord.y == rn && j == n)
    || (k == n && j < |nodes| && nodes[j].coord.y == rn)
  }

  /**
    Conversely, wiring adds no edge other than to a probed grid neighbour
    (see TargetsMembers) or between a pole and the row next to it.
   */
  lemma WireAddsOnlyGridAndPoleEdges(g: Graph, minY: int, maxY: int, rs: int, rn: int, n: nat, s: nat, k: nat, j: nat)
    requires Indexed(g) && OwnFound(g.nodes) && PolesAt(g.nodes, minY, maxY, n, s) && k < |g.nodes|
    requires rs != minY && rn != maxY
    requires j in Wire(g, minY, maxY, rs, rn).succ[k]
    ensures || j in g.succ[k]
            || j in GridTargets(g.nodes, g.nodes[k].coord, XValues(g.nodes))
            || PoleLink(g.nodes, rs, rn, n, s, k, j)
  {
    WireSuccMembers(g, minY, maxY, rs, rn, n, s, k, j);
    PoleEdgesMembers(g.nodes, k, rs, s, j);
    PoleEdgesMembers(g.nodes, k, rn, n, j);
  }

  /**
    In a grid of one column the east and the west neighbour of a node is the
    node itself, so wiring gives every node an edge to itself.
   */
  lemma OneColumnSelfLoop(g: Graph, minY: int, maxY: int, rs: int, rn: int, n: nat, s: nat, k: nat)
    requires Indexed(g) && OwnFound(g.nodes) && PolesAt(g.nodes, minY, maxY, n, s) && k < |g.nodes|
    requires rs != minY && rn != maxY
    requires forall i :: 0 <= i < |g.nodes| ==> g.nodes[i].coord.x == g.nodes[k].coord.x
    ensures k in Wire(g, minY, maxY, rs, rn).succ[k]
  {
    var xs, c := XValues(g.nodes), g.nodes[k].coord;
    XValuesSorted(g.nodes);
    assert c.x in xs;
    assert xs[|xs| - 1] in xs;
    assert East(xs, c.x) == c.x;
    assert Probes(c, xs)[2] == c;
    WireLinksNeighbours(g, minY, maxY, rs, rn, n, s, k, c);
  }

  /** `v` occurs at two different positions of `w`. */
  predicate Twice(w: seq<nat>, v: nat)
  {
    exists i, j :: 0 <= i < j < |w| && w[i] == v && w[j] == v
  }

  lemma TwiceAcross(a: seq<nat>, b: seq<nat>, c: seq<nat>, d: seq<nat>, v: nat)
    requires v in b && v in c
    ensures Twice(a + b + c + d, v)
  {
    var w := a + b + c + d;
    var i :| 0 <= i < |b| && b[i] == v;
    var j :| 0 <= j < |c| && c[j] == v;
    assert w[|a| + i] == v && w[|a| + |b| + j] == v;
  }

  /**
    The node at (0, minY + 1) gets the south pole twice: once as its grid
    neighbour below and once more from the pole loop.
   */
  lemma DuplicatePoleEdge(g: Graph, minY: int, maxY: int, rs: int, rn: int, n: nat, s: nat, k: nat)
    requires Indexed(g) && OwnFound(g.nodes) && PolesAt(g.nodes, minY, maxY, n, s) && k < |g.nodes|
    requires rs != minY && rn != maxY
    requires IsInt32(minY) && rs == Inc32(minY)
    requires g.nodes[k].coord == Coord(0, rs)
    ensures Twice(Wire(g, minY, maxY, rs, rn).succ[k], s)
  {
    var nodes := g.nodes;
    var xs := XValues(nodes);
    WireSuccessors(g, minY, maxY, rs, rn, n, s, k);
    IncDec32(minY);
    assert Probes(nodes[k].coord, xs)[1] == Coord(0, minY);
    TargetsMembers(nodes, Probes(nodes[k].coord, xs), s);
    PoleEdgesMembers(nodes, k, rs, s, s);
    TwiceAcross(g.succ[k], GridTargets(nodes, nodes[k].coord, xs),
      PoleEdges(nodes, k, 0, rs, s), PoleEdges(nodes, k, 0, rn, n), s);
  }

  /**
    The vertical probes wrap: when the poles sit at the two ends of the `int`
    range, y = 2^31 - 1 and y = -2^31, each pole is the other's grid
    neighbour, so the wiring links the poles to each other directly.
   */
  lemma PolesLinkedAcrossWrap(g: Graph, rs: int, rn: int, n: nat, s: nat)
    requires Indexed(g) && OwnFound(g.nodes)
    requires rs != -0x8000_0000 && rn != 0x7FFF_FFFF
    requires PolesAt(g.nodes, -0x8000_0000, 0x7FFF_FFFF, n, s)
    ensures s in Wire(g, -0x8000_0000, 0x7FFF_FFFF, rs, rn).succ[n]
    ensures n in Wire(g, -0x8000_0000, 0x7FFF_FFFF, rs, rn).succ[s]
  {
    var minY, maxY, xs := -0x8000_0000, 0x7FFF_FFFF, XValues(g.nodes);
    assert n < |g.nodes| && g.nodes[n].coord == Coord(0, maxY);
    assert s < |g.nodes| && g.nodes[s].coord == Coord(0, minY);
    assert Probes(g.nodes[n].coord, xs)[0] == Coord(0, minY);
    assert Probes(g.nodes[s].coord, xs)[1] == Coord(0, maxY);
    WireLinksNeighbours(g, minY, maxY, rs, rn, n, s, n, Coord(0, minY));
    WireLinksNeighbours(g, minY, maxY, rs, rn, n, s, s, Coord(0, maxY));
  }
}
