/**
  GetOptimalPath: a best-first walk from the north pole.  The frontier pops
  its lowest-scored path; a path that has reached the south pole within the
  visit budget becomes a candidate, any other path is extended by each
  successor it has not visited yet.  The answer is the first candidate of
  greatest worth.
 */
module Search {
  import opened Graph
  import opened Topology
  import opened Paths
  import opened Scoring
  import opened Frontier
  import opened Int32

  /** The string GetOptimalPath returns, by case. */
  datatype Outcome =
    | PolesNull                              // "poles are null"
    | NoValidPath                            // "No valid path found"
    | Found(path: seq<Coord>, score: real)   // "[(x,y)(x,y)...] with score: s"

  /** The visit budget `days * 3`, computed in 32-bit arithmetic. */
  function MaxVisits(days: int): (r: int)
    ensures IsInt32(r) && (r - days * 3) % 0x1_0000_0000 == 0
  {
    Wrap32(days * 3)
  }

  /**
    The budget is three visits a day whenever that fits in an `int`; just
    past 2^31 - 1 it wraps to a negative budget, which no path meets.
   */
  lemma MaxVisitsMeans(days: int)
    requires IsInt32(days)
    ensures IsInt32(days * 3) ==> MaxVisits(days) == days * 3
    ensures 0x8000_0000 <= days * 3 < 0x1_0000_0000 ==> MaxVisits(days) == days * 3 - 0x1_0000_0000 < 0
  {
  }

  /** A planet the search can run on: a well-formed store and poles that are nodes of it. */
  predicate PlanetValid(p: Planet)
  {
    && Valid(p.graph)
    && (p.north.Some? ==> p.north.value < |p.graph.nodes|)
    && (p.south.Some? ==> p.south.value < |p.graph.nodes|)
  }

  /**
    A frontier entry as the search makes them: a simple walk from the north
    pole that ends at the entry's node, scored 0 when it is the seed and by
    CalculateScore otherwise.
   */
  predicate Entry(g: Graph, north: nat, e: PathNode)
    requires BiomesInRange(g.nodes)
  {
    && |e.path| > 0 && SimpleWalk(g, north, e.path) && InRange(e.path, |g.nodes|)
    && e.node == e.path[|e.path| - 1]
    && e.score == (if |e.path| == 1 then 0.0 else Score(g.nodes, e.path))
  }

  /** The entry for extending `p` by node `c`. */
  function Child(g: Graph, p: PathNode, c: nat): (r: PathNode)
    requires BiomesInRange(g.nodes) && InRange(p.path, |g.nodes|) && c < |g.nodes|
    ensures InRange(r.path, |g.nodes|) && r.node == c
  {
    assert InRange(p.path + [c], |g.nodes|);
    PathNode(c, Score(g.nodes, p.path + [c]), p.path + [c])
  }

  /** `e` extends `p` by a successor of `p`'s node that `p` has not visited. */
  predicate IsChild(g: Graph, p: PathNode, e: PathNode)
    requires BiomesInRange(g.nodes) && InRange(p.path, |g.nodes|) && p.node < |g.succ|
  {
    e.node in g.succ[p.node] && e.node !in p.path && e.node < |g.nodes| && e == Child(g, p, e.node)
  }

  /** A path GetOptimalPath keeps: a simple walk from the north pole to the south pole within the budget. */
  predicate Candidate(g: Graph, north: nat, south: nat, maxVisits: int, s: seq<nat>)
  {
    |s| > 0 && SimpleWalk(g, north, s) && InRange(s, |g.nodes|) && s[|s| - 1] == south && |s| <= maxVisits
  }

  /**
    Entry `x` is the child for the successor at position `k` of `p`'s node,
    and no unvisited successor before it has a child of the same score: of
    several tied children, SortedSet.Add keeps the first one offered.
   */
  predicate FirstOfScore(g: Graph, p: PathNode, x: PathNode, k: int)
    requires Valid(g) && BiomesInRange(g.nodes) && p.node < |g.nodes| && InRange(p.path, |g.nodes|)
  {
    var succs := g.succ[p.node];
    && 0 <= k < |succs| && succs[k] !in p.path && x == Child(g, p, succs[k])
    && forall j :: 0 <= j < k && succs[j] !in p.path ==> Child(g, p, succs[j]).score != x.score
  }

  /**
    The inner loop over the popped node's successors: each one not on the
    path yet is appended to a copy of the path, scored, and added to the
    frontier.
   */
  method Expand(g: Graph, q: seq<PathNode>, p: PathNode) returns (r: seq<PathNode>)
    requires Valid(g) && BiomesInRange(g.nodes) && p.node < |g.nodes| && InRange(p.path, |g.nodes|)
    requires Ascending(q)
    ensures Ascending(r)
    ensures forall x :: x in q ==> x in r
    ensures forall x :: x in r ==> x in q || IsChild(g, p, x)
    ensures forall k :: 0 <= k < |g.succ[p.node]| && g.succ[p.node][k] !in p.path ==>
      Child(g, p, g.succ[p.node][k]).score in Scores(r)
    ensures forall x :: x in r && x !in q ==> exists k :: FirstOfScore(g, p, x, k)
  {
    var succs := g.succ[p.node];
    r := q;
    var k := 0;
    while k < |succs|
      invariant k <= |succs| && Ascending(r)
      invariant forall x :: x in q ==> x in r
      invariant forall x :: x in r ==> x in q || IsChild(g, p, x)
      invariant forall j :: 0 <= j < k && succs[j] !in p.path ==> Child(g, p, succs[j]).score in Scores(r)
      invariant forall x :: x in r && x !in q ==> exists j :: j < k && FirstOfScore(g, p, x, j)
    {
      var c := succs[k];
      if c !in p.path {
        var path := p.path + [c];
        assert InRange(path, |g.nodes|);
        var score := CalculateScore(g.nodes, path);
        var e := PathNode(c, score, path);
        assert e == Child(g, p, c);
        EnqueueKeeps(r, e);
        EnqueueScores(r, e);
        EnqueueTie(r, e);
        if e.score !in Scores(r) {
          assert FirstOfScore(g, p, e, k);
        }
        r := Enqueue(r, e);
      }
      k := k + 1;
    }
  }

  /** Scores of every candidate, in order: the keys OrderByDescending sorts by. */
  function ScoreList(nodes: seq<Node>, paths: seq<seq<nat>>): (r: seq<real>)
    requires BiomesInRange(nodes) && forall i :: 0 <= i < |paths| ==> InRange(paths[i], |nodes|)
    ensures |r| == |paths| && forall i :: 0 <= i < |paths| ==> r[i] == Score(nodes, paths[i])
  {
    seq(|paths|, i requires 0 <= i < |paths| => Score(nodes, paths[i]))
  }

  /** The coordinates of a path, as the result string lists them. */
  function Coords(nodes: seq<Node>, path: seq<nat>): (r: seq<Coord>)
    requires InRange(path, |nodes|)
    ensures |r| == |path| && forall i :: 0 <= i < |path| ==> r[i] == nodes[path[i]].coord
  {
    seq(|path|, i requires 0 <= i < |path| => nodes[path[i]].coord)
  }

  /**
    A child of a frontier entry is a frontier entry, and it has never been
    popped: had it been, its prefix, the entry being expanded, would have
    been popped before it.
   */
  lemma ChildIsEntry(g: Graph, north: nat, h: PathNode, x: PathNode, done: set<seq<nat>>)
    requires Valid(g) && BiomesInRange(g.nodes) && Entry(g, north, h) && h.node < |g.nodes|
    requires IsChild(g, h, x) && h.path !in done
    requires forall s :: s in done && |s| > 1 ==> s[..|s| - 1] in done
    ensures Entry(g, north, x)
    ensures x.path !in done + {h.path}
    ensures |x.path| > 1 && x.path[..|x.path| - 1] in done + {h.path}
  {
  }

  /**
    What holds of the loop's state between iterations: the frontier is
    ascending and holds entries never popped whose prefixes were popped, the
    popped paths are closed under taking prefixes, and the candidates are
    distinct popped paths that qualify.
   */
  predicate Inv(g: Graph, north: nat, south: nat, maxVisits: int,
                queue: seq<PathNode>, candidates: seq<seq<nat>>, done: set<seq<nat>>)
    requires BiomesInRange(g.nodes)
  {
    && Ascending(queue)
    && (forall e :: e in queue ==> Entry(g, north, e))
    && (forall e :: e in queue ==> e.path !in done)
    && (forall e :: e in queue && |e.path| > 1 ==> e.path[..|e.path| - 1] in done)
    && (forall s :: s in done && |s| > 1 ==> s[..|s| - 1] in done)
    && (forall i :: 0 <= i < |candidates| ==>
         candidates[i] in done && Candidate(g, north, south, maxVisits, candidates[i]))
    && (forall i, j :: 0 <= i < j < |candidates| ==> candidates[i] != candidates[j])
  }

  /** Popping the head retires a simple walk that was never popped before, and leaves a frontier whose paths all differ from it. */
  lemma PopFacts(g: Graph, north: nat, south: nat, maxVisits: int,
                 queue: seq<PathNode>, candidates: seq<seq<nat>>, done: set<seq<nat>>)
    requires Valid(g) && BiomesInRange(g.nodes) && queue != []
    requires Inv(g, north, south, maxVisits, queue, candidates, done)
    ensures Entry(g, north, queue[0]) && queue[0].node < |g.nodes|
    ensures queue[0].path !in done && queue[0].path in Bounded(|g.nodes|, |g.nodes|)
    ensures Ascending(queue[1..])
    ensures forall x :: x in queue[1..] ==> x in queue && x.path != queue[0].path
  {
    var h := queue[0];
    assert h in queue;
    HeadIsMax(queue);
    RemoveMax(queue);
    SimpleWalkBounded(g, north, h.path);
  }

  /** Collecting the head keeps the loop's invariant. */
  lemma CollectKeepsInv(g: Graph, north: nat, south: nat, maxVisits: int,
                        queue: seq<PathNode>, candidates: seq<seq<nat>>, done: set<seq<nat>>)
    requires Valid(g) && BiomesInRange(g.nodes) && queue != []
    requires Inv(g, north, south, maxVisits, queue, candidates, done)
    requires queue[0].node == south && |queue[0].path| <= maxVisits
    ensures Inv(g, north, south, maxVisits, queue[1..], candidates + [queue[0].path], done + {queue[0].path})
  {
    PopFacts(g, north, south, maxVisits, queue, candidates, done);
  }

  /** Expanding the head keeps the loop's invariant. */
  lemma ExpandKeepsInv(g: Graph, north: nat, south: nat, maxVisits: int,
                       queue: seq<PathNode>, candidates: seq<seq<nat>>, done: set<seq<nat>>, next: seq<PathNode>)
    requires Valid(g) && BiomesInRange(g.nodes) && queue != []
    requires Inv(g, north, south, maxVisits, queue, candidates, done)
    requires queue[0].node < |g.nodes| && InRange(queue[0].path, |g.nodes|)
    requires Ascending(next)
    requires forall x :: x in next ==> x in queue[1..] || IsChild(g, queue[0], x)
    ensures Inv(g, north, south, maxVisits, next, candidates, done + {queue[0].path})
  {
    var h := queue[0];
    PopFacts(g, north, south, maxVisits, queue, candidates, done);
    forall x | x in next && x !in queue[1..]
      ensures Entry(g, north, x) && x.path !in done + {h.path}
      ensures |x.path| > 1 && x.path[..|x.path| - 1] in done + {h.path}
    {
      ChildIsEntry(g, north, h, x, done);
    }
  }

  /**
    One iteration of the while loop: pop the lowest-scored entry; collect
    its path when it ends at the south pole within the budget, and expand it
    otherwise, a south-pole path over the budget included.
   */
  method Step(g: Graph, north: nat, south: nat, maxVisits: int,
              queue: seq<PathNode>, candidates: seq<seq<nat>>, ghost done: set<seq<nat>>)
    returns (queue': seq<PathNode>, candidates': seq<seq<nat>>, ghost done': set<seq<nat>>)
    requires Valid(g) && BiomesInRange(g.nodes) && queue != []
    requires Inv(g, north, south, maxVisits, queue, candidates, done)
    ensures Inv(g, north, south, maxVisits, queue', candidates', done')
    ensures queue[0].node < |g.nodes| && InRange(queue[0].path, |g.nodes|)
    ensures queue[0].path !in done && queue[0].path in Bounded(|g.nodes|, |g.nodes|)
    ensures done' == done + {queue[0].path}
    ensures |queue[0].path| > 0 && queue[0].path[|queue[0].path| - 1] == queue[0].node
    ensures queue[0].node == south && |queue[0].path| <= maxVisits ==>
      queue' == queue[1..] && candidates' == candidates + [queue[0].path]
    ensures !(queue[0].node == south && |queue[0].path| <= maxVisits) ==>
      && candidates' == candidates
      && (forall x :: x in queue[1..] ==> x in queue')
      && (forall x :: x in queue' ==> x in queue[1..] || IsChild(g, queue[0], x))
      && (forall k :: 0 <= k < |g.succ[queue[0].node]| && g.succ[queue[0].node][k] !in queue[0].path ==>
           Child(g, queue[0], g.succ[queue[0].node][k]).score in Scores(queue'))
      && (forall x :: x in queue' && x !in queue[1..] ==> exists k :: FirstOfScore(g, queue[0], x, k))
  {
    PopFacts(g, north, south, maxVisits, queue, candidates, done);
    var h := queue[0];
    done' := done + {h.path};
    if h.node == south && |h.path| <= maxVisits {
      CollectKeepsInv(g, north, south, maxVisits, queue, candidates, done);
      queue' := queue[1..];
      candidates' := candidates + [h.path];
    } else {
      candidates' := candidates;
      queue' := Expand(g, queue[1..], h);
      ExpandKeepsInv(g, north, south, maxVisits, queue, candidates, done, queue');
    }
  }

  /** The candidates are exactly the popped paths that end at the south pole within the budget. */
  ghost predicate Collected(candidates: seq<seq<nat>>, popped: set<seq<nat>>, south: nat, maxVisits: int)
  {
    forall s :: s in candidates <==> s in popped && |s| > 0 && s[|s| - 1] == south && |s| <= maxVisits
  }

  /** Popping `h` keeps the candidates exactly the qualifying popped paths, whether `h` qualifies or not. */
  lemma CollectedStep(candidates: seq<seq<nat>>, popped: set<seq<nat>>, h: seq<nat>,
                      candidates': seq<seq<nat>>, south: nat, maxVisits: int)
    requires Collected(candidates, popped, south, maxVisits) && h !in popped && |h| > 0
    requires h[|h| - 1] == south && |h| <= maxVisits ==> candidates' == candidates + [h]
    requires !(h[|h| - 1] == south && |h| <= maxVisits) ==> candidates' == candidates
    ensures Collected(candidates', popped + {h}, south, maxVisits)
  {
  }

  /**
    The while loop of GetOptimalPath: seed the frontier with the north pole
    at score 0, then run the loop body until the frontier is empty.  Every
    pop retires a simple walk for good, and there are finitely many of
    those, so the loop ends.
   */
  method Explore(g: Graph, north: nat, south: nat, maxVisits: int)
    returns (candidates: seq<seq<nat>>, ghost popped: set<seq<nat>>)
    requires Valid(g) && BiomesInRange(g.nodes) && north < |g.nodes| && south < |g.nodes|
    ensures forall i :: 0 <= i < |candidates| ==> Candidate(g, north, south, maxVisits, candidates[i])
    ensures forall i, j :: 0 <= i < j < |candidates| ==> candidates[i] != candidates[j]
    ensures [north] in popped
    ensures forall s :: s in candidates <==> s in popped && |s| > 0 && s[|s| - 1] == south && |s| <= maxVisits
    ensures north == south && maxVisits >= 1 ==> candidates == [[north]]
  {
    var seed := PathNode(north, 0.0, [north]);
    assert [north][..0] == [];
    var queue := [seed];
    candidates := [];
    popped := {};
    while queue != []
      invariant Inv(g, north, south, maxVisits, queue, candidates, popped)
      invariant [north] in popped || (popped == {} && queue == [seed])
      invariant Collected(candidates, popped, south, maxVisits)
      invariant north == south && maxVisits >= 1 ==>
        (queue == [seed] && candidates == []) || (queue == [] && candidates == [[north]])
      decreases Bounded(|g.nodes|, |g.nodes|) - popped
    {
      var h := queue[0];
      ghost var before, was := candidates, popped;
      queue, candidates, popped := Step(g, north, south, maxVisits, queue, candidates, popped);
      CollectedStep(before, was, h.path, candidates, south, maxVisits);
    }
  }

  /**
    GetOptimalPath.  Besides the outcome it returns the candidate list the
    source collects in `allPaths`, so that the contract can speak of it.
   */
  method GetOptimalPath(p: Planet, days: int) returns (r: Outcome, candidates: seq<seq<nat>>, ghost explored: set<seq<nat>>)
    requires PlanetValid(p) && IsInt32(days)
    requires p.north.Some? && p.south.Some? ==> BiomesInRange(p.graph.nodes)
    ensures r == PolesNull <==> p.north.None? || p.south.None?
    ensures r == NoValidPath <==> p.north.Some? && p.south.Some? && candidates == []
    ensures r.PolesNull? ==> candidates == []
    ensures p.north.Some? && p.south.Some? ==> forall i :: 0 <= i < |candidates| ==>
      Candidate(p.graph, p.north.value, p.south.value, MaxVisits(days), candidates[i])
    ensures forall i, j :: 0 <= i < j < |candidates| ==> candidates[i] != candidates[j]
    ensures r.Found? ==>
      && p.north.Some? && p.south.Some? && candidates != []
      && (forall i :: 0 <= i < |candidates| ==> InRange(candidates[i], |p.graph.nodes|))
      && (exists b ::
        && 0 <= b < |candidates|
        && IsFirstMax(ScoreList(p.graph.nodes, candidates), b)
        && r.path == Coords(p.graph.nodes, candidates[b])
        && r.score == Score(p.graph.nodes, candidates[b]))
    ensures p.north.Some? && p.south.Some? ==>
      && [p.north.value] in explored
      && forall s :: s in candidates <==>
           s in explored && |s| > 0 && s[|s| - 1] == p.south.value && |s| <= MaxVisits(days)
    ensures p.north.Some? && p.north == p.south && MaxVisits(days) >= 1 ==> candidates == [[p.north.value]]
  {
    if p.north.None? || p.south.None? {
      return PolesNull, [], {};
    }
    var g := p.graph;
    candidates, explored := Explore(g, p.north.value, p.south.value, MaxVisits(days));
    if candidates == [] {
      return NoValidPath, candidates, explored;
    }
    var scores := ScoreList(g.nodes, candidates);
    var b := BestIndex(scores);
    var best := candidates[b];
    var bestScore := CalculateScore(g.nodes, best);
    r := Found(Coords(g.nodes, best), bestScore);
  }
}
