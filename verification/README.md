# Planet: wrapped-grid topology and best-first pole-to-pole search

A Dafny model of the `Planet` class (`Planet.cs`). A planet is a store of
located nodes, each with a biome index and a quality, and a directed
successor relation between them. The model covers three parts:

- **The node store.** `AddNode` stores a node only for a new coordinate, so
  the first write wins. `GetNode` is a first-match lookup. `AddSuccessor`
  adds an edge only when both ends exist.
- **The topology derivation.** This is the part of `ImportFromFile` that runs
  once the nodes are loaded:
  - the poles are (0, maxY) and (0, minY), and a missing pole is an error;
  - every node is linked to its vertical neighbours, with no wrap-around
    between the top and bottom rows;
  - every node is linked to its east and west neighbours, with wrap-around
    at the ends of the sorted distinct x values;
  - the rows next to the poles get two-way edges to their pole.
- **The search, `GetOptimalPath`.** It is a best-first walk from the north
  pole over a `SortedSet` frontier. It collects the paths that reach the
  south pole within `days * 3` visits, and returns the first of those with
  the greatest score.

How the model represents the source:
- A node is identified by its index in insertion order.
- Successor lists hold indices, and they sit beside the node sequence, so
  adding an edge never touches the nodes.
- Coordinates are integer pairs.
- Qualities and scores are exact reals.
- `ImportFromFile` is modelled on already-parsed records (`Topology.ImportFromFile`).
- The result string of `GetOptimalPath` is modelled as the datatype
  `Search.Outcome`.

Three behaviours of the code are easy to miss; the model follows the code:
- **Pop order.** The comment at Planet.cs:110 says the frontier explores
  the highest scores first. Its comparer is reversed, though, so `Max` is
  the entry with the LOWEST score (`Frontier.HeadIsMax`).
- **Ties.** The comparer looks at the score alone, so the set treats two
  entries of equal score as one. An entry whose score is already queued is
  dropped, not tie-broken (`Frontier.EnqueueTie`).
- **The seed's score.** The seed path `[north]` is scored 0, not with the
  north pole's own worth. Every later entry carries its path's full sum
  (`Search.Entry`, kept by `Search.Step`).

Three `int` computations of the source can overflow, and the model wraps
them at 32 bits (module `Int32`):
- the visit budget `days * 3` (`Search.MaxVisitsMeans`);
- the vertical probes `y + 1` and `y - 1` (`Topology.Probes`, written with
  `Int32.Inc32` and `Int32.Dec32`, which `Int32.IncDec32` relates to the
  32-bit wrap). When the poles sit at y = 2^31 - 1 and y = -2^31, each
  probes the other, so the wiring links the two poles directly
  (`TopologyProofs.PolesLinkedAcrossWrap`);
- the pole rows `minY + 1` and `maxY - 1` (`Topology.Derive`).

The frontier cannot grow without bound: every pop
retires a duplicate-free path, there are finitely many of them, and the
search loop terminates on that measure (`Search.Explore`).

## Model

| member | source | states |
|---|---|---|
| Graph.Find | Planet.cs:73-79 | a lookup that hits returns a node carrying the coordinate asked for |
| Graph.FindFirst | Planet.cs:73-79 | the lookup returns the first matching node, and it misses exactly when no node has the coordinate |
| Graph.UniqueOwnFound | Planet.cs:73-79 | with unique coordinates, every node's own coordinate finds that very node |
| Graph.FindPrefix | Planet.cs:58-79 | appending nodes to the array never changes a lookup that already hits |
| Graph.FindAppend | Planet.cs:58-79 | after one node is appended, a lookup keeps its old hit; otherwise it finds the new node exactly when the coordinates match |
| Graph.AddNode | Planet.cs:58-70 | a present coordinate leaves the store unchanged; a new one is appended last, with the given biome and quality and no successors; the earlier nodes and every other lookup are unchanged; unique coordinates and the representation invariant are kept |
| Graph.AddSuccessor | Planet.cs:81-89 | the nodes stay as they were; there is still one successor list per node, and edges still point only at nodes |
| Graph.AddSuccessorAt | Planet.cs:81-89 | `b`'s node is appended to the end of `a`'s list exactly when both coordinates exist; no other list changes; if either coordinate is missing the store is unchanged |
| Graph.Load | Planet.cs:186-197 | loading parsed lines keeps the old nodes as a prefix and finds a node for every line; it keeps old lookups, unique coordinates and the representation invariant |
| Graph.LoadAppendsOnlyInput | Planet.cs:186-197 | a load appends nothing but input lines: every node past the old ones is one of the input records |
| Graph.LoadFirstWriteWins | Planet.cs:186-197 | a coordinate new to the store ends up with the data of the first line naming it, and it starts with no successors |
| Sorted.Insert | Planet.cs:211 | inserting into the distinct list adds exactly the inserted value |
| Sorted.InsertSorted | Planet.cs:211 | insertion keeps a strictly ascending list strictly ascending |
| Sorted.DistinctSorted | Planet.cs:211 | `Distinct().OrderBy()` holds exactly the values of its input |
| Sorted.DistinctSortedSorted | Planet.cs:211 | the result of `Distinct().OrderBy()` is strictly ascending |
| Sorted.IndexOf | Planet.cs:232 | `IndexOf` returns a position holding the value, with no earlier occurrence |
| Topology.MinY | Planet.cs:200-201 | the least y of the nodes, `yCoords.First()`; its meaning is stated by `Topology.MinYIsLeast` |
| Topology.MaxY | Planet.cs:200-202 | the greatest y of the nodes, `yCoords.Last()`; its meaning is stated by `Topology.MaxYIsGreatest` |
| Topology.MinYIsLeast | Planet.cs:200-201 | minY is the y of some node, and no node lies below it |
| Topology.MaxYIsGreatest | Planet.cs:200-202 | maxY is the y of some node, and no node lies above it |
| Topology.XValues | Planet.cs:211 | every node's x appears among the sorted x values |
| Topology.XValuesSorted | Planet.cs:211-213 | the x values are strictly ascending, and each one is some node's x |
| Topology.East | Planet.cs:232 | the east x is one of the x values |
| Topology.EastIsNext | Planet.cs:232 | the east x is the next larger x value; from maxX it wraps to minX, the least value |
| Topology.West | Planet.cs:237 | the west x is one of the x values |
| Topology.WestIsPrevious | Planet.cs:237 | the west x is the next smaller x value; from minX it wraps to maxX, the greatest value |
| Topology.Probes | Planet.cs:223-238 | the four coordinates a node probes, in order: `y + 1` and `y - 1` in 32-bit arithmetic, then the east and the west x; what wiring does with them is stated by `TopologyProofs.WireLinksNeighbours` and `TopologyProofs.WireAddsOnlyGridAndPoleEdges` |
| Topology.LinkAll | Planet.cs:223-240 | the probes of one node leave the nodes alone and keep the representation invariant |
| Topology.LinkNode | Planet.cs:218-240 | the four probes of one node leave the nodes alone and keep the representation invariant |
| Topology.LinkGridFrom | Planet.cs:216-241 | the grid loop leaves the nodes alone and keeps the representation invariant |
| Topology.LinkPoleFrom | Planet.cs:244-255 | a pole loop leaves the nodes alone and keeps the representation invariant |
| Topology.Wire | Planet.cs:216-255 | wiring, for given south and north pole rows, leaves the nodes alone and keeps the representation invariant |
| Topology.Derive | Planet.cs:199-255 | derivation fails exactly when there are no nodes, or no node at (0, maxY), or no node at (0, minY), in that order; on success the poles are the nodes found at those coordinates, the nodes are unchanged, and the graph is the one wired with the pole rows `minY + 1` and `maxY - 1` in 32-bit arithmetic |
| Topology.ImportFromFile | Planet.cs:181-255 | importing fails for "no nodes" exactly when both the store and the input are empty; on success every input line has a node, the old nodes are a prefix, and unique coordinates and the representation invariant are kept |
| TopologyProofs.TargetsMembers | Planet.cs:223-240 | a node is a probe target exactly when one of the probed coordinates finds it |
| TopologyProofs.RowFromMembers | Planet.cs:244 | the row filter selects exactly the nodes whose y is the row |
| TopologyProofs.LinkAllSucc | Planet.cs:223-240 | probing appends to the prober's list exactly the targets that exist, in probe order; other lists are unchanged |
| TopologyProofs.LinkGridSucc | Planet.cs:216-241 | after the grid loop each node's list is its old list plus its own existing grid neighbours, in north, south, east, west order |
| TopologyProofs.LinkPoleSucc | Planet.cs:244-255 | after a pole loop, a row node's list gains the pole; the pole's list gains the row nodes in array order |
| TopologyProofs.PoleEdgesNext | Planet.cs:244-248 | the pole edges a node gains, taken one loop step at a time |
| TopologyProofs.WireSuccessors | Planet.cs:216-255 | each successor list after wiring: old edges, then grid edges, then south pole edges, then north pole edges |
| TopologyProofs.PoleEdgesMembers | Planet.cs:244-255 | a row node's pole edge goes to the pole; the pole's pole edges go to exactly the row's nodes |
| TopologyProofs.WireSuccMembers | Planet.cs:216-255 | an edge exists after wiring exactly when it was there before, or is a grid edge, or is a pole edge of either row |
| TopologyProofs.WireLinksNeighbours | Planet.cs:223-240 | every node has an edge to each probed neighbour that exists: vertical at `y + 1` and `y - 1`, east and west with the wrap of the x values |
| TopologyProofs.WireLinksSouthPole | Planet.cs:244-248 | every node in the south pole row has an edge to the south pole, and the pole has one back |
| TopologyProofs.WireLinksNorthPole | Planet.cs:251-255 | every node in the north pole row has an edge to the north pole, and the pole has one back |
| TopologyProofs.WireAddsOnlyGridAndPoleEdges | Planet.cs:216-255 | wiring adds no edge other than a probed grid neighbour or a pole link between a pole and the row next to it |
| TopologyProofs.OneColumnSelfLoop | Planet.cs:232-240 | in a one-column grid the east/west wrap gives every node an edge to itself |
| TopologyProofs.PolesLinkedAcrossWrap | Planet.cs:223-229 | with the north pole at y = 2^31 - 1 and the south pole at y = -2^31, the wrapped vertical probes link each pole to the other |
| TopologyProofs.DuplicatePoleEdge | Planet.cs:227-248 | the node at (0, minY + 1) holds the south pole twice: once as its grid neighbour below, once as a pole link |
| Paths.DupFreeIsDistinct | Planet.cs:130 | the element-by-element check and the pairwise check agree that a path has no repeated node |
| Paths.SimpleWalkExtend | Planet.cs:128-132 | extending a path by a node keeps it a simple walk exactly when the node is a successor of the last node, exists, and is not yet on the path |
| Paths.SplitLast | Planet.cs:128-132 | a path's range and edge facts split into those of its prefix and those of its last step |
| Paths.SimpleWalkMeans | Planet.cs:112-134 | a simple walk is a non-empty path that starts at the north pole, names only nodes, repeats no node, and follows successor edges |
| Paths.DupFreeBound | Planet.cs:130 | a path without repeats over `n` nodes has at most `n` entries |
| Paths.BoundedComplete | Planet.cs:114 | every path of at most `len` node indices lies in the finite universe of such paths |
| Paths.SimpleWalkBounded | Planet.cs:114-137 | every path the search can hold lies in one finite set fixed by the node count |
| Scoring.NodeScore | Planet.cs:105-108 | a node is worth `quality * Biomes[biome]`; every weight is positive, so the worth is positive, zero or negative exactly as the quality is |
| Scoring.Score | Planet.cs:154-162 | a path's worth, the sum of its nodes' worths; its meaning is stated by `Scoring.ScoreSingle`, `Scoring.ScoreConcat` and `Scoring.CalculateScore` |
| Scoring.ScoreSingle | Planet.cs:154-162 | a one-node path is worth that node's `quality * Biomes[biome]` |
| Scoring.ScoreConcat | Planet.cs:154-162 | the worth of two joined paths is the sum of their worths |
| Scoring.CalculateScore | Planet.cs:154-162 | the loop's sum, started at 0, is the path's worth |
| Scoring.FirstMaxUnique | Planet.cs:142 | at most one position is the first maximum |
| Scoring.BestIndex | Planet.cs:142 | the chosen position holds the greatest score, and no earlier position scores as much, as a stable descending sort puts first |
| Frontier.Compare | Planet.cs:111 | the comparer orders by score alone and in reverse: `a` comes before `b` exactly when `a` scores higher, and equal scores compare equal |
| Frontier.AscendingMeans | Planet.cs:111 | on the frontier list every later entry scores strictly higher, so no two entries tie |
| Frontier.ScoresMeans | Planet.cs:111 | a score is in the set exactly when some entry carries it |
| Frontier.Enqueue | Planet.cs:134 | `Add` keeps the frontier ascending, and its head is either the new entry or the old head |
| Frontier.EnqueueKeeps | Planet.cs:134 | `Add` keeps every entry, and the only entry it can bring in is the new one |
| Frontier.EnqueueScores | Planet.cs:134 | after `Add` the set's scores are the old scores plus the new entry's |
| Frontier.EnqueueTie | Planet.cs:134 | an entry whose score is already queued is dropped and the set is unchanged; otherwise the set grows by exactly that entry |
| Frontier.HeadIsMax | Planet.cs:116 | the head, the lowest score, is the set's `Max` under the reversed comparer, and it is the only such element |
| Frontier.RemoveMax | Planet.cs:117 | removing the `Max` leaves the rest of the list, still ascending and without the removed entry |
| Int32.Wrap32 | Planet.cs:99 | C# `int` arithmetic: the exact value reduced to 32 bits; its meaning is stated by `Int32.Wrap32Means` |
| Int32.Wrap32Means | Planet.cs:99 | 32-bit wrapping lands in `int` range, agrees with the exact value modulo 2^32, and leaves an in-range value alone |
| Int32.IncDec32 | Planet.cs:223-227 | on `int` values, `Inc32` and `Dec32` are `y + 1` and `y - 1` wrapped to 32 bits, they stay in range, and each undoes the other |
| Int32.IncDec32Move | Planet.cs:244-251 | a step of one up or down never lands back on the start, so the pole rows `minY + 1` and `maxY - 1` never contain the pole itself |
| Search.MaxVisits | Planet.cs:99 | the budget `days * 3` is an `int` congruent to the exact product modulo 2^32 |
| Search.MaxVisitsMeans | Planet.cs:99 | the budget is `days * 3` whenever that fits in an `int`; just past 2^31 - 1 it wraps to a negative budget |
| Search.Expand | Planet.cs:128-136 | the frontier stays ascending and keeps its old entries; each new entry extends the popped path by an unvisited successor and carries its worth; every unvisited successor's score is queued afterwards; of several unvisited successors whose children tie on score, the one queued is the first in successor order |
| Search.ChildIsEntry | Planet.cs:128-134 | an extension is again a simple walk from the north pole with its worth as score, and it has never been popped before |
| Search.PopFacts | Planet.cs:116-117 | the popped path is a simple walk that was never popped before; the rest of the frontier stays ascending and holds other paths |
| Search.CollectKeepsInv | Planet.cs:122-125 | collecting the popped south-pole path keeps the loop invariant |
| Search.ExpandKeepsInv | Planet.cs:128-136 | expanding the popped path keeps the loop invariant |
| Search.Step | Planet.cs:116-136 | one iteration retires the popped path for good; it collects a south-pole path within budget and expands any other path, a south-pole path over budget included; an expansion adds only children of the popped path, the first of each tied score; it keeps the invariant that the seed scores 0, every other entry scores its path's worth, and the candidates qualify and are distinct |
| Search.ScoreList | Planet.cs:142 | the sort keys are the candidates' worths, in order |
| Search.Coords | Planet.cs:145-149 | the listed coordinates are those of the path's nodes, in order |
| Search.CollectedStep | Planet.cs:116-126 | after each pop the candidates are still exactly the popped paths that end at the south pole within the budget |
| Search.Explore | Planet.cs:111-137 | the loop ends; the seed path is popped; the candidates are exactly the popped paths that end at the south pole within the budget; every candidate is a simple walk from the north pole to the south pole within the budget; no candidate is collected twice; when the poles coincide and the budget is at least 1, the only candidate is the seed |
| Search.GetOptimalPath | Planet.cs:94-151 | "poles are null" exactly when a pole is unset; "No valid path found" exactly when no candidate was collected; otherwise the candidate that is first among those of greatest worth, with its coordinates and worth; the candidates qualify, are distinct, and are exactly the explored paths that end at the south pole within the budget |

## Left out

- Reading the file and parsing its lines (Planet.cs:183-197). This is I/O and library parsing. The model takes parsed `(coordinate, biome, quality)` records, so the defaults for a line with missing fields are not modelled.
- IEEE-754 `double` rounding of qualities and scores, and the culture-dependent formatting of the score in the result string (Planet.cs:150). Sums are exact reals, and the result is the `Outcome` datatype rather than a string.
- The "x,y" coordinate strings and their re-parsing. Coordinates are integer pairs.
- `Node.ToString` (display only) and the `Size` property (the length of the node sequence).
- Object identity. Nodes are referred to by index, and the `nodeScores` dictionary becomes the function `Scoring.NodeScore`.
- State left behind when `ImportFromFile` throws. The source keeps the nodes it loaded, and keeps the north pole when only the south pole is missing. `Topology.Derive` returns only the error.
- Search.GetOptimalPath: requires every node's biome to index the seven-entry weight table. The source throws `IndexOutOfRangeException` otherwise (Planet.cs:107).
- Search.GetOptimalPath: returns the candidate list and, as a ghost result, the set of popped paths, so that its contract can speak of them. It states that the candidates are exactly the popped paths that qualify, but not which paths get popped: dropped ties make the search incomplete, and that is what the source does.
- Search.Explore: like `Search.GetOptimalPath`, it pins the candidates to the popped paths but does not say which paths get popped.
- Coordinates outside the `int` range. `int.Parse` throws on them (Planet.cs:200, 219-220); the model's coordinates are unbounded integers.
- TopologyProofs.WireSuccessors: like the other wiring lemmas, it is stated for stores in which every node is the one its coordinate finds (unique coordinates). Every store built by `AddNode` from an empty one has that property; a store with repeated coordinates is not covered. The wiring lemmas take the pole rows as parameters and require that neither row is its pole's own y; `Int32.IncDec32Move` shows that the rows `Topology.Derive` passes meet this.
