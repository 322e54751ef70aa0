# BearMaps core, modelled in Dafny

BearMaps is a map server. It serves two kinds of requests, and this project models the in-memory logic behind both:

- **Raster requests.** The server picks a grid of pre-rendered map tiles that covers a query box.
- **Routing requests.** The server finds a road route between two points.

The project is made of six modules:

- **`Edges`** (`edge.dfy`, Edge.java) — an edge is an immutable value naming the vertex it leads to and the segment's length. `Targets` is the set of ids an adjacency leads to.
- **`Nodes`** (`node.dfy`, Node.java) — a vertex is a class.
  - `id`, `lon` and `lat` are constants.
  - `name`, `adj` and `priority` change in place.
  - `adj` is a multiset of edges. Edge.java does not override `equals`, so two equal edges are two members of the set.
  - `CompareTo` is the min-priority order of the search fringe.
- **`Graph`** (`graph_db.dfy`, GraphDB.java) — the graph is a class whose `nodes` field is the table from id to vertex. It holds:
  - `AddNode` and `FindNode` on that table;
  - `Connect`, which adds two half-edges;
  - `Clean`, a two-pass delete of the vertices without edges;
  - `Adjacent`, a loop that collects target ids;
  - `Closest`, a running-minimum scan seeded at 1000.0 that calls `Clean` first;
  - the Euclidean distance;
  - `CleanString`.
- **`Routing`** (`router.dfy`, Router.java) — `shortestPath` is split along its own structure:
  - `Explore` is the A* loop;
  - `Poll` is the priority-queue poll;
  - `Expand` is the neighbour loop;
  - `Relax` is one neighbour;
  - `Reconstruct` is the path-building loop.

  Each is proved against value-level predicates: `SearchInv`, `Links` and `RelaxStep`. These describe the fringe, the `evaluated` set and the `gScore` and `previousNode` maps.
- **`Raster`** (`rasterer.dfy`, Rasterer.java) — covers:
  - query validation;
  - the depth-halving loop, capped at 7;
  - the floor/ceil corner tile indices;
  - the raster box on tile edges;
  - the decimal tile names;
  - the 2-D name grid, filled by nested loops;
  - the result record.
- **`Wrappers`** and **`Collections`** — `Option` stands for Java's `null`. `Pick` chooses an arbitrary element, which stands for the unspecified iteration order of `HashSet` and `HashMap`.

Java `double` is modelled as `real`. `Math.sqrt` is a function field of the graph, `sqrt`. The graph's `Valid()` requires it to return the non-negative square root. The `MapServer.ROOT_*` constants are a `RootBox` parameter whose upper-left corner lies left of and above its lower-right corner.

## Model

| member | source | states |
|---|---|---|
| Edges.TargetsAdd | GraphDB.java:91-97 | adding an edge adds exactly its target id to the set of ids the adjacency leads to |
| Edges.ParallelEdgesCollapse | Edge.java:4-16 | a repeated equal edge is a second member of the adjacency, yet leads to no new id |
| Nodes.Node.constructor | Node.java:14-20 | a new vertex keeps the given id and coordinates, has no name and no edges, and has priority 0.0 |
| Nodes.Node.SetName | Node.java:22-24 | sets the name and may change no other field |
| Nodes.Node.SetPriority | Node.java:46-48 | sets the priority and may change no other field |
| Nodes.Node.CompareTo | Node.java:50-52 | negative, zero or positive exactly when this priority is below, equal to or above the other's, like `Double.compare` |
| Nodes.CompareToIsPreorder | Node.java:50-52 | the comparison is antisymmetric in sign, transitive and reflexive: a total preorder the fringe can pop by |
| Graph.NonIsolatedKeeps | GraphDB.java:73-83 | a vertex survives cleaning exactly when it has an edge, and it keeps its own node |
| Graph.NonIsolatedIdempotent | GraphDB.java:73-83 | cleaning twice is cleaning once |
| Graph.NonIsolatedFixes | GraphDB.java:73-83 | a table whose every vertex has an edge is unchanged by cleaning |
| Graph.CleanKeepsEdgesClosed | GraphDB.java:73-83 | when every edge leads to a vertex that has edges, cleaning removes no edge target |
| Graph.GrowingKeepsEdgesClosed | GraphDB.java:60-66 | when the only new edges lead to two vertices of the table that have edges, as after connect, an edge-closed table stays edge-closed |
| Graph.TargetIsVertex | GraphDB.java:91-97 | in such an edge-closed table every adjacent id is a vertex |
| Graph.RemoveDisallowed | GraphDB.java:48-50 | the regex filter never lengthens the string and leaves only ASCII letters and spaces |
| Graph.ToLower | GraphDB.java:48-50 | lower-casing keeps the length and maps each character on its own |
| Graph.CleanString | GraphDB.java:48-50 | the cleaned string is no longer than the input and holds only a-z and spaces |
| Graph.CleanStringOfCons | GraphDB.java:48-50 | one input character adds itself, lower-cased, if it is a letter or a space, and nothing otherwise |
| Graph.RemoveDisallowedAppend | GraphDB.java:48-50 | the filter works piecewise over a concatenation |
| Graph.ToLowerAppend | GraphDB.java:48-50 | lower-casing works piecewise over a concatenation |
| Graph.CleanStringAppend | GraphDB.java:48-50 | cleaning works piecewise, so input letters and spaces keep their order |
| Graph.CleanStringFixes | GraphDB.java:48-50 | a string of a-z and spaces is already clean |
| Graph.CleanStringIdempotent | GraphDB.java:48-50 | cleaning a cleaned string changes nothing |
| Graph.GraphDB.constructor | GraphDB.java:20-23 | a new graph has an empty vertex table and a valid square root |
| Graph.GraphDB.Euclid | GraphDB.java:105-107 | the square root of the summed squared differences of longitude and latitude; its properties are in DistanceProperties |
| Graph.GraphDB.Distance | GraphDB.java:105-107 | distance(Node, Node): the Euclidean distance between the two nodes' coordinates |
| Graph.GraphDB.DistanceProperties | GraphDB.java:99-107 | distance is symmetric and non-negative, and is zero exactly between two points at the same place |
| Graph.GraphDB.FindNode | GraphDB.java:56-58 | finds a node exactly when the id is in the table; the node is the one filed there and carries that id |
| Graph.GraphDB.AddNode | GraphDB.java:52-54 | files the node under its id, replacing any earlier one; every other lookup is unchanged; the graph stays valid |
| Graph.GraphDB.Connect | GraphDB.java:60-66 | adds one edge v→w and one edge w→v, both as long as the distance (two edges on v when v and w are the same vertex); each end becomes adjacent to the other |
| Graph.GraphDB.Clean | GraphDB.java:73-83 | the new table is exactly the old one without its edgeless vertices; every remaining vertex has an edge; edge-closure is kept |
| Graph.GraphDB.ClosestIsVertex | GraphDB.java:110-123 | when some vertex is within 1000.0, or 0 is a vertex, the answer of closest is a vertex |
| Graph.GraphDB.Closest | GraphDB.java:110-123 | cleans the graph as Clean does, then answers 0 when no vertex is strictly within 1000.0, and otherwise a vertex within 1000.0 no farther than any other |
| Graph.GraphDB.Adjacent | GraphDB.java:91-97 | exactly the set of ids the vertex's edges lead to; parallel edges give one id |
| Routing.SuccessorsAreVertices | Router.java:40-45 | in an edge-closed table every neighbour has a node, so the router's findNode never returns null |
| Routing.ClosedSetTrapsWalks | Router.java:33-58 | a walk that starts in a set holding all its own vertices' successors stays inside that set |
| Routing.Unreachable | Router.java:33-58 | nothing outside such a set is reachable from inside it |
| Routing.PrependKeepsWalk | Router.java:59-64 | putting a predecessor in front of a walk (addFirst) gives a walk |
| Routing.RelaxKeepsSearchInv | Router.java:40-57 | relaxing an edge out of an evaluated vertex keeps the search bookkeeping and the predecessor links, drops no fringe vertex, and leaves the target in the fringe or evaluated |
| Routing.RelaxOnlyLowers | Router.java:41-53 | a recorded score either stays or drops strictly, and never changes for an evaluated vertex; an unevaluated target ends with a score no worse than the path through c |
| Routing.RelaxKeepsLinks | Router.java:49-53 | giving an unevaluated vertex the score through c and the predecessor c keeps every link justified |
| Routing.EvaluateKeepsLinks | Router.java:31-39 | evaluating a vertex that has a predecessor entry, ranked one past its predecessor, keeps every link justified; the first vertex evaluated is the start |
| Routing.RankKeepsOrder | Router.java:31-39 | with that rank, every evaluated vertex still ranks above its predecessor, so following links from any vertex ends |
| Routing.EvaluateKeepsSearchInv | Router.java:33-39 | moving a polled vertex other than the destination into `evaluated` keeps the bookkeeping; the first vertex evaluated is the start; the number of unevaluated vertices drops, so the loop runs at most once per vertex |
| Routing.Poll | Router.java:34 | returns a fringe vertex whose priority no other fringe vertex undercuts |
| Routing.Relax | Router.java:41-56 | skips an evaluated neighbour and a fringe neighbour whose score is no worse; otherwise sets its score to the score through c, its predecessor to c, and its priority to that score plus its distance to the destination, and puts it in the fringe once |
| Routing.Expand | Router.java:40-57 | after the neighbour loop the bookkeeping still holds; every successor of an evaluated vertex is in the fringe or evaluated; no score has risen; every unevaluated successor t of c scores at most c's score plus the distance from c to t |
| Routing.Explore | Router.java:24-58 | on exit the predecessor links are justified, the destination is not evaluated, and either the destination has a predecessor entry or the evaluated set contains the start and all its own successors |
| Routing.Reconstruct | Router.java:59-65 | returns a walk ending at the destination: it starts at the start when the destination was reached and is the destination alone otherwise; when reached, the destination's score equals the walk's length |
| Routing.Search | Router.java:24-65 | the result is a walk ending at the destination; it starts at the start vertex, unless it is the destination alone and no walk leads there; start = destination gives exactly [start] |
| Routing.ShortestPath | Router.java:20-66 | resolves both points with closest, which cleans the graph; the result is a walk in the cleaned graph ending at a closest vertex to the destination, and it starts at a closest vertex to the start unless that destination is unreachable |
| Raster.IsValid | Rasterer.java:85-89 | isValidate: false exactly when one of the six rejection conditions holds; its meaning is in ValidMeansProperOverlap |
| Raster.ValidMeansProperOverlap | Rasterer.java:85-89 | a query passes validation exactly when it is a proper box overlapping the root box in positive area |
| Raster.RootLonDPP | Rasterer.java:14 | ROOT_LONDPP, the root's longitude span over 256 pixels; positive for a well-formed root box |
| Raster.GetDepth | Rasterer.java:91-103 | the depth is at most 7; every shallower depth is too coarse for the query's LonDPP; the depth itself is fine enough unless it is the cap; a zero viewport width gives 0, or 7 when the query's longitudes are reversed, as the source's infinite quotient does |
| Raster.TileLonDPPHalves | Rasterer.java:94-100 | each level down halves a tile's LonDPP |
| Raster.FineEnoughUpwardClosed | Rasterer.java:92-101 | once a depth is fine enough, every deeper one is, so the chosen depth is the least sufficient one |
| Raster.ChosenDepthUnique | Rasterer.java:91-103 | only one depth meets the choice rule |
| Raster.LonTileWidth | Rasterer.java:108 | 2^depth tiles of this width make up the root's width |
| Raster.LatTileWidth | Rasterer.java:109 | 2^depth tiles of this height make up the root's height |
| Raster.TileWidthsAreQuotients | Rasterer.java:108-109 | these widths are the root extents divided by 2^depth, as the source computes them |
| Raster.TileWidths | Rasterer.java:108-109 | tiles have positive width and height |
| Raster.FloorTileHolds | Rasterer.java:113 | the tile numbered floor(offset / width) contains the offset |
| Raster.CeilTileReaches | Rasterer.java:123 | the tile numbered ceil(offset / width) - 1 is the last to reach the offset |
| Raster.TileAt | Rasterer.java:113 | the one tile on the grid that contains a given offset |
| Raster.LastTileTo | Rasterer.java:123 | the one tile on the grid that is last to reach a given offset |
| Raster.TileAtIsFloor | Rasterer.java:113 | that tile is the floor of the offset over the width |
| Raster.LastTileToIsCeil | Rasterer.java:123 | that tile is the ceiling of the offset over the width, minus one |
| Raster.UlCol | Rasterer.java:110-114 | on the grid; 0 when the query starts left of the root box; otherwise the tile containing the query's left edge |
| Raster.UlRow | Rasterer.java:115-119 | on the grid; 0 when the query starts above the root box; otherwise the tile containing the query's top edge |
| Raster.LrCol | Rasterer.java:120-124 | on the grid; the last column when the query ends right of the root box; otherwise the last tile reaching the query's right edge |
| Raster.LrRow | Rasterer.java:125-129 | on the grid; the last row when the query ends below the root box; otherwise the last tile reaching the query's bottom edge |
| Raster.TileOrder | Rasterer.java:113-128 | the tile containing an offset comes no later than the last tile reaching a larger offset |
| Raster.GetCornerIndex | Rasterer.java:105-131 | all four indices are on the grid, and the upper-left tile is neither right of nor below the lower-right one, so the grid has at least one row and one column |
| Raster.GetCornerCoordinate | Rasterer.java:133-142 | the outer edges of the corner tiles, by the source's products; their meaning is in CornerEdges, CornerCoordinateInRoot and the Snap lemmas |
| Raster.CornerEdges | Rasterer.java:133-142 | the raster box's edges are whole numbers of tiles from the root's upper-left corner |
| Raster.CornerCoordinateInRoot | Rasterer.java:133-142 | the raster box lies inside the root box and has positive width and height |
| Raster.SnapLeft | Rasterer.java:133-142 | the left edge is the root's left edge when clamped; otherwise it is at or left of the query's left edge, by less than one tile |
| Raster.SnapRight | Rasterer.java:133-142 | the right edge is the root's right edge when clamped; otherwise it is at or right of the query's right edge, by less than one tile |
| Raster.SnapTop | Rasterer.java:133-142 | the top edge is the root's top edge when clamped; otherwise it is at or above the query's top edge, by less than one tile |
| Raster.SnapBottom | Rasterer.java:133-142 | the bottom edge is the root's bottom edge when clamped; otherwise it is at or below the query's bottom edge, by less than one tile |
| Raster.RasterBoxSnapsToQuery | Rasterer.java:105-142 | all four sides snap to the query |
| Raster.BinaryAsDecimal | Rasterer.java:145-146 | parseInt(toBinaryString(n)): the decimal number whose digits are the binary digits of n |
| Raster.BinaryAsDecimalDigits | Rasterer.java:145-146 | decimal digit k of that number is bit k of n |
| Raster.NameArithmeticIsQuadKey | Rasterer.java:144-152 | 2·binary(row) + binary(col) + 11…1, read as decimals, is the quad-key number, with no carries |
| Raster.TileNumberHasDepthDigits | Rasterer.java:144-153 | at depths 1 to 7 a tile name has exactly `depth` decimal digits |
| Raster.TileNumberDigit | Rasterer.java:144-153 | digit k is 2·bit_k(row) + bit_k(col) + 1, which lies in 1..4 |
| Raster.TileNumberInjective | Rasterer.java:144-153 | distinct tiles at one depth never share a name |
| Raster.ConvertToString | Rasterer.java:144-154 | the name the source builds, including its loop that builds the ones, is the tile's quad-key number |
| Raster.FillRow | Rasterer.java:165-167 | fills one grid row with the names of its tiles, column by column, and leaves the other rows unchanged |
| Raster.GetImageMatrix | Rasterer.java:156-170 | a newly allocated grid with (lrRow - ulRow + 1) rows and (lrCol - ulCol + 1) columns; entry [i, j] names tile (ulRow + i, ulCol + j); at depth 0 it is the single root image |
| Raster.GetMapRaster | Rasterer.java:52-83 | an invalid query gives query_success false with the six other fields null; a valid one gives success, the chosen depth, the snapped raster box and a newly allocated grid of its tiles |

## Left out

- **The XML loading** in the GraphDB constructor, and GraphBuildingHandler. This is file I/O through a library parser; GraphBuildingHandler is not part of this model. A graph is whatever `AddNode` and `Connect` build, and `Clean` runs afterwards.
- **`MapServer`.** It is not part of this model. Its `ROOT_*` constants are a parameter.
- **The HTTP result map.** `getMapRaster`'s result is the `RasterResult` record.
- **`double` arithmetic.** Doubles are modelled as reals, so there is no rounding, NaN, infinity or negative zero. Two consequences:
  - `Math.sqrt` is an abstract square-root function.
  - `Math.pow(2, depth)`, `Math.floor` and `Math.ceil` are exact.
- **Division by a zero viewport width.** In Java `(lrlon - ullon) / 0.0` is +Infinity, NaN or -Infinity. Reals have none of these, so `GetDepth` takes an explicit branch for `w == 0`. It returns depth 0 when `ullon <= lrlon`, where the loop test fails at once. It returns 7 otherwise, where the loop runs until the cap.
- **Java string mechanics.** `Integer.toBinaryString` and `parseInt` become digit functions. The `"img/…png"` wrapping is the `TileImage` datatype: the root image or a number.
- **Integer width.** `int` and `long` are unbounded. Within the modelled range nothing overflows: a name has at most 7 digits.
- **Iteration order and tie-breaks.** `HashMap`/`HashSet` iteration order and `PriorityQueue` tie-breaks are unspecified in the source. The model chooses arbitrarily, so `Closest` may return any of several equally near vertices, and `Poll` any of several equal minima.
- Poll: the priority queue is a set of ids plus a scan for the least priority.
  - The heap's internal order is not modelled.
  - The fringe holds a vertex at most once by construction: a set has no duplicates.
- Explore: the fringe invariant "every fringe vertex's priority is its score plus its distance to the destination" is not carried through the loop.
  - `Relax` states the priority it sets.
  - `Poll` states the minimum it picks.
- Search: the optimality promised by the class comment is not proved. That the returned walk is a shortest one would need the triangle inequality for the distance, and it is left as unproved.
- Search: the length of the walk is stated by `Reconstruct` against the search's internal scores, not by `Search` itself.
- ShortestPath: the model requires that both points resolve to a vertex, as `Resolves` defines it. In the source, `closest` can answer 0 when 0 is not a vertex; `findNode` then returns null and Router.java:27 throws. The model states the condition as a precondition instead of modelling the exception.
- Search: requires an edge-closed table, in which every edge leads to a vertex that has an edge.
  - Without it, `g.distance` on a missing neighbour throws at Router.java:45.
  - `Clean` keeps this property.
- Connect: its contract does not state that an edge-closed table stays edge-closed. `GrowingKeepsEdgesClosed` states it in terms of the adjacency growth that `Connect` ensures; combining the two over the whole table is beyond what the verifier can do cheaply.
- Lon: requires its id to be a vertex. In the source, `lon` on an absent id dereferences null and throws (GraphDB.java:127). The exception path is not modelled.
- Lat: requires its id to be a vertex. In the source, `lat` on an absent id throws in the same way (GraphDB.java:132). The exception path is not modelled.
- DistanceById: requires both ids to be vertices. In the source, `distance(long, long)` on an absent id passes null to `distance(Node, Node)`, which throws (GraphDB.java:102, 106). The exception path is not modelled.
- Adjacent: requires its id to be a vertex. In the source, `adjacent` on an absent id throws at GraphDB.java:93. The exception path is not modelled.
- Lon, Lat, DistanceById and Vertices: these accessors have no `ensures`; each returns a field of the node filed under the id, or the table's key set.
- CleanString: assumes that lower-casing maps A-Z to a-z and changes nothing else, as in an English locale. Java's `toLowerCase()` uses the default locale; in a Turkish or Azerbaijani locale `'I'` becomes the dotless `'ı'`. There, "only a-z and spaces" fails for inputs containing `'I'`.
- **Clamped sides and unreachable destinations.** Two behaviours of the code are worth stating plainly:
  - The raster box contains the query only on the sides where the query stays inside the root box. On the other sides it stops at the root edge (Rasterer.java:110-129).
  - An unreachable destination yields the one-element route `[endId]`, not an empty route (Router.java:59-65).
