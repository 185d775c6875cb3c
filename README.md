# hexagamblin — a verified model of the map generator's core

hexagamblin generates a terrain map on a hexagonal grid and builds a road
network over it. This project models the algorithmic core of that generator
in Dafny and proves what each step guarantees:

- **Hex grid** (`Hex`, hexgrid.dfy). Cells use offset coordinates
  `(row, column)`, and the six neighbour offsets depend on the column's
  parity. `genererGrille` fills the node table row after row; each cell gets a
  terrain and an altitude in [0, 1000]. `HexGraphe` attaches each node's
  neighbour list. The proofs show:
  - neighbour lists lie inside the grid, hold at most six distinct cells and
    never the cell itself;
  - adjacency is symmetric;
  - on a grid of at least 2 x 2, every cell has between 2 and 6 neighbours.
- **Union-find** (`DisjointSets`, unionfind.dfy). The structure is a parent
  map with no path compression. `Find` always reaches a root. The parent links
  stay acyclic; a ghost level map witnesses this. `Union` moves exactly one
  tree under another root, and every other representative is kept.
- **Kruskal** (`Spanning`, kruskal.dfy). The candidate edges are sorted by
  weight (proved to be an ordered permutation). An edge is kept exactly
  when its ends have different representatives. The method is proved to
  compute the greedy forest `Forest`, defined by plain graph connectivity. The
  kept edges are a sorted subsequence of the sorted list. They connect the
  same nodes as all the edges, and there are at most |nodes| - 1 of them,
  exactly that many when the edges connect every node.
- **Settlements** (`Settlements`, ville.dfy). Cells are drawn until four
  distinct non-water cells are accepted.
- **Shortest routes** (`ShortestPaths`, dijkstra.dfy). This is Dijkstra's
  algorithm with a linear-scan minimum. The scan runs over the cells in
  insertion order and uses `<=`, so the last minimal unsettled cell wins, and
  unreachable cells are settled too. A relaxation replaces a predecessor only
  on a strict improvement, so each predecessor is the first settled cell with
  a tight step. There are two cost models:
  - a constant 1 per step;
  - a constrained model that refuses water at either end of a step and
    charges a terrain penalty plus an altitude term.

  Every final distance is proved to be the least cost of any walk from the
  source, with `Inf` exactly for unreachable cells. The settling order and
  the predecessor table are proved to be determined by the table, its key
  order and the source. Route reconstruction walks the predecessor links back
  from the destination, so the route between two cells is determined too. The model keeps the
  program's weight for a route: the sum of the distances of all the route's
  cells, not the route's length. Without the constraints, a route of k steps
  therefore weighs k(k+1)/2. `pcc_villes` stores such a route for every
  ordered pair of distinct settlements.
- **Rivers** (`Rivers`, rivieres.dfy). A depth-first search with an explicit
  stack runs from a source cell and never steps uphill. It pops the top of
  the stack and pushes the admissible neighbours in list order. A ghost
  function takes the same steps, and the search is proved equal to it, so the
  search tree is determined by the table and the source. It explores exactly
  the cells reachable by walks that never climb. The first longest chain of
  that tree runs from a cell back to the source, never higher than the next
  cell. When the chain has more than two cells, it becomes water.
  `placer_riviere` carves rivers from drawn cells until
  1 + height * width / 50 have succeeded.

Randomness comes in as explicit sequences of draws. Each unbounded retry loop
of the program becomes a loop over those draws that reports how far it got.

A river is carved when its chain has more than 2 cells (Rivieres.py:54).
The number of rivers is 1 + height * width / 50 (Rivieres.py:62).

Several calls into the grid do not match the `HexGraphe` class of
hexgrid_viewer.py:
- Dijkstra.py calls `get_neighbors(c)`, `get_terrain(c)` and
  `get_altitude(c)` on the grid (Dijkstra.py:33-39). `HexGraphe` defines
  `get_neighbours(x, y)` and `get_terrain(x, y)` with two arguments, and no
  `get_altitude`; `get_neighbors` is also spelt differently. Ville.py:17 also calls `get_terrain` with one tuple.
- Rivieres.py calls only `self.hexgrid.get_neighbors` (Rivieres.py:24). It
  reads altitudes and writes terrain through `self.nodes` (Rivieres.py:27,
  :58), but `Riviere` only defines `hexgrid` (Rivieres.py:5-6). As written,
  that lookup fails with a missing attribute. The model reads and writes the
  grid's own node table instead.
- `get_villes` is declared at module level in Ville.py:21 but is used as the
  settlements' method (Dijkstra.py:68-69).

Each of these is modelled as a read of the shared node table
`map<Coord, Node>`: the neighbour list stored by `HexGraphe`, and the terrain
and altitude of the cell.

## Model

| member | source | states |
|---|---|---|
| Hex.Neighbours | hexgrid_viewer.py:238-243 | get_neighbours returns only cells inside the height x width rectangle |
| Hex.NeighboursShape | hexgrid_viewer.py:238-243 | the neighbours of (x, y) are exactly the in-grid cells among the six candidates of its parity's offset table, in table order; at most 6, no repeats, never (x, y) itself |
| Hex.KeepInGridShape | hexgrid_viewer.py:243 | the bounds filter keeps exactly the in-grid candidates, in their order, and keeps distinctness |
| Hex.CandidatesFollowTable | hexgrid_viewer.py:239-242 | the candidates are (x + dx, y + dy) for the six offsets of the table, in order; they are distinct and exclude (x, y) |
| Hex.NeighboursDependOnParity | hexgrid_viewer.py:239-242 | only y % 2 selects the offset table; even and odd columns get the two literal tables |
| Hex.NeighbourSymmetric | hexgrid_viewer.py:238-243 | for in-grid cells, b is a neighbour of a exactly when a is a neighbour of b |
| Hex.CandidatesMirror | hexgrid_viewer.py:239-242 | if b is one of a's six candidates then a is one of b's, across the two parity tables |
| Hex.NeighbourCountBounds | hexgrid_viewer.py:135-143 | on a grid of at least 2 x 2 every cell has between 2 and 6 neighbours (the viewer's copy computes the same list) |
| Hex.SingleCellHasNoNeighbour | hexgrid_viewer.py:143 | the single cell of a 1 x 1 grid has an empty neighbour list |
| Hex.RowMajorCells | hexgrid_viewer.py:222-223 | the row-major enumeration lists every cell of the rectangle exactly once, height * width of them |
| Hex.GenerateGrid | hexgrid_viewer.py:219-227 | genererGrille makes one entry per cell, keys inserted row-major, the k-th entry carrying the k-th drawn terrain and altitude, every altitude in [0, 1000] |
| Hex.FillRow | hexgrid_viewer.py:223-226 | one pass of the inner loop adds the cells of row i in order, each carrying its own draw, and keeps every earlier entry |
| Hex.AttachNeighbours | hexgrid_viewer.py:235-236 | every node gets its neighbour list; terrain, altitude and the key set are unchanged |
| Hex.HexGraph.constructor | hexgrid_viewer.py:231-236 | the graph keeps height, width and the table's keys in insertion order, attaches every neighbour list and keeps terrain and altitude |
| Hex.HexGraph.GetTerrain | hexgrid_viewer.py:248-249 | get_terrain reads the terrain stored for a cell of the table, which get_nodes lists |
| Hex.HexGraph.GetNodes | hexgrid_viewer.py:245-246 | get_nodes lists every key of the table once, in insertion order |
| Hex.FullGridWellFormed | hexgrid_viewer.py:231-243 | in the full grid every neighbour list names only cells of the table, without repeats and without the cell itself |
| Hex.BuildGrid | hexgrid_viewer.py:219-236 | a graph built from genererGrille's table covers exactly the height x width rectangle, row-major; the k-th cell carries the k-th drawn terrain and altitude, every altitude in [0, 1000] |
| DisjointSets.Find | UnionFind.py:10-13 | find returns an element of the map whose parent is None (a root) and reads the map without changing it |
| DisjointSets.LinkKeepsLeveled | UnionFind.py:20 | attaching one root under another root keeps the parent links acyclic |
| DisjointSets.FindAfterLink | UnionFind.py:17-20 | after the link, an element whose root was xr has root yr, and every other element keeps its root |
| DisjointSets.RootsAfterLink | UnionFind.py:15-20 | the same, for all elements at once |
| DisjointSets.RelabelledAnyLevels | UnionFind.py:15-20 | linking root xr under root yr relabels exactly the members of xr's set, whatever ranks witness acyclicity |
| DisjointSets.UnionFind.constructor | UnionFind.py:4-5 | the parent map starts empty |
| DisjointSets.UnionFind.MakeSet | UnionFind.py:7-8 | makeSet sets parent[x] to None, leaving the other entries; find(x) == x and the links stay acyclic |
| DisjointSets.UnionFind.Union | UnionFind.py:15-20 | if the roots are equal nothing changes; otherwise only parent[xr] changes, to yr; afterwards find(x) == find(y) and the links stay acyclic |
| Spanning.Insert | Kruskal.py:14 | inserting into a sorted list keeps it sorted and adds exactly the one edge (as a multiset) |
| Spanning.SortByWeight | Kruskal.py:14 | the sorted edges are in non-decreasing weight order and are a permutation of the input |
| Spanning.ConnectedSym | Kruskal.py:19 | connectivity by a set of edges is symmetric |
| Spanning.ConnectedTrans | Kruskal.py:19 | connectivity by a set of edges is transitive |
| Spanning.ConnectedMono | Kruskal.py:19-20 | adding edges never disconnects two nodes |
| Spanning.ForestIsSubseq | Kruskal.py:14-20 | the kept edges are a subsequence of the scanned list |
| Spanning.ForestSorted | Kruskal.py:14-20 | scanned in sorted order, the kept edges are in non-decreasing weight order |
| Spanning.ScanStep | Kruskal.py:17-21 | edge k is rejected exactly when the earlier kept edges, none heavier, already connect its ends, and is appended otherwise |
| Spanning.SameSetIffConnected | Kruskal.py:19 | while the union-find mirrors the kept edges, two nodes have the same root exactly when the kept edges connect them |
| Spanning.SingletonsInvariants | Kruskal.py:8-10 | after makeSet of every node each node is its own set, mirroring the empty edge list |
| Spanning.MakeSets | Kruskal.py:8-10 | the first loop leaves every node in a set of its own, with no other entries |
| Spanning.ScanAccept | Kruskal.py:19-21 | accepting an edge with different roots and merging the two sets keeps the union-find mirroring the kept edges |
| Spanning.ScanReject | Kruskal.py:19 | rejecting an edge whose ends share a root keeps the union-find mirroring the kept edges |
| Spanning.ScanResult | Kruskal.py:17-23 | after the scan the kept edges connect the same nodes as all the edges, number at most \|nodes\| - 1, and exactly that many when the edges connect every node |
| Spanning.Scan | Kruskal.py:17-21 | the second loop keeps exactly the edges of the sorted list whose ends the earlier kept edges did not yet connect, with the union-find mirroring them |
| Spanning.Kruskal | Kruskal.py:7-23 | kruskal returns the greedy forest of the sorted edges; it connects two nodes exactly when the input edges do, has at most \|nodes\| - 1 edges, and exactly \|nodes\| - 1 when the input connects every node |
| Settlements.Chosen | Ville.py:13-19 | the accepted cells keep the ones already placed as a prefix and add at most one per draw |
| Settlements.ChosenWellPlaced | Ville.py:13-19 | the accepted cells are distinct, in the table, not water, at most four, each taken from the draws; when fewer than four result, every other draw was water or off the table |
| Settlements.ChosenStep | Ville.py:15-19 | one draw of the scan: an acceptable cell is appended, any other is skipped |
| Settlements.Ville.constructor | Ville.py:5-7 | a new Ville keeps its grid and has no settlement |
| Settlements.Ville.PlaceVilles | Ville.py:9-19 | placer_ville empties the table, then accepts draws in turn; the settlements are distinct non-water in-grid cells in placement order, each with an empty route table, and there are four of them exactly when it reports success |
| Settlements.Ville.GetVilles | Ville.py:21-22 | get_villes lists every settlement once, in placement order |
| ShortestPaths.StepWeight | Dijkstra.py:37-39 | the constrained weight of a step is at least its terrain penalty, and so at least 1 |
| ShortestPaths.Weight | Dijkstra.py:34-39 | every step weight is at least 1; without the constraints it is exactly 1 |
| ShortestPaths.SelectMin | Dijkstra.py:22-26 | the scan returns an unsettled node of least distance, and every unsettled node after it in scan order is strictly farther (the last minimum wins) |
| ShortestPaths.RelaxOne | Dijkstra.py:40-47 | relaxing one neighbour lowers its distance to d[s] + weight, with s as predecessor, exactly when that is smaller and the step is usable |
| ShortestPaths.Relax | Dijkstra.py:33-47 | after the neighbour loop each neighbour of s holds the smaller of its old distance and d[s] + weight, with s as predecessor exactly when it improved; no other entry changes |
| ShortestPaths.InitialInv | Dijkstra.py:8-17 | every distance infinite and every predecessor None, except d[s0] = 0, satisfies the loop invariant |
| ShortestPaths.RoundKeepsInv | Dijkstra.py:20-47 | settling the nearest unsettled node and relaxing its steps keeps the loop invariant |
| ShortestPaths.LinkAt | Dijkstra.py:40-47 | after a round every predecessor link is still a tight step and leads to a settled node |
| ShortestPaths.NoCheaperWalk | Dijkstra.py:20-47 | once every node is settled, no walk from the source costs less than the distance of its end |
| ShortestPaths.WalkSnoc | Dijkstra.py:40-47 | extending a walk by one usable step adds that step's weight to its cost |
| ShortestPaths.TightSnoc | Dijkstra.py:40-47 | a walk costing d[u] followed by a tight step to v is a walk costing d[v] |
| ShortestPaths.PredWalk | Dijkstra.py:40-47 | following the predecessor links back from a node of finite distance gives a walk from the source costing exactly that distance |
| ShortestPaths.LoopDone | Dijkstra.py:20-30 | when no node is left unsettled every table entry is the true distance and every node was settled once |
| ShortestPaths.AllDistances | Dijkstra.py:20-47 | once every node is settled, every table entry is the distance from the source |
| ShortestPaths.Dijkstra | Dijkstra.py:7-49 | d[s0] = 0 and pred[s0] = None; every entry of d is the least walk cost from s0 (Inf exactly when unreachable); every predecessor link is a usable, tight step, never touching water in constrained mode; the nodes are settled once each in non-decreasing distance order, ties in decreasing insertion position; each predecessor is the first settled node with a tight step |
| ShortestPaths.RoundSettledTies | Dijkstra.py:22-29 | settling the chosen node keeps settled ties in decreasing insertion position |
| ShortestPaths.TiesAheadAt | Dijkstra.py:22-26 | after a round, an unsettled node tied with a settled one comes earlier in insertion order |
| ShortestPaths.RoundTiesAhead | Dijkstra.py:20-47 | settling the last nearest unsettled node and relaxing keeps every unsettled tie ahead of the settled ones in insertion order |
| ShortestPaths.RoundPredFirst | Dijkstra.py:40-47 | since a relaxation replaces a predecessor only on a strict improvement, no node settled before a predecessor has a tight step to its node |
| ShortestPaths.PredFirstAt | Dijkstra.py:40-47 | a node settled before v's predecessor has no tight step to v, whether the round moved the link to the settled node or kept it |
| ShortestPaths.RoundKeepsTies | Dijkstra.py:20-47 | a round keeps the three tie invariants: settled ties, unsettled ties ahead, first tight predecessor |
| ShortestPaths.DistanceUnique | Dijkstra.py:20-47 | a node has one least walk cost from the source |
| ShortestPaths.DistancesUnique | Dijkstra.py:20-47 | two distance tables over the same nodes from the same source are equal |
| ShortestPaths.SettleOrderedTail | Dijkstra.py:22-29 | dropping the first settled node keeps the settling order's properties |
| ShortestPaths.SettleOrderHead | Dijkstra.py:22-26 | two such settling orders of the same nodes start with the same node |
| ShortestPaths.SettleOrderUnique | Dijkstra.py:20-30 | the settling order is determined by the distances and the insertion order |
| ShortestPaths.PredUnique | Dijkstra.py:40-47 | with the same distances and settling order, every predecessor is the same |
| ShortestPaths.PredExists | Dijkstra.py:40-47 | a cell has a predecessor exactly when it is reached and is not the source, and the link is a tight step |
| ShortestPaths.FirstTight | Dijkstra.py:40-47 | no node settled before a cell's predecessor has a tight step to that cell |
| ShortestPaths.PredsUnique | Dijkstra.py:40-47 | with the same distances and settling order, the predecessor tables are equal |
| ShortestPaths.DijkstraDeterministic | Dijkstra.py:7-49 | two outcomes of dijkstra on the same table, mode and source have the same distances, settling order and predecessors |
| ShortestPaths.TightChainCost | Dijkstra.py:40-47 | a chain of tight steps is a walk costing the difference of the distances at its ends |
| ShortestPaths.SumDistReverse | Dijkstra.py:56-63 | the sum of distances over a path does not depend on its direction |
| ShortestPaths.TightPrefixShortest | Dijkstra.py:56-63 | every prefix of a tight chain from the source is a shortest walk costing the distance of its end |
| ShortestPaths.ChainIsRoute | Dijkstra.py:56-64 | the cells collected by following predecessors back to the origin form a route: read backwards, a walk whose prefixes are all shortest walks, weighted by the sum of their costs |
| ShortestPaths.DistanceReachable | Dijkstra.py:49-60 | a distance is finite exactly when its node can be reached |
| ShortestPaths.PredStep | Dijkstra.py:57-60 | a reached cell other than the source has a predecessor one tight step nearer |
| ShortestPaths.HopCost | Dijkstra.py:44-47 | without the constraints a walk costs its number of steps |
| ShortestPaths.HopPrefixSum | Dijkstra.py:56-63 | without the constraints the prefix costs of a k-step walk add up to k(k+1)/2 |
| ShortestPaths.UnconstrainedRouteCost | Dijkstra.py:56-64 | without the constraints a k-step route weighs k(k+1)/2 |
| ShortestPaths.FollowStep | Dijkstra.py:57-60 | one round of the reconstruction loop appends the current cell, adds its distance, and moves to its predecessor, a cell at least 1 nearer the source |
| ShortestPaths.FollowEnd | Dijkstra.py:62-63 | appending the origin closes the collected chain: each cell's predecessor is the next one, and the weight adds the origin's distance |
| ShortestPaths.FollowPreds | Dijkstra.py:53-64 | the reconstruction loop returns the cells from b back to a, each one's predecessor being the next, each reached from the next by a tight step, weighted by the sum of their distances; for a == b it returns [a] with weight 0 |
| ShortestPaths.PredChainSnoc | Dijkstra.py:58-60 | appending the predecessor of the last collected cell keeps the list a predecessor chain |
| ShortestPaths.PredChainUnique | Dijkstra.py:57-62 | following one predecessor table from b until the origin, which has none, gives one list only |
| ShortestPaths.DijkstraRouteUnique | Dijkstra.py:51-64 | two routes from b to a read off dijkstra's tables are the same route |
| ShortestPaths.DijkstraRouteEvery | Dijkstra.py:51-64 | a route read off one outcome of dijkstra is the predecessor chain of every outcome from the same source |
| ShortestPaths.RouteBetween | Dijkstra.py:51-64 | there is no route exactly when b is unreachable from a; a route starts at b, is the predecessor chain of dijkstra's (unique) table from a, and, reversed, is a walk from a whose every prefix is shortest; a == b gives [a] with weight 0 |
| ShortestPaths.RoutesTo | Dijkstra.py:69-75 | for a fixed i, the route from every other settlement j to i, read off dijkstra's table from j, is stored at row[j]; every other entry of the row is unchanged |
| ShortestPaths.RowAdd | Dijkstra.py:71-75 | storing the route from another settlement j keeps every stored entry of row i and adds j's |
| ShortestPaths.PccVilles | Dijkstra.py:66-75 | for every ordered pair of distinct settlements, villes[i][j] holds the route from j to i read off dijkstra's table from j; nothing is stored for i == j and the settlements are unchanged |
| Rivers.ChainDescends | Rivieres.py:18-28 | a chain of the search tree ends at the source, has no repeated cell, and no cell is higher than the next |
| Rivers.PopStep | Rivieres.py:20-22 | the pop step keeps the search invariant |
| Rivers.PushStep | Rivieres.py:26-29 | pushing a neighbour that is not higher, not on the stack and not yet explored records its parent and keeps the search invariant |
| Rivers.PushAllKeeps | Rivieres.py:24-29 | pushing the admissible neighbours of the popped cell keeps the search invariant and records a parent for every cell one non-climbing step from it |
| Rivers.KeysShrink | Rivieres.py:20-29 | recording a new parent leaves fewer unexplored cells, so the search ends |
| Rivers.DfsFrom | Rivieres.py:20-29 | the search loop, run from any search state to an empty stack, ends in a search state |
| Rivers.Dfs | Rivieres.py:14-29 | the search from n, started with n on the stack as the source, builds a search tree rooted at n |
| Rivers.PushChildren | Rivieres.py:24-29 | the neighbour loop pushes, in list order, each neighbour not on the stack, not explored and not higher than the popped cell, recording the popped cell as its parent |
| Rivers.Explore | Rivieres.py:14-29 | the search from n returns exactly the popped cells, parents and ranks of the step-by-step search; it is a search tree: distinct cells, n first, a parent entry exactly for each explored cell, only n with the source marker, every other link a non-climbing step, and every cell one such step from an explored cell explored |
| Rivers.ExploreComplete | Rivieres.py:20-29 | every cell reached from n by a walk that never climbs is explored |
| Rivers.Explored | Rivieres.py:14-29 | a cell is explored exactly when a walk that never climbs leads to it from n |
| Rivers.Chain | Rivieres.py:45-49 | the chain from i to the source starts at i and is never empty |
| Rivers.ChainOf | Rivieres.py:45-49 | the inner loop builds exactly the chain from i back to the source |
| Rivers.LongestChain | Rivieres.py:42-51 | the chosen chain is one of the longest among the explored cells, and the first of them in exploration order |
| Rivers.RiverBelowSource | Rivieres.py:24-28 | no cell of a river bed lies higher than its source |
| Rivers.FirstLongestUnique | Rivieres.py:42-51 | a search tree has one first longest chain |
| Rivers.MainRiverUnique | Rivieres.py:14-51 | given the table and the source, the main river is determined |
| Rivers.MainRiver | Rivieres.py:14-51 | the main river is the first longest chain, in exploration order, of the search tree the search from n builds; it is a river bed: distinct cells of the table ending at n, each not higher than the next |
| Rivers.PushAllSameRelief | Rivieres.py:24-27 | the neighbour loop reads only altitudes and neighbour lists |
| Rivers.DfsFromSameRelief | Rivieres.py:20-29 | the search reads only altitudes and neighbour lists |
| Rivers.MainRiverSameRelief | Rivieres.py:24-27 | the main river from n depends only on the altitudes and neighbour lists, not on terrain |
| Rivers.Riviere.constructor | Rivieres.py:5-7 | the carver keeps the grid it is given |
| Rivers.Riviere.DfsRiviere | Rivieres.py:9-59 | the chain is the first longest chain of the search tree the search from n builds, a river bed; the result is true exactly when it has more than 2 cells; then exactly its cells become water, otherwise nothing changes; altitudes and neighbours never change |
| Rivers.Riviere.Carve | Rivieres.py:57-59 | exactly the cells of the chain become water; every other field and cell is unchanged |
| Rivers.Riviere.Attempt | Rivieres.py:75-77 | one draw: the main river from the drawn cell is found on the original relief, succeeds exactly when longer than 2 cells, and the table becomes the original one watered by the rivers so far plus this one |
| Rivers.Riviere.PlaceRivers | Rivieres.py:61-77 | the k-th draw yields the main river from that cell; the count is the number of those longer than 2 cells, at most 1 + h*w/50; fewer only when every draw was used, and when the target is met the last draw succeeded; the table ends as the original with exactly the cells of the successful rivers turned to water |
| Rivers.PlacingStep | Rivieres.py:74-77 | one pass of the loop on the next draw adds its main river, and counts it exactly when it has more than 2 cells |
| Rivers.RiversFromSnoc | Rivieres.py:74-77 | the rivers of the draws so far, plus the main river of the next draw, are the rivers of one more draw |
| Rivers.Carved | Rivieres.py:76-77 | the successes counted never exceed the draws taken |
| Rivers.CarvedSnoc | Rivieres.py:76-77 | one more draw adds one to the count exactly when its river has more than 2 cells |
| Rivers.WaterCellsMembers | Rivieres.py:57-58 | a cell is water-marked exactly when it lies on some river of more than 2 cells |
| Rivers.WaterStep | Rivieres.py:54-59 | carving one more river, or none when it has at most 2 cells, keeps the table equal to the original watered by the rivers so far |
| Rivers.NbRivers | Rivieres.py:62 | the river count r satisfies (r - 1) * 50 <= h * w < r * 50, i.e. r = 1 + floor(h * w / 50) |

## Left out

- Rendering: the viewer's shapes, colours, alpha, symbols and links, `show`, `__repr__` and `main` are display code and return no data.
- Random generation: `randint`, `random` and `choices` are replaced by sequences of draws passed in. The weighted terrain choice only matters through the grid it produces.
- Terrain shaping by radial propagation has no implementation in the files modelled. The grid methods `get_all_edges` and `get_altitude` are not part of this model: Kruskal takes its edges as an input, and altitudes are read from the node table.
- The branch recursion of `dfs_riviere` (the `branches` list, `proba_embranch` and the draws at Rivieres.py:31 and :38) is left out because it can never run. The loop that fills `visited` ends only when `visited` is empty, so the test at Rivieres.py:38 is always false.
- Floating point: weights and `float('inf')` are modelled as exact reals plus an explicit infinity, with no rounding. `int(h * w / 50)` is modelled as integer division, which agrees for non-negative sizes when there is no rounding.
- Unbounded retry loops (`placer_ville`, `placer_riviere`) are modelled as loops over a finite sequence of draws. They report how many successes they reached instead of running until success.
- An unreachable destination makes `pcc_ville_a_b` fail at Dijkstra.py:60. The model returns `None` instead, and `pcc_villes` stores that `None`.
- Spanning.Kruskal: minimum total weight of the spanning tree is not proved. The contract states that the result is the greedy forest of the sorted edges, with the same connectivity and the tree's edge count, but not that no other spanning tree is lighter.
- Spanning.SortByWeight: Python's `sorted` is stable. The model's insertion sort also keeps equal weights in input order, but the contract states only sortedness and permutation, not stability.
- DisjointSets.UnionFind.Union: requires x and y to be in the parent map. The source raises KeyError for a missing element (UnionFind.py:11, :17), which the model does not reproduce.
- Spanning.Kruskal: requires every edge's ends to be nodes of the graph. The source raises KeyError otherwise (Kruskal.py:19).
- Nothing in the model stops a later river from turning a settlement's cell to water. The program does not prevent this either.
