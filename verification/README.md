# Grid shortest path with Dial's algorithm — a Dafny model

`source/main.cpp` finds a cheapest path between two cells of a `lines` by
`columns` grid. Each cell has a weight from 0 to 9, and weight 0 marks an
impassable cell. Moving onto a cell costs that cell's weight. The program:

1. answers the trivial query (start equals finish) at once (`isForceAnswer`);
2. flattens the grid row-major (`line * columns + column`) and builds an
   adjacency list of passable up/down/left/right neighbours (`buildGraph`);
3. seeds the start cell and runs Dial's algorithm (`bfs`): a Dijkstra search
   whose priority queue is a ring of `MAX_EDGE_WEIGHT + 1` FIFO queues, indexed
   by distance modulo the ring size, with lazy deletion through the `used` flags
   and a live-entry counter that ends the loop;
4. walks the parent pointers back from the finish (`buildReversedAnswer`).

The project has six modules:

- `Grid` (`grid.dfy`): cells, the flattening `Index` and its inverse `CellAt`,
  weights, grid adjacency and `IsForceAnswer`.
- `GraphBuilder` (`graph.dfy`): the neighbour lists as functions (`NeighboursAt`,
  `Neighbours`, `Adjacency`), and `BuildGraph`, which fills an `array<seq<int>>`
  with nested loops.
- `Paths` (`paths.dfy`): the `Distance` datatype (`Infinity` stands for
  `LLONG_MAX`), paths and their costs on the flattened graph and on the grid,
  and the lemmas that translate between the two.
- `Dial` (`dial.dfy`): the engine. `Bfs` and its steps are methods over arrays
  (`distance`, `parent`, `used`, and `levels`, an array of queues held as
  `seq<int>`). They are proved against ghost `State` snapshots and the loop
  invariant `Inv`. The step lemmas show that each step keeps `Inv`, and
  `Termination` shows that the final distances are the shortest ones.
- `Reconstruct` (`reconstruct.dfy`): `BuildReversedAnswer` as a loop over the
  parent pointers.
- `Search` (`search.dfy`): `FindPath`, the algorithmic part of `main`. It covers
  the trivial query, the allocation, building the graph, seeding, the search and
  the reconstruction. It is proved end to end: the answer read backwards is a
  cheapest grid path, and it is found exactly when some grid path exists.

## Model

| member | source | states |
|---|---|---|
| Grid.IsForceAnswer | source/main.cpp:19-21 | The trivial query holds exactly when the start cell and the finish cell are the same cell. |
| Grid.IndexIsFlattening | source/main.cpp:33 | `Index` is the row-major flattening `columns * line + column`, the formula of source/main.cpp:33, 62 and 135. |
| Grid.CellAtIsDivMod | source/main.cpp:66-67 | `CellAt` decodes a non-negative index as `(index / columns, index % columns)`: the column lies in `[0, columns)`, the line is non-negative, and flattening them gives the index back. |
| Grid.ForceAnswerIffSameIndex | source/main.cpp:19-21 | For in-grid cells, the trivial-query test holds exactly when the two cells have the same flattened index. |
| Grid.IndexInjective | source/main.cpp:33 | The flattening `line * columns + column` is one-to-one on in-grid cells. |
| Grid.CellAtIndex | source/main.cpp:66-67 | Decoding `(index / columns, index % columns)` undoes the flattening of an in-grid cell, and the index lies in `[0, lines * columns)`. |
| Grid.IndexCellAt | source/main.cpp:62-67 | Every index in `[0, lines * columns)` decodes to an in-grid cell whose flattening is that index. |
| GraphBuilder.CollectNeighbours | source/main.cpp:34-52 | The pushes of one scan step (nothing for an impassable cell, then above, below, left and right when the neighbour exists and is passable) give exactly the cell's neighbour list `NeighboursAt`. |
| GraphBuilder.AddNeighbours | source/main.cpp:33-52 | One scan step sets the list of cell `(i, j)`, which was empty, to its neighbour list and leaves every other list unchanged. |
| GraphBuilder.BuildGraph | source/main.cpp:30-55 | After the nested scan, the graph is exactly `Adjacency`, one neighbour list per flattened index. |
| GraphBuilder.InNeighbours | source/main.cpp:38-51 | A neighbour list holds `v` exactly when the cell and `v` are passable and `v` is the offset above, below, left or right that exists in the grid. |
| GraphBuilder.AdjacentCells | source/main.cpp:38-51 | Two in-grid cells are grid neighbours exactly when one's flattened index is one of the four offsets of the other's. |
| GraphBuilder.NeighbourIff | source/main.cpp:30-55 | `v` is listed for `u` exactly when both cells are passable and grid-adjacent: no edge touches a weight-0 cell, and every edge joins grid neighbours. |
| GraphBuilder.AdjacencySymmetric | source/main.cpp:30-55 | The built adjacency is symmetric: `v` is listed for `u` exactly when `u` is listed for `v`. |
| Paths.GridPathIsPath | source/main.cpp:30-55 | Every grid path of passable neighbours, once flattened, is a path of the built graph with the same cost. |
| Paths.PathIsGridPath | source/main.cpp:30-55 | Every path of the built graph, once decoded, is a grid path with the same cost. |
| Paths.GridPathsBounded | source/main.cpp:74-102 | The shortest graph distance of the finish bounds every grid path to it: if one exists, the distance is finite and no greater than its cost. |
| Dial.InitialInvariant | source/main.cpp:76 | The state `main` seeds, with level 0 and one live entry, satisfies the engine's invariant. |
| Dial.AdvanceLevel | source/main.cpp:78-80 | Moving the level past an empty queue keeps the invariant. No unexpanded reached cell sits at the current level, because it would be queued there. |
| Dial.NextLevel | source/main.cpp:77-80 | While entries are counted, the scan past empty queues stops at the first level, from the old one on, whose queue is nonempty: every level it passes has an empty queue. The invariant still holds there. |
| Dial.PopFront | source/main.cpp:82-85 | Taking the front entry of the current queue returns that entry. The new state is the old one with the entry removed and the counter one lower. |
| Dial.PopKeeps | source/main.cpp:82-85 | After the pop, the counter still equals the number of queued entries, queued distances stay within the served ones, and every other pending cell is still queued. |
| Dial.Discard | source/main.cpp:87-89 | Popping an entry whose cell is already expanded keeps the invariant without touching distances, parents or flags. |
| Dial.Expand | source/main.cpp:87-91 | A popped cell not yet expanded has the current level as its distance. Marking it used starts its expansion and keeps the invariant. |
| Dial.Settle | source/main.cpp:87-100 | A stale entry changes nothing beyond the pop. Otherwise exactly that cell's `used` flag turns true, so the number of unexpanded cells falls. Every distance then either keeps its value and parent or strictly decreases with the settled cell as its new parent, and the invariant holds after the cell's edges are scanned. |
| Dial.RelaxEdge | source/main.cpp:93-99 | When `distance[current] + weight[child]` is below `distance[child]`, the child gets that distance and `current` as its parent, is appended to the queue of its distance's residue, and is counted. Otherwise nothing changes. |
| Dial.ImprovedTarget | source/main.cpp:94 | A neighbour whose distance can still improve is neither expanded nor the start, so the start keeps distance 0 and settled cells are never updated. |
| Dial.RelaxKeepsQueues | source/main.cpp:94-98 | An improving relaxation keeps the counter equal to the queued entries and queues the child under the residue of its new distance, which is within `BUCKETS` of the level. |
| Dial.RelaxKeepsTree | source/main.cpp:95-96 | An improving relaxation keeps the parent pointers a shortest-path tree: the child's parent is the expanded `current`, and its distance is the parent's plus the child's weight. |
| Dial.RelaxStep | source/main.cpp:94-98 | An improving relaxation keeps the whole invariant, with one more edge of `current` scanned. |
| Dial.NoRelax | source/main.cpp:94 | An edge that does not improve its target keeps the invariant, with one more edge scanned. |
| Dial.ScanEdge | source/main.cpp:92-99 | Scanning the k-th edge of `current` gives exactly `ScanStep`: the relaxation of the child when `distance[current] + weight[child]` is below `distance[child]`, and no change otherwise. It keeps the invariant with `k + 1` edges scanned and leaves the `used` flags unchanged. |
| Dial.LoweredStep | source/main.cpp:94-96 | One more scanned edge keeps the state lowered from the start of the expansion: distances never increase, and every changed distance has `current` as its parent. |
| Dial.ExpandCell | source/main.cpp:92-100 | After all edges of the expanded cell are scanned, the invariant holds between expansions, with every edge of that cell relaxed. The `used` flags and the level are unchanged. Every distance either keeps its value and parent or strictly decreases with the expanded cell as its new parent. |
| Dial.NoShorterPath | source/main.cpp:94-95 | With every edge relaxed and the start at distance 0, no graph path from the start is cheaper than the recorded distance of its end. |
| Dial.TreePath | source/main.cpp:96 | Following the parent pointers from a reached cell gives a path from the start whose cost is exactly that cell's distance. |
| Dial.Termination | source/main.cpp:77 | When the counter reaches 0, every queue is empty, a cell is expanded exactly when it is reached, and every distance is the shortest one (Infinity when unreachable). |
| Dial.Bfs | source/main.cpp:74-102 | From the seeded state, every `distance[v]` is the shortest distance from the start over the graph, `parent` is a shortest-path tree, the expanded cells are the reached ones, and all queues end empty. |
| Reconstruct.ParentStep | source/main.cpp:62-67 | One parent step from a non-start cell decodes to an in-grid cell of strictly lower rank. |
| Reconstruct.BuildReversedAnswer | source/main.cpp:58-71 | The answer starts at the finish and follows the parent chain. It returns true exactly when the walk ends at the start. Otherwise it stops at a cell whose parent is `NULL_PARENT`. |
| Search.AdjacencyValid | source/main.cpp:30-55 | The built graph is one the engine accepts: every listed neighbour is in range and has weight in `[1, 9]`. |
| Search.TreeRanked | source/main.cpp:60-68 | In a shortest-path tree, each parent's distance is strictly below its child's, so the walk back from the finish terminates. |
| Search.ChainIsTreePath | source/main.cpp:58-71 | A parent chain ending at the start, read backwards, is the tree path of its first cell. |
| Search.ChainUnreached | source/main.cpp:63-64 | A walk that meets `NULL_PARENT` meets it at the finish itself, which is unreached. |
| Search.FoundIsShortest | source/main.cpp:143-147 | A found answer, read backwards, is a cheapest grid path from start to finish. |
| Search.FoundAnswer | source/main.cpp:143-147 | After the search, a found answer is a cheapest grid path read backwards, and some grid path exists. |
| Search.MissingAnswer | source/main.cpp:143-145 | After the search, a walk that does not reach the start is the finish alone, and no grid path joins start to finish. |
| Search.StartAloneIsShortest | source/main.cpp:128-131 | The trivial query's answer, the start cell alone, is a cheapest grid path from the start to itself. |
| Search.GridCostNonNegative | source/main.cpp:128-131 | With weights in `[0, 9]`, no grid path costs less than 0. |
| Search.SeedStart | source/main.cpp:135-138 | Seeding makes the start its own parent at distance 0 and the only entry, in queue 0, of an otherwise untouched state. |
| Search.FindPath | source/main.cpp:128-147 | The trivial query answers `[start]`. Otherwise an answer is found exactly when some grid path joins start to finish. A found answer, read backwards, is a cheapest such path, and a missing one is `[finish]`. |
| Search.AllocatedRingOverflows | source/main.cpp:106 | On a 1x2 grid with weight values 1 and 9, seeded from cell (0, 0), the first relaxation, from the start to its only neighbour, improves that neighbour to distance 9 and queues it under residue 9. A ring of `MAX_EDGE_WEIGHT` queues has no queue 9. |

## Left out

- Reading the grid and the coordinates from standard input is not modelled. The model takes the weights as integers already in `[0, 9]` (`ValidWeights`). As written, `cin >> weight[i]` (source/main.cpp:118) reads an `int8_t` as one character, so the digits `0` to `9` become the character codes 48 to 57. No cell is then impassable, and a weight can exceed the ring of `MAX_EDGE_WEIGHT + 1` queues that the engine's residue arithmetic assumes. The model describes the program as if each digit were read as its value.
- The input validation (source/main.cpp:123) is replaced by the precondition that both cells lie in the grid. As written, it never checks `startColumn` and has no lower bound on `finishColumn`, so `startIndex` (source/main.cpp:135) can fall outside the grid.
- Printing (`printAnswer`, which lists `answer` in reverse, so from start to finish), the error messages and `exit` are not modelled. `FindPath` returns `found` and `answer` instead.
- 64-bit integers and `LLONG_MAX` are not modelled. Distances are unbounded naturals, with `Infinity` for `LLONG_MAX`, and `Below` treats `Infinity` as above every number.
- The queues are `seq<int>` values in an array, and `std::queue`'s storage is not modelled.
- Reconstruct.BuildReversedAnswer: takes a ghost `rank` and requires that following a parent lowers it. This holds for the tree the search leaves behind (`Search.TreeRanked`), because every entered cell costs at least 1.
- Dial.Bfs: requires every listed neighbour to have weight at least 1 (`ValidGraph`). This holds for every built graph (`Search.AdjacencyValid`). It also takes the start index as a ghost parameter, which the source leaves implicit in the seeded state.
- Dial.Bfs: requires a ring of `MAX_EDGE_WEIGHT + 1` queues, one more than `main` allocates; see Findings.
- Dial.ExpandCell, Dial.Settle: state the new distances and parents through `Lowered` (each one unchanged, or strictly lower with the expanded cell as parent) and through the invariant, which says every edge of the expanded cell is relaxed. They do not state the new state as the exact fold of `ScanStep` over the cell's edges. `Dial.ScanEdge` states each single step exactly.
- GraphBuilder.AddNeighbours: collects the pushes of one scan step in a local list and appends it once, instead of pushing into `graph[currentIndex]` one neighbour at a time. The resulting list is the same.

## Findings

| source | as written | input that shows it | evidently intended | confidence | as-written member | corrected member |
|---|---|---|---|---|---|---|
| source/main.cpp:106 | `levels` is allocated with `MAX_EDGE_WEIGHT` (9) queues, but `bfs` indexes it with `% (MAX_EDGE_WEIGHT + 1)`, which can reach 9 (source/main.cpp:78, 82-83, 97). | A 1x2 grid with weight values 1 and 9, start (0, 0), finish (0, 1): the first relaxation gives cell 1 distance 9 and pushes it onto `levels[9]`, past the end. Because the weights are read as characters (see Left out), the standard input `1 2` / `1 1` / `0 0 0 1` gives weight values 49 and 49, and the distance 49 also lands on `levels[49 % 10]`, that is `levels[9]`. | Allocate `MAX_EDGE_WEIGHT + 1` queues, one per residue. | not executed | Search.AllocatedRingOverflows | Search.FindPath |
