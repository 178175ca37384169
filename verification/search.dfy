/** The query `main` answers: the cheapest grid path from the start cell to the
    finish cell, found by building the graph, seeding and running the engine,
    and reading the answer off the parent pointers. */
module Search {
  import opened Grid
  import opened GraphBuilder
  import opened Paths
  import opened Dial
  import opened Reconstruct

  /** The built graph is one the engine accepts: each listed neighbour is a
      passable cell, so its weight lies in [1, MAX_EDGE_WEIGHT]. */
  lemma AdjacencyValid(lines: int, columns: int, weight: seq<int>)
    requires lines >= 0 && columns > 0 && |weight| == GridSize(lines, columns) && ValidWeights(weight)
    ensures ValidGraph(Adjacency(lines, columns, weight), weight)
  {
    var graph := Adjacency(lines, columns, weight);
    forall u, k | 0 <= u < |graph| && 0 <= k < |graph[u]|
      ensures 0 <= graph[u][k] < |weight| && weight[graph[u][k]] >= 1
    {
      assert graph[u][k] in NeighboursOf(lines, columns, weight, u);
    }
  }

  /** The reached distances, as ranks (unreached cells rank 0). */
  function Ranks(distance: seq<Distance>): (rank: seq<nat>)
    ensures |rank| == |distance|
    ensures forall v :: 0 <= v < |distance| && distance[v].Finite? ==> rank[v] == distance[v].value
  {
    seq(|distance|, v requires 0 <= v < |distance| => if distance[v].Finite? then distance[v].value else 0)
  }

  /** In a shortest-path tree every parent is strictly closer to the start than
      its child, as every cell entered costs at least 1: following parents
      terminates. */
  lemma TreeRanked(graph: seq<seq<int>>, weight: seq<int>, lines: int, columns: int, start: Cell,
                   distance: seq<Distance>, parent: seq<int>, used: seq<bool>)
    requires lines >= 0 && columns > 0 && InGrid(lines, columns, start)
    requires ValidGraph(graph, weight) && |graph| == GridSize(lines, columns)
    requires |distance| == |parent| == |used| == |graph|
    requires ParentTree(graph, weight, Index(columns, start), distance, parent, used)
    ensures ParentsRanked(lines, columns, start, parent, Ranks(distance))
  {
    var rank := Ranks(distance);
    forall v | 0 <= v < |parent| && v != Index(columns, start) && parent[v] != -1
      ensures 0 <= parent[v] < |parent| && rank[parent[v]] < rank[v]
    {
      assert ParentLink(graph, weight, distance, parent, used, v);
      var k :| 0 <= k < |graph[parent[v]]| && graph[parent[v]][k] == v;
    }
  }

  /** A stretch of the parent chain that ends at the start, read backwards, is
      the tree path of its first cell. */
  lemma {:induction false} ChainIsTreePath(graph: seq<seq<int>>, weight: seq<int>, lines: int, columns: int,
                                           start: Cell, distance: seq<Distance>, parent: seq<int>, used: seq<bool>,
                                           cells: seq<Cell>)
    requires lines >= 0 && columns > 0 && InGrid(lines, columns, start)
    requires ValidGraph(graph, weight) && |graph| == GridSize(lines, columns)
    requires |distance| == |parent| == |used| == |graph|
    requires ParentTree(graph, weight, Index(columns, start), distance, parent, used)
    requires Chain(lines, columns, start, parent, cells) && |cells| >= 1 && cells[|cells| - 1] == start
    ensures 0 <= Index(columns, cells[0]) < |graph| && distance[Index(columns, cells[0])].Finite?
    ensures Indices(columns, Reverse(cells))
      == TreePath(graph, weight, Index(columns, start), distance, parent, used, Index(columns, cells[0]))
    decreases |cells|
  {
    var s := Index(columns, start);
    var v := Index(columns, cells[0]);
    IndexInRange(lines, columns, cells[0]);
    if |cells| == 1 {
      assert Reverse(cells) == [start];
    } else {
      var rest := cells[1..];
      assert Chain(lines, columns, start, parent, rest);
      ChainIsTreePath(graph, weight, lines, columns, start, distance, parent, used, rest);
      IndexInjective(lines, columns, cells[0], start);
      assert ParentLink(graph, weight, distance, parent, used, v);
      IndexCellAt(lines, columns, parent[v]);
      assert Reverse(cells) == Reverse(rest) + [cells[0]];
      assert Indices(columns, Reverse(cells)) == Indices(columns, Reverse(rest)) + [v];
    }
  }

  /** A chain from the finish that stops short of the start stops at once: every
      cell with a parent is reached, and so is every parent, so the only cell of
      the chain without a parent is an unreached finish. */
  lemma ChainUnreached(graph: seq<seq<int>>, weight: seq<int>, lines: int, columns: int,
                       start: Cell, distance: seq<Distance>, parent: seq<int>, used: seq<bool>,
                       cells: seq<Cell>)
    requires lines >= 0 && columns > 0 && InGrid(lines, columns, start)
    requires ValidGraph(graph, weight) && |graph| == GridSize(lines, columns)
    requires |distance| == |parent| == |used| == |graph|
    requires ParentTree(graph, weight, Index(columns, start), distance, parent, used)
    requires Chain(lines, columns, start, parent, cells) && |cells| >= 1 && cells[|cells| - 1] != start
    requires (IndexInRange(lines, columns, cells[|cells| - 1]); parent[Index(columns, cells[|cells| - 1])] == -1)
    ensures |cells| == 1 && 0 <= Index(columns, cells[0]) < |graph| && distance[Index(columns, cells[0])].Infinity?
  {
    var last := cells[|cells| - 1];
    IndexInRange(lines, columns, last);
    IndexInjective(lines, columns, last, start);
    assert ParentLink(graph, weight, distance, parent, used, Index(columns, last));
    if |cells| > 1 {
      var before := cells[|cells| - 2];
      IndexInRange(lines, columns, before);
      IndexInjective(lines, columns, before, start);
      var u := Index(columns, before);
      assert ParentLink(graph, weight, distance, parent, used, u);
      IndexCellAt(lines, columns, parent[u]);
      assert false;
    }
  }

  /** With weights in [0, MAX_EDGE_WEIGHT], no grid path costs less than 0. */
  lemma {:induction false} GridCostNonNegative(lines: int, columns: int, weight: seq<int>, cells: seq<Cell>)
    requires |weight| == GridSize(lines, columns) && ValidWeights(weight)
    requires forall k :: 0 <= k < |cells| ==> InGrid(lines, columns, cells[k])
    ensures GridCost(lines, columns, weight, cells) >= 0
    decreases |cells|
  {
    if |cells| > 1 {
      GridCostNonNegative(lines, columns, weight, cells[..|cells| - 1]);
      IndexInRange(lines, columns, cells[|cells| - 1]);
    }
  }

  /** The answer, once found, is a cheapest grid path: the chain read backwards
      is the tree path of the finish, whose cost is the finish's shortest
      distance, which no grid path undercuts. */
  lemma FoundIsShortest(lines: int, columns: int, weight: seq<int>, start: Cell, finish: Cell,
                        distance: seq<Distance>, parent: seq<int>, used: seq<bool>, answer: seq<Cell>)
    requires lines >= 0 && columns > 0 && |weight| == GridSize(lines, columns) && ValidWeights(weight)
    requires InGrid(lines, columns, start) && InGrid(lines, columns, finish)
    requires |distance| == |parent| == |used| == |weight|
    requires var graph := Adjacency(lines, columns, weight);
      && ValidGraph(graph, weight)
      && ParentTree(graph, weight, Index(columns, start), distance, parent, used)
      && (IndexInRange(lines, columns, finish);
          IsShortestDistance(graph, weight, Index(columns, start), Index(columns, finish), distance[Index(columns, finish)]))
    requires Chain(lines, columns, start, parent, answer) && |answer| >= 1
    requires answer[0] == finish && answer[|answer| - 1] == start
    ensures IsShortestGridPath(lines, columns, weight, start, finish, Reverse(answer))
  {
    var graph := Adjacency(lines, columns, weight);
    var s, f := Index(columns, start), Index(columns, finish);
    ChainIsTreePath(graph, weight, lines, columns, start, distance, parent, used, answer);
    var p := TreePath(graph, weight, s, distance, parent, used, f);
    PathIsGridPath(lines, columns, weight, p);
    CellsOfIndices(lines, columns, Reverse(answer));
    GridPathsBounded(lines, columns, weight, start, finish, distance[f]);
  }

  /** The engine's results: `distance` holds the shortest distances from the
      start over the built graph, and `parent` a shortest-path tree. */
  ghost predicate Searched(lines: int, columns: int, weight: seq<int>, start: Cell,
                           distance: seq<Distance>, parent: seq<int>, used: seq<bool>)
    requires lines >= 0 && columns > 0 && |weight| == GridSize(lines, columns) && ValidWeights(weight)
    requires InGrid(lines, columns, start)
  {
    var graph := Adjacency(lines, columns, weight);
    && |distance| == |parent| == |used| == |weight|
    && ValidGraph(graph, weight)
    && ParentTree(graph, weight, Index(columns, start), distance, parent, used)
    && forall v :: 0 <= v < |graph| ==> IsShortestDistance(graph, weight, Index(columns, start), v, distance[v])
  }

  /** An answer read back to the start is a cheapest grid path, read backwards. */
  lemma FoundAnswer(lines: int, columns: int, weight: seq<int>, start: Cell, finish: Cell,
                    distance: seq<Distance>, parent: seq<int>, used: seq<bool>, answer: seq<Cell>)
    requires lines >= 0 && columns > 0 && |weight| == GridSize(lines, columns) && ValidWeights(weight)
    requires InGrid(lines, columns, start) && InGrid(lines, columns, finish)
    requires Searched(lines, columns, weight, start, distance, parent, used)
    requires |answer| >= 1 && answer[0] == finish && Chain(lines, columns, start, parent, answer)
    requires answer[|answer| - 1] == start
    ensures IsShortestGridPath(lines, columns, weight, start, finish, Reverse(answer))
    ensures exists cells :: IsGridPathFrom(lines, columns, weight, start, finish, cells)
  {
    IndexInRange(lines, columns, finish);
    var f := Index(columns, finish);
    assert IsShortestDistance(Adjacency(lines, columns, weight), weight, Index(columns, start), f, distance[f]);
    FoundIsShortest(lines, columns, weight, start, finish, distance, parent, used, answer);
  }

  /** An answer that stops short of the start is the finish alone, and no grid
      path leads there. */
  lemma MissingAnswer(lines: int, columns: int, weight: seq<int>, start: Cell, finish: Cell,
                      distance: seq<Distance>, parent: seq<int>, used: seq<bool>, answer: seq<Cell>)
    requires lines >= 0 && columns > 0 && |weight| == GridSize(lines, columns) && ValidWeights(weight)
    requires InGrid(lines, columns, start) && InGrid(lines, columns, finish)
    requires Searched(lines, columns, weight, start, distance, parent, used)
    requires |answer| >= 1 && answer[0] == finish && Chain(lines, columns, start, parent, answer)
    requires answer[|answer| - 1] != start
    requires (IndexInRange(lines, columns, answer[|answer| - 1]); parent[Index(columns, answer[|answer| - 1])] == -1)
    ensures answer == [finish]
    ensures forall cells :: !IsGridPathFrom(lines, columns, weight, start, finish, cells)
  {
    var graph := Adjacency(lines, columns, weight);
    IndexInRange(lines, columns, finish);
    var f := Index(columns, finish);
    assert IsShortestDistance(graph, weight, Index(columns, start), f, distance[f]);
    ChainUnreached(graph, weight, lines, columns, start, distance, parent, used, answer);
    GridPathsBounded(lines, columns, weight, start, finish, distance[f]);
  }

  /** The trivial query's answer, the start cell alone, is a cheapest grid path
      from the start to itself. */
  lemma StartAloneIsShortest(lines: int, columns: int, weight: seq<int>, start: Cell)
    requires |weight| == GridSize(lines, columns) && ValidWeights(weight) && InGrid(lines, columns, start)
    ensures IsShortestGridPath(lines, columns, weight, start, start, [start])
  {
    forall other | IsGridPathFrom(lines, columns, weight, start, start, other)
      ensures GridCost(lines, columns, weight, [start]) <= GridCost(lines, columns, weight, other)
    {
      GridCostNonNegative(lines, columns, weight, other);
    }
  }

  /** Seeds the start cell: its own parent, at distance 0, the only entry of
      queue 0. */
  method SeedStart(distance: array<Distance>, levels: array<seq<int>>, used: array<bool>, parent: array<int>,
                   startIndex: int)
    requires distance.Length == parent.Length == used.Length && levels.Length == BUCKETS
    requires 0 <= startIndex < distance.Length
    requires forall v :: 0 <= v < distance.Length ==> distance[v] == Infinity && parent[v] == NULL_PARENT && !used[v]
    requires forall b :: 0 <= b < BUCKETS ==> levels[b] == []
    modifies distance, levels, parent
    ensures Seeded(startIndex, distance[..], parent[..], used[..], levels[..])
  {
    parent[startIndex] := startIndex;
    distance[startIndex] := Finite(0);
    levels[0] := levels[0] + [startIndex];
  }

  /** The whole query: answers the trivial query at once; otherwise allocates
      the engine's vectors (every cell unreached, unused and without a parent,
      every neighbour list and every queue empty), builds the graph, seeds the
      start cell, runs the engine and reads the answer back from the finish. */
  method FindPath(lines: int, columns: int, weight: seq<int>,
                  startLine: int, startColumn: int, finishLine: int, finishColumn: int)
    returns (found: bool, answer: seq<Cell>)
    requires lines >= 0 && columns > 0 && |weight| == GridSize(lines, columns) && ValidWeights(weight)
    requires InGrid(lines, columns, Cell(startLine, startColumn)) && InGrid(lines, columns, Cell(finishLine, finishColumn))
    ensures IsForceAnswer(startLine, startColumn, finishLine, finishColumn) ==>
      found && answer == [Cell(startLine, startColumn)]
    ensures found <==> exists cells :: IsGridPathFrom(lines, columns, weight, Cell(startLine, startColumn),
                                                      Cell(finishLine, finishColumn), cells)
    ensures found ==> IsShortestGridPath(lines, columns, weight, Cell(startLine, startColumn),
                                         Cell(finishLine, finishColumn), Reverse(answer))
    ensures !found ==> answer == [Cell(finishLine, finishColumn)]
  {
    var start, finish := Cell(startLine, startColumn), Cell(finishLine, finishColumn);
    if IsForceAnswer(startLine, startColumn, finishLine, finishColumn) {
      StartAloneIsShortest(lines, columns, weight, start);
      assert IsGridPathFrom(lines, columns, weight, start, finish, [start]);
      return true, [start];
    }

    RowOffsetIsProduct(columns, lines);
    var levels := new seq<int>[BUCKETS](_ => []);
    var parent := new int[lines * columns](_ => NULL_PARENT);
    var distance := new Distance[lines * columns](_ => Infinity);
    var used := new bool[lines * columns](_ => false);
    var graph := new seq<int>[lines * columns](_ => []);

    BuildGraph(lines, columns, weight, graph);
    AdjacencyValid(lines, columns, weight);

    IndexInRange(lines, columns, start);
    var startIndex := Index(columns, start);  // startLine * columns + startColumn
    SeedStart(distance, levels, used, parent, startIndex);

    Bfs(graph[..], distance, levels, used, weight, parent, startIndex);

    ghost var reached, tree, expanded := distance[..], parent[..], used[..];
    TreeRanked(graph[..], weight, lines, columns, start, reached, tree, expanded);
    found, answer := BuildReversedAnswer(columns, startLine, startColumn, finishLine, finishColumn, parent[..],
                                         lines, Ranks(reached));
    if found {
      FoundAnswer(lines, columns, weight, start, finish, reached, tree, expanded, answer);
    } else {
      MissingAnswer(lines, columns, weight, start, finish, reached, tree, expanded, answer);
    }
  }

  /** The number of queues `main` allocates for the ring (source/main.cpp line
      106): MAX_EDGE_WEIGHT, one fewer than the BUCKETS residues the engine
      indexes with. */
  const ALLOCATED_QUEUES: nat := MAX_EDGE_WEIGHT

  /** A push under `distance`, indexed as the engine indexes the ring, lands
      inside a ring of `queues` queues. */
  predicate PushFits(queues: nat, distance: nat) {
    distance % BUCKETS < queues
  }

  /** On the 1-by-2 grid of weights 1 and 9, seeded from its first cell, the
      engine's first relaxation, from that cell to its only neighbour, improves the
      neighbour to distance 9, which is queued under residue 9: one past the last
      queue `main` allocates. */
  lemma AllocatedRingOverflows(lines: int, columns: int, weight: seq<int>, distance: seq<Distance>,
                               parent: seq<int>, used: seq<bool>, levels: seq<seq<int>>)
    requires lines == 1 && columns == 2 && weight == [1, 9]
    requires Seeded(0, distance, parent, used, levels) && |distance| == |weight|
    ensures |weight| == GridSize(lines, columns) && ValidWeights(weight)
    ensures Adjacency(lines, columns, weight)[0] == [1]
    ensures var child := Adjacency(lines, columns, weight)[0][0];
            && distance[0].Finite? && Below(distance[0].value + weight[child], distance[child])
            && !PushFits(ALLOCATED_QUEUES, distance[0].value + weight[child])
  {
    RowOffsetIsProduct(columns, lines);
    assert Index(columns, Cell(0, 0)) == 0;
    CellAtIndex(lines, columns, Cell(0, 0));
    assert Neighbours(lines, columns, weight, 0, 0) == [1];
  }
}
