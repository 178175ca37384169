/** Paths and their costs, on the flattened graph and on the grid itself. A path
    is charged the weight of every cell it enters, so the start cell is free. */
module Paths {
  import opened Grid
  import opened GraphBuilder

  /** A distance from the start: unreached (`LLONG_MAX` in the program), or a
      finite cost. */
  datatype Distance = Infinity | Finite(value: nat)

  /** `p` is a nonempty walk in `graph`: all its vertices are in range and each
      next vertex is listed as a neighbour of the previous one. */
  predicate IsPath(graph: seq<seq<int>>, p: seq<int>) {
    && |p| >= 1
    && (forall k :: 0 <= k < |p| ==> 0 <= p[k] < |graph|)
    && (forall k :: 0 <= k < |p| - 1 ==> p[k + 1] in graph[p[k]])
  }

  predicate IsPathFrom(graph: seq<seq<int>>, s: int, v: int, p: seq<int>) {
    IsPath(graph, p) && p[0] == s && p[|p| - 1] == v
  }

  /** The summed weights of the vertices `p` enters (all but the first). */
  function PathCost(weight: seq<int>, p: seq<int>): int
    requires forall k :: 0 <= k < |p| ==> 0 <= p[k] < |weight|
  {
    if |p| <= 1 then 0 else PathCost(weight, p[..|p| - 1]) + weight[p[|p| - 1]]
  }

  /** `d` is the least cost of a path from `s` to `v`: no path is cheaper, and
      when `d` is finite some path costs exactly `d`; `d` is Infinity exactly
      when there is no path. */
  ghost predicate IsShortestDistance(graph: seq<seq<int>>, weight: seq<int>, s: int, v: int, d: Distance)
    requires |graph| == |weight|
  {
    && (forall p :: IsPathFrom(graph, s, v, p) ==> d.Finite? && d.value <= PathCost(weight, p))
    && (d.Finite? ==> exists p :: IsPathFrom(graph, s, v, p) && PathCost(weight, p) == d.value)
  }

  /** The cell `c` is in the grid and passable. */
  predicate PassableCell(lines: int, columns: int, weight: seq<int>, c: Cell)
    requires |weight| == GridSize(lines, columns)
  {
    InGrid(lines, columns, c) && (IndexInRange(lines, columns, c); weight[Index(columns, c)] != 0)
  }

  /** One step of a grid path: between passable grid neighbours. */
  predicate GridStep(lines: int, columns: int, weight: seq<int>, a: Cell, b: Cell)
    requires |weight| == GridSize(lines, columns)
  {
    PassableCell(lines, columns, weight, a) && PassableCell(lines, columns, weight, b) && Adjacent(a, b)
  }

  /** A grid path: in-grid cells, each step between passable grid neighbours. */
  predicate IsGridPath(lines: int, columns: int, weight: seq<int>, cells: seq<Cell>)
    requires |weight| == GridSize(lines, columns)
  {
    && |cells| >= 1
    && (forall k :: 0 <= k < |cells| ==> InGrid(lines, columns, cells[k]))
    && (forall k :: 0 <= k < |cells| - 1 ==> GridStep(lines, columns, weight, cells[k], cells[k + 1]))
  }

  predicate IsGridPathFrom(lines: int, columns: int, weight: seq<int>, start: Cell, finish: Cell, cells: seq<Cell>)
    requires |weight| == GridSize(lines, columns)
  {
    IsGridPath(lines, columns, weight, cells) && cells[0] == start && cells[|cells| - 1] == finish
  }

  /** The summed weights of the cells a grid path enters. */
  function GridCost(lines: int, columns: int, weight: seq<int>, cells: seq<Cell>): int
    requires |weight| == GridSize(lines, columns)
    requires forall k :: 0 <= k < |cells| ==> InGrid(lines, columns, cells[k])
  {
    if |cells| <= 1 then 0
    else
      IndexInRange(lines, columns, cells[|cells| - 1]);
      GridCost(lines, columns, weight, cells[..|cells| - 1]) + weight[Index(columns, cells[|cells| - 1])]
  }

  /** `cells` is a cheapest grid path from `start` to `finish`. */
  ghost predicate IsShortestGridPath(lines: int, columns: int, weight: seq<int>, start: Cell, finish: Cell, cells: seq<Cell>)
    requires |weight| == GridSize(lines, columns)
  {
    && IsGridPathFrom(lines, columns, weight, start, finish, cells)
    && forall other :: IsGridPathFrom(lines, columns, weight, start, finish, other) ==>
         GridCost(lines, columns, weight, cells) <= GridCost(lines, columns, weight, other)
  }

  function Reverse<T>(s: seq<T>): (r: seq<T>)
    ensures |r| == |s| && forall k :: 0 <= k < |s| ==> r[k] == s[|s| - 1 - k]
  {
    if |s| == 0 then [] else Reverse(s[1..]) + [s[0]]
  }

  /** The flattened indices of a sequence of cells. */
  function Indices(columns: int, cells: seq<Cell>): (r: seq<int>)
    ensures |r| == |cells| && forall k :: 0 <= k < |cells| ==> r[k] == Index(columns, cells[k])
  {
    seq(|cells|, k requires 0 <= k < |cells| => Index(columns, cells[k]))
  }

  /** The cells of a sequence of flattened indices. */
  function Cells(columns: int, p: seq<int>): (r: seq<Cell>)
    requires columns > 0
    ensures |r| == |p| && forall k :: 0 <= k < |p| ==> r[k] == CellAt(columns, p[k])
  {
    seq(|p|, k requires 0 <= k < |p| => CellAt(columns, p[k]))
  }

  /** Reading the flattened indices of in-grid cells back gives the cells. */
  lemma CellsOfIndices(lines: int, columns: int, cells: seq<Cell>)
    requires columns > 0 && forall k :: 0 <= k < |cells| ==> InGrid(lines, columns, cells[k])
    ensures Cells(columns, Indices(columns, cells)) == cells
  {
    forall k | 0 <= k < |cells|
      ensures CellAt(columns, Index(columns, cells[k])) == cells[k]
    {
      CellAtIndex(lines, columns, cells[k]);
    }
  }

  /** A grid step is an edge of the built graph, and conversely. */
  lemma GridStepIsEdge(lines: int, columns: int, weight: seq<int>, a: Cell, b: Cell)
    requires lines >= 0 && columns > 0 && |weight| == GridSize(lines, columns)
    requires InGrid(lines, columns, a) && InGrid(lines, columns, b)
    ensures 0 <= Index(columns, a) < |weight| && 0 <= Index(columns, b) < |weight|
    ensures GridStep(lines, columns, weight, a, b) <==>
      Index(columns, b) in Adjacency(lines, columns, weight)[Index(columns, a)]
  {
    CellAtIndex(lines, columns, a);
    CellAtIndex(lines, columns, b);
    NeighbourIff(lines, columns, weight, Index(columns, a), Index(columns, b));
  }

  /** Flattening preserves cost. */
  lemma {:induction false} IndicesCost(lines: int, columns: int, weight: seq<int>, cells: seq<Cell>)
    requires lines >= 0 && columns > 0 && |weight| == GridSize(lines, columns)
    requires forall k :: 0 <= k < |cells| ==> InGrid(lines, columns, cells[k])
    ensures forall k :: 0 <= k < |cells| ==> 0 <= Index(columns, cells[k]) < |weight|
    ensures PathCost(weight, Indices(columns, cells)) == GridCost(lines, columns, weight, cells)
    decreases |cells|
  {
    forall k | 0 <= k < |cells|
      ensures 0 <= Index(columns, cells[k]) < |weight|
    {
      IndexInRange(lines, columns, cells[k]);
    }
    if |cells| > 1 {
      var init := cells[..|cells| - 1];
      IndicesCost(lines, columns, weight, init);
      assert Indices(columns, init) == Indices(columns, cells)[..|cells| - 1];
    }
  }

  /** A grid path, flattened, is a path of the built graph of the same cost. */
  lemma GridPathIsPath(lines: int, columns: int, weight: seq<int>, cells: seq<Cell>)
    requires lines >= 0 && columns > 0 && |weight| == GridSize(lines, columns)
    requires IsGridPath(lines, columns, weight, cells)
    ensures IsPath(Adjacency(lines, columns, weight), Indices(columns, cells))
    ensures PathCost(weight, Indices(columns, cells)) == GridCost(lines, columns, weight, cells)
  {
    var p := Indices(columns, cells);
    IndicesCost(lines, columns, weight, cells);
    forall k | 0 <= k < |p| - 1
      ensures p[k + 1] in Adjacency(lines, columns, weight)[p[k]]
    {
      GridStepIsEdge(lines, columns, weight, cells[k], cells[k + 1]);
    }
  }

  /** A path of the built graph, read as cells, is a grid path of the same cost. */
  lemma PathIsGridPath(lines: int, columns: int, weight: seq<int>, p: seq<int>)
    requires lines >= 0 && columns > 0 && |weight| == GridSize(lines, columns)
    requires IsPath(Adjacency(lines, columns, weight), p)
    ensures IsGridPath(lines, columns, weight, Cells(columns, p))
    ensures Indices(columns, Cells(columns, p)) == p
    ensures GridCost(lines, columns, weight, Cells(columns, p)) == PathCost(weight, p)
  {
    var cells := Cells(columns, p);
    forall k | 0 <= k < |p|
      ensures InGrid(lines, columns, cells[k]) && Index(columns, cells[k]) == p[k]
    {
      IndexCellAt(lines, columns, p[k]);
    }
    forall k | 0 <= k < |p| - 1
      ensures GridStep(lines, columns, weight, cells[k], cells[k + 1])
    {
      GridStepIsEdge(lines, columns, weight, cells[k], cells[k + 1]);
    }
    assert Indices(columns, cells) == p;
    IndicesCost(lines, columns, weight, cells);
  }

  /** The shortest distance over the built graph bounds the cost of every grid
      path: a finish some grid path reaches has a finite distance, at most that
      path's cost. */
  lemma GridPathsBounded(lines: int, columns: int, weight: seq<int>, start: Cell, finish: Cell, d: Distance)
    requires lines >= 0 && columns > 0 && |weight| == GridSize(lines, columns)
    requires InGrid(lines, columns, start) && InGrid(lines, columns, finish)
    requires IsShortestDistance(Adjacency(lines, columns, weight), weight, Index(columns, start), Index(columns, finish), d)
    ensures forall cells :: IsGridPathFrom(lines, columns, weight, start, finish, cells) ==>
      d.Finite? && d.value <= GridCost(lines, columns, weight, cells)
  {
    forall cells | IsGridPathFrom(lines, columns, weight, start, finish, cells)
      ensures d.Finite? && d.value <= GridCost(lines, columns, weight, cells)
    {
      GridPathIsPath(lines, columns, weight, cells);
      assert IsPathFrom(Adjacency(lines, columns, weight), Index(columns, start), Index(columns, finish),
                        Indices(columns, cells));
    }
  }
}
