/** The graph builder: the adjacency list of passable grid neighbours. */
module GraphBuilder {
  import opened Grid

  /** Where the four candidate neighbours of the in-grid cell (i, j) sit in the
      flattened grid. */
  lemma NeighbourIndices(lines: int, columns: int, i: int, j: int)
    requires InGrid(lines, columns, Cell(i, j))
    ensures var u := Index(columns, Cell(i, j));
      && 0 <= u < GridSize(lines, columns)
      && (i > 0 ==> u - columns == Index(columns, Cell(i - 1, j)) && 0 <= u - columns)
      && (i < lines - 1 ==> u + columns == Index(columns, Cell(i + 1, j)) && u + columns < GridSize(lines, columns))
      && (j > 0 ==> 0 <= u - 1)
      && (j < columns - 1 ==> u + 1 < GridSize(lines, columns))
  {
    IndexInRange(lines, columns, Cell(i, j));
    if i > 0 { IndexInRange(lines, columns, Cell(i - 1, j)); }
    if i < lines - 1 { IndexInRange(lines, columns, Cell(i + 1, j)); }
  }

  /** `list` with `x` appended when `condition` holds. */
  function PushIf(list: seq<int>, condition: bool, x: int): (r: seq<int>)
    ensures forall y :: y in r <==> y in list || (condition && y == x)
  {
    if condition then list + [x] else list
  }

  /** The candidate neighbour with flattened index v is present (`present`) and is
      passable. */
  predicate Passable(weight: seq<int>, present: bool, v: int) {
    present && 0 <= v < |weight| && weight[v] != 0
  }

  /** The neighbour list of the cell (i, j) whose flattened index is u: the cell
      above, below, to the left and to the right, appended in that order, each
      only when it exists and is passable; nothing at all when the cell itself is
      impassable. */
  function NeighboursAt(lines: int, columns: int, weight: seq<int>, i: int, j: int, u: int): (r: seq<int>)
    requires 0 <= u < |weight|
    ensures |r| <= 4
    ensures forall v :: v in r ==> 0 <= v < |weight| && weight[v] != 0
  {
    if weight[u] == 0 then []
    else
      var up := PushIf([], Passable(weight, i > 0, u - columns), u - columns);
      var down := PushIf(up, Passable(weight, i < lines - 1, u + columns), u + columns);
      var left := PushIf(down, Passable(weight, j > 0, u - 1), u - 1);
      PushIf(left, Passable(weight, j < columns - 1, u + 1), u + 1)
  }

  /** The neighbour list of the in-grid cell (i, j). */
  function Neighbours(lines: int, columns: int, weight: seq<int>, i: int, j: int): seq<int>
    requires |weight| == GridSize(lines, columns) && InGrid(lines, columns, Cell(i, j))
  {
    IndexInRange(lines, columns, Cell(i, j));
    NeighboursAt(lines, columns, weight, i, j, Index(columns, Cell(i, j)))
  }

  /** The neighbour list of the cell with flattened index u. */
  function NeighboursOf(lines: int, columns: int, weight: seq<int>, u: int): seq<int>
    requires lines >= 0 && columns > 0 && |weight| == GridSize(lines, columns) && 0 <= u < |weight|
  {
    IndexCellAt(lines, columns, u);
    var c := CellAt(columns, u);
    Neighbours(lines, columns, weight, c.line, c.column)
  }

  /** The whole adjacency list, one neighbour list per flattened index. */
  function Adjacency(lines: int, columns: int, weight: seq<int>): seq<seq<int>>
    requires lines >= 0 && columns > 0 && |weight| == GridSize(lines, columns)
  {
    seq(|weight|, u requires 0 <= u < |weight| => NeighboursOf(lines, columns, weight, u))
  }

  /** Fills the (initially empty) neighbour lists by scanning the grid line by
      line, appending the passable neighbours of each passable cell. */
  method BuildGraph(lines: int, columns: int, weight: seq<int>, graph: array<seq<int>>)
    requires lines >= 0 && columns > 0 && |weight| == GridSize(lines, columns) == graph.Length
    requires forall u :: 0 <= u < graph.Length ==> graph[u] == []
    modifies graph
    ensures graph[..] == Adjacency(lines, columns, weight)
  {
    var i := 0;
    while i < lines
      invariant 0 <= i <= lines
      invariant forall u :: 0 <= u < graph.Length ==>
        graph[u] == if u < RowOffset(columns, i) then NeighboursOf(lines, columns, weight, u) else []
    {
      var j := 0;
      while j < columns
        invariant 0 <= j <= columns
        invariant forall u :: 0 <= u < graph.Length ==>
          graph[u] == if u < RowOffset(columns, i) + j then NeighboursOf(lines, columns, weight, u) else []
      {
        CellAtIndex(lines, columns, Cell(i, j));
        AddNeighbours(lines, columns, weight, graph, i, j);
        j := j + 1;
      }
      i := i + 1;
    }
  }

  /** One step of the scan: appends to the empty list of the cell (i, j) its
      passable neighbours above, below, left and right, unless (i, j) is
      impassable. */
  method AddNeighbours(lines: int, columns: int, weight: seq<int>, graph: array<seq<int>>, i: int, j: int)
    requires lines >= 0 && columns > 0 && |weight| == GridSize(lines, columns) == graph.Length
    requires InGrid(lines, columns, Cell(i, j))
    requires 0 <= Index(columns, Cell(i, j)) < graph.Length && graph[Index(columns, Cell(i, j))] == []
    modifies graph
    ensures graph[..] == old(graph[..])[Index(columns, Cell(i, j)) := Neighbours(lines, columns, weight, i, j)]
  {
    var currentIndex := Index(columns, Cell(i, j));  // columns * i + j, see RowOffsetIsProduct
    NeighbourIndices(lines, columns, i, j);
    var list := CollectNeighbours(lines, columns, weight, i, j, currentIndex);
    assert graph[currentIndex] + list == list;
    graph[currentIndex] := graph[currentIndex] + list;
  }

  /** The pushes of one scan step on the cell (i, j) with flattened index u, in
      order; each neighbour offset it reads lies inside the grid. */
  method CollectNeighbours(lines: int, columns: int, weight: seq<int>, i: int, j: int, u: int) returns (list: seq<int>)
    requires columns > 0 && 0 <= u < |weight|
    requires (i > 0 ==> 0 <= u - columns) && (i < lines - 1 ==> u + columns < |weight|)
    requires (j > 0 ==> 0 <= u - 1) && (j < columns - 1 ==> u + 1 < |weight|)
    ensures list == NeighboursAt(lines, columns, weight, i, j, u)
  {
    list := [];
    if weight[u] == 0 {
      return;
    }
    if i > 0 && weight[u - columns] != 0 {
      list := list + [u - columns];
    }
    if i < lines - 1 && weight[u + columns] != 0 {
      list := list + [u + columns];
    }
    if j > 0 && weight[u - 1] != 0 {
      list := list + [u - 1];
    }
    if j < columns - 1 && weight[u + 1] != 0 {
      list := list + [u + 1];
    }
  }

  /** Membership in a neighbour list, in terms of the four flattened offsets. */
  lemma InNeighbours(lines: int, columns: int, weight: seq<int>, i: int, j: int, v: int)
    requires |weight| == GridSize(lines, columns) && InGrid(lines, columns, Cell(i, j))
    ensures var u := Index(columns, Cell(i, j));
      v in Neighbours(lines, columns, weight, i, j) <==>
        && 0 <= u < |weight| && 0 <= v < |weight| && weight[u] != 0 && weight[v] != 0
        && ((i > 0 && v == u - columns) || (i < lines - 1 && v == u + columns)
            || (j > 0 && v == u - 1) || (j < columns - 1 && v == u + 1))
  {
    IndexInRange(lines, columns, Cell(i, j));
    InNeighboursAt(lines, columns, weight, i, j, Index(columns, Cell(i, j)), v);
  }

  /** Membership in the neighbour list of the cell with flattened index u. */
  lemma InNeighboursAt(lines: int, columns: int, weight: seq<int>, i: int, j: int, u: int, v: int)
    requires 0 <= u < |weight|
    ensures v in NeighboursAt(lines, columns, weight, i, j, u) <==>
        && 0 <= v < |weight| && weight[u] != 0 && weight[v] != 0
        && ((i > 0 && v == u - columns) || (i < lines - 1 && v == u + columns)
            || (j > 0 && v == u - 1) || (j < columns - 1 && v == u + 1))
  {
  }

  /** Two in-grid cells are grid neighbours exactly when the second one's
      flattened index is one of the four offsets of the first one's. */
  lemma AdjacentCells(lines: int, columns: int, a: Cell, b: Cell)
    requires InGrid(lines, columns, a) && InGrid(lines, columns, b)
    ensures var u, v := Index(columns, a), Index(columns, b);
      Adjacent(a, b) <==>
        || (a.line > 0 && v == u - columns) || (a.line < lines - 1 && v == u + columns)
        || (a.column > 0 && v == u - 1) || (a.column < columns - 1 && v == u + 1)
  {
    var i, j := a.line, a.column;
    NeighbourIndices(lines, columns, i, j);
    if i > 0 { IndexInjective(lines, columns, b, Cell(i - 1, j)); }
    if i < lines - 1 { IndexInjective(lines, columns, b, Cell(i + 1, j)); }
    if j > 0 { IndexInjective(lines, columns, b, Cell(i, j - 1)); }
    if j < columns - 1 { IndexInjective(lines, columns, b, Cell(i, j + 1)); }
  }

  /** Grid neighbours of an in-grid cell, in terms of the four flattened offsets. */
  lemma AdjacentOffsets(lines: int, columns: int, u: int, v: int)
    requires lines >= 0 && columns > 0 && 0 <= u < GridSize(lines, columns) && 0 <= v < GridSize(lines, columns)
    ensures var a := CellAt(columns, u);
      Adjacent(a, CellAt(columns, v)) <==>
        || (a.line > 0 && v == u - columns) || (a.line < lines - 1 && v == u + columns)
        || (a.column > 0 && v == u - 1) || (a.column < columns - 1 && v == u + 1)
  {
    IndexCellAt(lines, columns, u);
    IndexCellAt(lines, columns, v);
    AdjacentCells(lines, columns, CellAt(columns, u), CellAt(columns, v));
  }

  /** A neighbour list names exactly the passable grid neighbours of a passable
      cell. */
  lemma NeighbourIff(lines: int, columns: int, weight: seq<int>, u: int, v: int)
    requires lines >= 0 && columns > 0 && |weight| == GridSize(lines, columns)
    requires 0 <= u < |weight| && 0 <= v < |weight|
    ensures v in Adjacency(lines, columns, weight)[u] <==>
      weight[u] != 0 && weight[v] != 0 && Adjacent(CellAt(columns, u), CellAt(columns, v))
  {
    IndexCellAt(lines, columns, u);
    var a := CellAt(columns, u);
    assert Adjacency(lines, columns, weight)[u] == Neighbours(lines, columns, weight, a.line, a.column);
    InNeighbours(lines, columns, weight, a.line, a.column, v);
    AdjacentOffsets(lines, columns, u, v);
  }

  /** The adjacency is symmetric: v is listed for u exactly when u is listed for v. */
  lemma AdjacencySymmetric(lines: int, columns: int, weight: seq<int>, u: int, v: int)
    requires lines >= 0 && columns > 0 && |weight| == GridSize(lines, columns)
    requires 0 <= u < |weight| && 0 <= v < |weight|
    ensures v in Adjacency(lines, columns, weight)[u] <==> u in Adjacency(lines, columns, weight)[v]
  {
    NeighbourIff(lines, columns, weight, u, v);
    NeighbourIff(lines, columns, weight, v, u);
  }
}
