/** Reading the answer off the parent pointers: from the finish cell, follow the
    parents back to the start. */
module Reconstruct {
  import opened Grid

  /** Following a parent pointer strictly lowers `rank`: the parent links, away
      from the start cell, never run in a cycle. Every pointer is NULL (-1) or a
      flattened index of the grid. */
  predicate ParentsRanked(lines: int, columns: int, start: Cell, parent: seq<int>, rank: seq<nat>)
    requires columns > 0
  {
    && |parent| == |rank| == GridSize(lines, columns)
    && forall v :: 0 <= v < |parent| && v != Index(columns, start) && parent[v] != -1 ==>
         0 <= parent[v] < |parent| && rank[parent[v]] < rank[v]
  }

  /** `cells` is a stretch of the parent chain: in-grid cells, each one before the
      last other than the start, with a parent pointer, and followed by the cell
      that pointer names. */
  predicate Chain(lines: int, columns: int, start: Cell, parent: seq<int>, cells: seq<Cell>)
    requires columns > 0 && |parent| == GridSize(lines, columns)
  {
    && (forall k :: 0 <= k < |cells| ==> InGrid(lines, columns, cells[k]))
    && forall k :: 0 <= k < |cells| - 1 ==>
         && cells[k] != start
         && (IndexInRange(lines, columns, cells[k]); parent[Index(columns, cells[k])] != -1)
         && cells[k + 1] == CellAt(columns, parent[Index(columns, cells[k])])
  }

  /** One step along the parent chain from an in-grid cell other than the start
      lands on an in-grid cell of lower rank. */
  lemma ParentStep(lines: int, columns: int, start: Cell, parent: seq<int>, rank: seq<nat>, c: Cell)
    requires lines >= 0 && columns > 0 && InGrid(lines, columns, start) && InGrid(lines, columns, c) && c != start
    requires ParentsRanked(lines, columns, start, parent, rank)
    requires (IndexInRange(lines, columns, c); parent[Index(columns, c)] != -1)
    ensures var index := parent[Index(columns, c)];
      && 0 <= index < |parent|
      && InGrid(lines, columns, CellAt(columns, index)) && Index(columns, CellAt(columns, index)) == index
      && rank[index] < rank[Index(columns, c)]
  {
    IndexInjective(lines, columns, c, start);
    IndexInRange(lines, columns, c);
    IndexInRange(lines, columns, start);
    IndexCellAt(lines, columns, parent[Index(columns, c)]);
  }

  /** Walks from the finish cell back along the parent pointers, appending each
      cell visited, until it reaches the start (answer found, the start appended
      too) or a cell without a parent (no answer). The answer lists the path
      from the finish back to the start. */
  method BuildReversedAnswer(columns: int, startLine: int, startColumn: int, finishLine: int, finishColumn: int,
                             parent: seq<int>, ghost lines: int, ghost rank: seq<nat>)
    returns (found: bool, answer: seq<Cell>)
    requires lines >= 0 && columns > 0
    requires InGrid(lines, columns, Cell(startLine, startColumn)) && InGrid(lines, columns, Cell(finishLine, finishColumn))
    requires ParentsRanked(lines, columns, Cell(startLine, startColumn), parent, rank)
    ensures |answer| >= 1 && answer[0] == Cell(finishLine, finishColumn)
    ensures Chain(lines, columns, Cell(startLine, startColumn), parent, answer)
    ensures found <==> answer[|answer| - 1] == Cell(startLine, startColumn)
    ensures !found ==>
      (IndexInRange(lines, columns, answer[|answer| - 1]); parent[Index(columns, answer[|answer| - 1])] == -1)
  {
    var start := Cell(startLine, startColumn);
    var line, column := finishLine, finishColumn;
    IndexInRange(lines, columns, Cell(line, column));
    answer := [];
    while column != startColumn || line != startLine
      invariant InGrid(lines, columns, Cell(line, column)) && 0 <= Index(columns, Cell(line, column)) < |parent|
      invariant (answer + [Cell(line, column)])[0] == Cell(finishLine, finishColumn)
      invariant Chain(lines, columns, start, parent, answer + [Cell(line, column)])
      decreases rank[Index(columns, Cell(line, column))]
    {
      var here := Cell(line, column);
      answer := answer + [here];
      var index := parent[Index(columns, here)];  // line * columns + column
      if index == -1 {
        return false, answer;
      }
      ParentStep(lines, columns, start, parent, rank, here);
      line, column := index / columns, index % columns;
      assert answer + [Cell(line, column)] == (answer[..|answer| - 1] + [here]) + [CellAt(columns, index)];
    }
    answer := answer + [Cell(line, column)];
    found := true;
  }
}
