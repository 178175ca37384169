/** The grid: cells addressed by (line, column), their row-major flattening, the
    cell weights and the grid-adjacency relation. */
module Grid {

  /** Largest weight a cell may carry; 0 marks an impassable cell. */
  const MAX_EDGE_WEIGHT: nat := 9

  /** A cell of the grid, addressed by its line (row) and column. */
  datatype Cell = Cell(line: int, column: int)

  predicate InGrid(lines: int, columns: int, c: Cell) {
    0 <= c.line < lines && 0 <= c.column < columns
  }

  /** `line * columns`, the flattened index of the first cell of `line`, written as
      repeated addition (see RowOffsetIsProduct) so that proofs about neighbouring
      lines stay linear. */
  function RowOffset(columns: int, line: int): int
    decreases if line < 0 then -line else line
  {
    if line == 0 then 0
    else if line > 0 then RowOffset(columns, line - 1) + columns
    else RowOffset(columns, line + 1) - columns
  }

  /** The number of cells, `lines * columns`. */
  function GridSize(lines: int, columns: int): int {
    RowOffset(columns, lines)
  }

  /** Row-major flattening `line * columns + column`. */
  function Index(columns: int, c: Cell): int {
    RowOffset(columns, c.line) + c.column
  }

  /** The inverse of `Index`: `(index / columns, index % columns)`. */
  function CellAt(columns: int, index: int): Cell
    requires columns > 0
  {
    Cell(index / columns, index % columns)
  }

  /** Every weight lies in [0, MAX_EDGE_WEIGHT]. */
  predicate ValidWeights(weight: seq<int>) {
    forall i :: 0 <= i < |weight| ==> 0 <= weight[i] <= MAX_EDGE_WEIGHT
  }

  /** Two cells are grid neighbours: same column and adjacent lines, or same line
      and adjacent columns. */
  predicate Adjacent(a: Cell, b: Cell) {
    || (a.column == b.column && (a.line - b.line == 1 || b.line - a.line == 1))
    || (a.line == b.line && (a.column - b.column == 1 || b.column - a.column == 1))
  }

  /** The trivial query: start and finish are the same cell. */
  function IsForceAnswer(startLine: int, startColumn: int, finishLine: int, finishColumn: int): (r: bool)
    ensures r <==> Cell(startLine, startColumn) == Cell(finishLine, finishColumn)
  {
    startLine == finishLine && startColumn == finishColumn
  }

  /** RowOffset is multiplication. */
  lemma {:induction false} RowOffsetIsProduct(columns: int, line: int)
    ensures RowOffset(columns, line) == line * columns
    ensures GridSize(line, columns) == line * columns
    decreases if line < 0 then -line else line
  {
    if line > 0 {
      RowOffsetIsProduct(columns, line - 1);
    } else if line < 0 {
      RowOffsetIsProduct(columns, line + 1);
    }
  }

  /** With nonnegative columns, each later line starts `columns` cells further on. */
  lemma {:induction false} RowOffsetMonotone(columns: int, a: int, b: int)
    requires columns >= 0 && 0 <= a <= b
    ensures RowOffset(columns, a) <= RowOffset(columns, b)
    ensures a < b ==> RowOffset(columns, a) + columns <= RowOffset(columns, b)
    decreases b - a
  {
    if a < b {
      RowOffsetMonotone(columns, a, b - 1);
    }
  }

  lemma DivModUnique(x: int, columns: int, q: int, r: int)
    requires columns > 0 && 0 <= r < columns && x == q * columns + r
    ensures x / columns == q && x % columns == r
  {
    var q', r' := x / columns, x % columns;
    assert (q - q') * columns == r' - r;
    if q - q' >= 1 {
      MulAtLeast(q - q', columns);
      assert false;
    } else if q' - q >= 1 {
      MulAtLeast(q' - q, columns);
      assert false;
    }
  }

  lemma MulAtLeast(k: int, columns: int)
    requires k >= 1 && columns > 0
    ensures k * columns >= columns
  {
  }

  /** Flattening an in-grid cell lands in [0, lines * columns). */
  lemma IndexInRange(lines: int, columns: int, c: Cell)
    requires InGrid(lines, columns, c)
    ensures 0 <= RowOffset(columns, c.line) && 0 <= Index(columns, c) < GridSize(lines, columns)
  {
    RowOffsetMonotone(columns, 0, c.line);
    RowOffsetMonotone(columns, c.line, lines);
  }

  /** `CellAt` undoes `Index` on in-grid cells. */
  lemma CellAtIndex(lines: int, columns: int, c: Cell)
    requires InGrid(lines, columns, c)
    ensures CellAt(columns, Index(columns, c)) == c
    ensures 0 <= Index(columns, c) < GridSize(lines, columns)
  {
    RowOffsetIsProduct(columns, c.line);
    DivModUnique(Index(columns, c), columns, c.line, c.column);
    IndexInRange(lines, columns, c);
  }

  /** `Index` undoes `CellAt` on the indices of a `lines` by `columns` grid. */
  lemma IndexCellAt(lines: int, columns: int, i: int)
    requires lines >= 0 && columns > 0 && 0 <= i < GridSize(lines, columns)
    ensures InGrid(lines, columns, CellAt(columns, i)) && Index(columns, CellAt(columns, i)) == i
  {
    var c := CellAt(columns, i);
    assert i == c.line * columns + c.column;
    RowOffsetIsProduct(columns, c.line);
    if c.line >= lines {
      RowOffsetMonotone(columns, lines, c.line);
      assert false;
    }
  }

  /** `Index` is the row-major flattening `columns * line + column`, for any line. */
  lemma IndexIsFlattening(columns: int, c: Cell)
    ensures Index(columns, c) == columns * c.line + c.column
  {
    RowOffsetIsProduct(columns, c.line);
  }

  /** For a non-negative index, `CellAt` is its quotient and remainder by `columns`:
      the column lies in `[0, columns)`, the line is non-negative, and flattening
      them gives the index back. */
  lemma CellAtIsDivMod(columns: int, index: int)
    requires columns > 0 && index >= 0
    ensures 0 <= CellAt(columns, index).column < columns && CellAt(columns, index).line >= 0
    ensures Index(columns, CellAt(columns, index)) == index
  {
    IndexIsFlattening(columns, CellAt(columns, index));
  }

  /** Distinct in-grid cells have distinct indices. */
  lemma IndexInjective(lines: int, columns: int, a: Cell, b: Cell)
    requires InGrid(lines, columns, a) && InGrid(lines, columns, b)
    ensures Index(columns, a) == Index(columns, b) <==> a == b
  {
    CellAtIndex(lines, columns, a);
    CellAtIndex(lines, columns, b);
  }

  /** On in-grid coordinates, the coordinate comparison of the trivial query agrees
      with comparing the flattened indices. */
  lemma ForceAnswerIffSameIndex(lines: int, columns: int, start: Cell, finish: Cell)
    requires InGrid(lines, columns, start) && InGrid(lines, columns, finish)
    ensures IsForceAnswer(start.line, start.column, finish.line, finish.column)
            <==> Index(columns, start) == Index(columns, finish)
  {
    IndexInjective(lines, columns, start, finish);
  }
}
