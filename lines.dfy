/**
 * The four lines a win scan walks through a placed cell, in the order the
 * scan loops visit them, and the reference meaning of "four in a row".
 */
module Lines {
  import opened Grid

  function Min(a: int, b: int): int {
    if a <= b then a else b
  }

  /** Every cell of the sequence lies on the board. */
  predicate OnBoard(cells: seq<Cell>) {
    forall k :: 0 <= k < |cells| ==> InBounds(cells[k].0, cells[k].1)
  }

  /** checkHorizontal walks row `row` from column 0 to the last column. */
  function HorizontalLine(row: int): (line: seq<Cell>)
    requires 0 <= row < Rows
    ensures |line| == Columns && OnBoard(line)
    ensures forall k :: 0 <= k < |line| ==> line[k] == (k, row)
  {
    seq(Columns, (k: int) => (k, row))
  }

  /** checkVertical walks column `column` from row 0 to the top row. */
  function VerticalLine(column: int): (line: seq<Cell>)
    requires 0 <= column < Columns
    ensures |line| == Rows && OnBoard(line)
    ensures forall k :: 0 <= k < |line| ==> line[k] == (column, k)
  {
    seq(Rows, (k: int) => (column, k))
  }

  /** Where checkUpwardDiagonal starts: the lower-left end of the "/" diagonal
      through (column, row), on the left edge or the bottom edge. */
  function UpwardStart(column: int, row: int): (start: Cell)
    requires InBounds(column, row)
    ensures InBounds(start.0, start.1)
    ensures start.0 - start.1 == column - row
    ensures start.0 == 0 || start.1 == 0
  {
    if row > column then (0, row - column) else (column - row, 0)
  }

  /** The cells checkUpwardDiagonal visits: one step right and one up each time,
      while both iterators are below their bounds. */
  function UpwardLine(column: int, row: int): (line: seq<Cell>)
    requires InBounds(column, row)
    ensures OnBoard(line)
  {
    var start := UpwardStart(column, row);
    seq(Min(Columns - start.0, Rows - start.1), (k: int) => (start.0 + k, start.1 + k))
  }

  /** Where checkDownwardDiagonal starts: the upper-left end of the "\" diagonal
      through (column, row), on the left edge or the top edge. */
  function DownwardStart(column: int, row: int): (start: Cell)
    requires InBounds(column, row)
    ensures InBounds(start.0, start.1)
    ensures start.0 + start.1 == column + row
    ensures start.0 == 0 || start.1 == Rows - 1
  {
    if column > Rows - 1 - row then (column - (Rows - 1 - row), Rows - 1) else (0, row + column)
  }

  /** The cells checkDownwardDiagonal visits: one step right and one down each time,
      while the column is below its bound and the row is not negative. */
  function DownwardLine(column: int, row: int): (line: seq<Cell>)
    requires InBounds(column, row)
    ensures OnBoard(line)
  {
    var start := DownwardStart(column, row);
    seq(Min(Columns - start.0, start.1 + 1), (k: int) => (start.0 + k, start.1 - k))
  }

  /** Step k of the upward scan is on the board exactly when k indexes the line, and then
      it visits the line's k-th cell. */
  lemma UpwardLineIndex(column: int, row: int, k: int)
    requires InBounds(column, row) && 0 <= k
    ensures var start := UpwardStart(column, row);
      k < |UpwardLine(column, row)| <==> InBounds(start.0 + k, start.1 + k)
    ensures var start := UpwardStart(column, row);
      k < |UpwardLine(column, row)| ==> UpwardLine(column, row)[k] == (start.0 + k, start.1 + k)
  {
  }

  /** Step k of the downward scan is on the board exactly when k indexes the line, and
      then it visits the line's k-th cell. */
  lemma DownwardLineIndex(column: int, row: int, k: int)
    requires InBounds(column, row) && 0 <= k
    ensures var start := DownwardStart(column, row);
      k < |DownwardLine(column, row)| <==> InBounds(start.0 + k, start.1 - k)
    ensures var start := DownwardStart(column, row);
      k < |DownwardLine(column, row)| ==> DownwardLine(column, row)[k] == (start.0 + k, start.1 - k)
  {
  }

  /** The upward scan covers the whole "/" diagonal through (column, row) inside the board. */
  lemma UpwardLineCoversDiagonal(column: int, row: int, x: int, y: int)
    requires InBounds(column, row)
    ensures InBounds(x, y) && x - y == column - row <==> (x, y) in UpwardLine(column, row)
  {
    var start := UpwardStart(column, row);
    var line := UpwardLine(column, row);
    forall k | 0 <= k < |line|
      ensures line[k] == (start.0 + k, start.1 + k)
    {
      UpwardLineIndex(column, row, k);
    }
    if InBounds(x, y) && x - y == column - row {
      UpwardLineIndex(column, row, x - start.0);
      assert line[x - start.0] == (x, y);
    }
  }

  /** The downward scan covers the whole "\" diagonal through (column, row) inside the board. */
  lemma DownwardLineCoversDiagonal(column: int, row: int, x: int, y: int)
    requires InBounds(column, row)
    ensures InBounds(x, y) && x + y == column + row <==> (x, y) in DownwardLine(column, row)
  {
    var start := DownwardStart(column, row);
    var line := DownwardLine(column, row);
    forall k | 0 <= k < |line|
      ensures line[k] == (start.0 + k, start.1 - k)
    {
      DownwardLineIndex(column, row, k);
    }
    if InBounds(x, y) && x + y == column + row {
      DownwardLineIndex(column, row, x - start.0);
      assert line[x - start.0] == (x, y);
    }
  }

  /** The DisksToWin consecutive cells of `cells` starting at index k all hold `colour`. */
  ghost predicate RunAt(b: Board, colour: Disk, cells: seq<Cell>, k: int)
    requires WellFormed(b) && OnBoard(cells)
  {
    0 <= k && k + DisksToWin <= |cells| &&
    forall j :: k <= j < k + DisksToWin ==> At(b, cells[j]) == colour
  }

  /** Such a run lies within the first n cells. */
  ghost predicate RunWithin(b: Board, colour: Disk, cells: seq<Cell>, n: int)
    requires WellFormed(b) && OnBoard(cells)
  {
    exists k :: 0 <= k && k + DisksToWin <= n && RunAt(b, colour, cells, k)
  }

  /** The line holds DisksToWin consecutive cells of `colour`. */
  ghost predicate HasRun(b: Board, colour: Disk, cells: seq<Cell>)
    requires WellFormed(b) && OnBoard(cells)
  {
    RunWithin(b, colour, cells, |cells|)
  }

  /** The run of `colour` that ends just before index n is exactly `count` cells long. */
  ghost predicate TrailingRun(b: Board, colour: Disk, cells: seq<Cell>, n: int, count: int)
    requires WellFormed(b) && OnBoard(cells) && 0 <= n <= |cells|
  {
    0 <= count <= n &&
    (forall j :: n - count <= j < n ==> At(b, cells[j]) == colour) &&
    (count < n ==> At(b, cells[n - count - 1]) != colour)
  }

  /** One of the four lines through (column, row) holds four consecutive `colour` cells. */
  ghost predicate FourInARow(b: Board, colour: Disk, column: int, row: int)
    requires WellFormed(b) && InBounds(column, row)
  {
    HasRun(b, colour, HorizontalLine(row)) ||
    HasRun(b, colour, VerticalLine(column)) ||
    HasRun(b, colour, UpwardLine(column, row)) ||
    HasRun(b, colour, DownwardLine(column, row))
  }

  /** A trailing run reaches DisksToWin exactly when the last DisksToWin cells form a run. */
  lemma TrailingRunReachesFour(b: Board, colour: Disk, cells: seq<Cell>, n: int, count: int)
    requires WellFormed(b) && OnBoard(cells) && DisksToWin <= n <= |cells|
    requires TrailingRun(b, colour, cells, n, count)
    ensures RunAt(b, colour, cells, n - DisksToWin) <==> count >= DisksToWin
  {
    if count < DisksToWin {
      assert At(b, cells[n - count - 1]) != colour;
    }
  }

  /** Given no run within the first n cells, the runs within the first n + 1 cells are
      those ending at index n, which the trailing run's length decides. */
  lemma RunWithinNext(b: Board, colour: Disk, cells: seq<Cell>, n: int, count: int)
    requires WellFormed(b) && OnBoard(cells) && 0 <= n < |cells|
    requires TrailingRun(b, colour, cells, n + 1, count)
    requires !RunWithin(b, colour, cells, n)
    ensures RunWithin(b, colour, cells, n + 1) <==> count >= DisksToWin
  {
    if n + 1 >= DisksToWin {
      TrailingRunReachesFour(b, colour, cells, n + 1, count);
    }
  }
}
