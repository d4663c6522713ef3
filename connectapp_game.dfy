/**
 * The older engine (package com.javidran.connectapp): the same drop and turn
 * rules as the datasource engine, with a win detector that only counts
 * consecutive disks of the mover's colour along each line.
 */
module ConnectApp {
  import opened Grid
  import opened Lines

  /** checkDisk: the counter after one more cell (the cell's disk is passed in). */
  function CheckDisk(disk: Disk, colour: Disk, connectedDisks: int): int {
    if disk == colour then connectedDisks + 1 else 0
  }

  /** The state of a counting scan after the first n cells of a line: `count` is the
      length of the mover-coloured run ending there, and no four in a row was met yet. */
  ghost predicate Counted(b: Board, colour: Disk, cells: seq<Cell>, n: int, count: int) {
    WellFormed(b) && OnBoard(cells) && 0 <= n <= |cells| &&
    TrailingRun(b, colour, cells, n, count) && !RunWithin(b, colour, cells, n)
  }

  /** One step of a counting scan: checkDisk extends the run count to the next cell, and
      the count reaches four exactly when the first four in a row ends at that cell. */
  lemma CheckDiskStep(b: Board, colour: Disk, cells: seq<Cell>, n: int, count: int)
    requires Counted(b, colour, cells, n, count) && n < |cells|
    ensures var next := CheckDisk(At(b, cells[n]), colour, count);
      (next >= DisksToWin ==> HasRun(b, colour, cells)) &&
      (next < DisksToWin ==> Counted(b, colour, cells, n + 1, next))
  {
    RunWithinNext(b, colour, cells, n, CheckDisk(At(b, cells[n]), colour, count));
  }

  class Game {
    var grid: array2<Disk>
    var turn: Player
    var lastAdded: Option<Cell>
    var winner: Option<Player>

    ghost predicate Valid()
      reads this
    {
      grid.Length0 == Columns && grid.Length1 == Rows && turn != Player.None
    }

    /** A new game: an empty grid, Red to move, nothing placed and no winner. */
    constructor ()
      ensures Valid() && fresh(grid)
      ensures forall c, r :: InBounds(c, r) ==> grid[c, r] == Disk.Empty
      ensures Gravity(Cells(grid))
      ensures turn == Player.Red && lastAdded == Option.None && winner == Option.None
    {
      grid := new Disk[Columns, Rows]((c, r) => Disk.Empty);
      turn := Player.Red;
      lastAdded := Option.None;
      winner := Option.None;
    }

    method ResetGame()
      modifies this
      ensures Valid() && fresh(grid)
      ensures forall c, r :: InBounds(c, r) ==> grid[c, r] == Disk.Empty
      ensures Gravity(Cells(grid))
      ensures turn == Player.Red && lastAdded == Option.None && winner == Option.None
    {
      grid := new Disk[Columns, Rows]((c, r) => Disk.Empty);
      turn := Player.Red;
      lastAdded := Option.None;
      winner := Option.None;
    }

    /** Drops the mover's disk into `column`. A column whose top cell is filled (and so a
        full grid) leaves the game as it was; otherwise exactly the lowest Empty cell of the
        column changes, the mover wins if a line through it holds four of their disks, and
        the turn passes if not. */
    method AddDisk(column: int)
      requires Valid() && 0 <= column < Columns
      modifies this, grid
      ensures Valid() && grid == old(grid)
      ensures old(IsColumnFull(column) || forall c :: 0 <= c < Columns ==> IsColumnFull(c)) ==>
        (forall c, r :: InBounds(c, r) ==> grid[c, r] == old(grid[c, r])) &&
        turn == old(turn) && lastAdded == old(lastAdded) && winner == old(winner)
      ensures old(!IsColumnFull(column)) ==>
        var row := LowestEmpty(old(Cells(grid))[column]);
        var colour := ChooseDiskColor(old(turn));
        (forall c, r :: InBounds(c, r) ==>
          grid[c, r] == if c == column && r == row then colour else old(grid[c, r])) &&
        lastAdded == Option.Some((column, row)) &&
        (FourInARow(Cells(grid), colour, column, row) ==> winner == Option.Some(old(turn)) && turn == old(turn)) &&
        (!FourInARow(Cells(grid), colour, column, row) ==> winner == old(winner) && turn == NextTurn(old(turn)))
      ensures old(Gravity(Cells(grid))) ==> Gravity(Cells(grid))
    {
      var columnFull := IsColumnFull(column);
      if !columnFull {
        var gridFull := IsGridFull();
        assert gridFull ==> IsColumnFull(column);
        if !gridFull {
          PlaceDisk(column);
        }
      }
    }

    /** The accepted branch of addDisk: the column's top cell is Empty. */
    method PlaceDisk(column: int)
      requires Valid() && 0 <= column < Columns && !IsColumnFull(column)
      modifies this, grid
      ensures Valid() && grid == old(grid)
      ensures var row := LowestEmpty(old(Cells(grid))[column]);
        var colour := ChooseDiskColor(old(turn));
        (forall c, r :: InBounds(c, r) ==>
          grid[c, r] == if c == column && r == row then colour else old(grid[c, r])) &&
        lastAdded == Option.Some((column, row)) &&
        (FourInARow(Cells(grid), colour, column, row) ==> winner == Option.Some(old(turn)) && turn == old(turn)) &&
        (!FourInARow(Cells(grid), colour, column, row) ==> winner == old(winner) && turn == NextTurn(old(turn)))
      ensures old(Gravity(Cells(grid))) ==> Gravity(Cells(grid))
    {
      ghost var before := Cells(grid);
      // The first Empty cell from the bottom; the top cell is Empty, so there is one.
      var i := 0;
      while grid[column, i] != Disk.Empty
        invariant 0 <= i < Rows
        invariant forall j :: 0 <= j < i ==> grid[column, j] != Disk.Empty
        decreases Rows - i
      {
        i := i + 1;
      }
      assert i == LowestEmpty(before[column]);
      // The disk can be added to the column.
      grid[column, i] := ChooseDiskColor(turn);
      GravityAfterDrop(before, column, i);
      lastAdded := Option.Some((column, i));
      EndMove(column, i);
    }

    /** The end of an accepted move: the mover wins if the disk at (column, row) completes
        four in a row, and the turn passes otherwise. */
    method EndMove(column: int, row: int)
      requires Valid() && InBounds(column, row)
      modifies this`winner, this`turn
      ensures Valid()
      ensures FourInARow(Cells(grid), ChooseDiskColor(old(turn)), column, row) ==>
        winner == Option.Some(old(turn)) && turn == old(turn)
      ensures !FourInARow(Cells(grid), ChooseDiskColor(old(turn)), column, row) ==>
        winner == old(winner) && turn == NextTurn(old(turn))
    {
      var finished := IsTheGameFinished(column, row);
      if finished {
        winner := Option.Some(turn);
      } else {
        ChangeTurn();
      }
    }

    /** Gravity carries over from `before` to the grid once the lowest Empty cell of
        `column`, at `row`, has been filled. */
    lemma GravityAfterDrop(before: Board, column: int, row: int)
      requires Valid() && WellFormed(before) && 0 <= column < Columns && Disk.Empty in before[column]
      requires row == LowestEmpty(before[column]) && grid[column, row] != Disk.Empty
      requires forall c, r :: InBounds(c, r) && (c != column || r != row) ==> grid[c, r] == before[c][r]
      ensures Gravity(before) ==> Gravity(Cells(grid))
    {
      if Gravity(before) {
        DropKeepsGravity(before, Cells(grid), column, grid[column, row]);
      }
    }

    /** isColumnFull tests the top cell (see Grid.TopFilledUnderGravity). */
    predicate IsColumnFull(column: int)
      reads this, grid
      requires Valid() && 0 <= column < Columns
    {
      grid[column, Rows - 1] != Disk.Empty
    }

    /** isGridFull tests the top cell of every column (see Grid.TopRowFullUnderGravity). */
    method IsGridFull() returns (full: bool)
      requires Valid()
      ensures full <==> forall c :: 0 <= c < Columns ==> IsColumnFull(c)
    {
      for index := 0 to Columns
        invariant forall c :: 0 <= c < index ==> IsColumnFull(c)
      {
        if grid[index, Rows - 1] == Disk.Empty {
          assert !IsColumnFull(index);
          return false;
        }
      }
      return true;
    }

    method ChangeTurn()
      modifies this`turn
      ensures turn == NextTurn(old(turn))
    {
      turn := if turn == Player.Red then Player.Yellow else Player.Red;
    }

    /** isTheGameFinished: some line through (column, row) holds four consecutive disks
        of the mover's colour. */
    method IsTheGameFinished(column: int, row: int) returns (finished: bool)
      requires Valid() && InBounds(column, row)
      ensures finished == FourInARow(Cells(grid), ChooseDiskColor(turn), column, row)
    {
      var horizontal := CheckHorizontal(row);
      var vertical := CheckVertical(column);
      var upward := CheckUpwardDiagonal(column, row);
      var downward := CheckDownwardDiagonal(column, row);
      finished := horizontal || vertical || upward || downward;
    }

    method CheckHorizontal(row: int) returns (found: bool)
      requires Valid() && 0 <= row < Rows
      ensures found == HasRun(Cells(grid), ChooseDiskColor(turn), HorizontalLine(row))
    {
      ghost var b, line := Cells(grid), HorizontalLine(row);
      var colour := ChooseDiskColor(turn);
      var connectedDisks := 0;
      for columnIt := 0 to Columns
        invariant Counted(b, colour, line, columnIt, connectedDisks)
      {
        CheckDiskStep(b, colour, line, columnIt, connectedDisks);
        connectedDisks := CheckDisk(grid[columnIt, row], colour, connectedDisks);
        if connectedDisks >= DisksToWin {
          return true;
        }
      }
      return false;
    }

    method CheckVertical(column: int) returns (found: bool)
      requires Valid() && 0 <= column < Columns
      ensures found == HasRun(Cells(grid), ChooseDiskColor(turn), VerticalLine(column))
    {
      ghost var b, line := Cells(grid), VerticalLine(column);
      var colour := ChooseDiskColor(turn);
      var connectedDisks := 0;
      for rowIt := 0 to Rows
        invariant Counted(b, colour, line, rowIt, connectedDisks)
      {
        CheckDiskStep(b, colour, line, rowIt, connectedDisks);
        connectedDisks := CheckDisk(grid[column, rowIt], colour, connectedDisks);
        if connectedDisks >= DisksToWin {
          return true;
        }
      }
      return false;
    }

    method CheckUpwardDiagonal(column: int, row: int) returns (found: bool)
      requires Valid() && InBounds(column, row)
      ensures found == HasRun(Cells(grid), ChooseDiskColor(turn), UpwardLine(column, row))
    {
      var columnIt := if row > column then 0 else column - row;
      var rowIt := if row > column then row - column else 0;
      ghost var b, line, start := Cells(grid), UpwardLine(column, row), UpwardStart(column, row);
      ghost var k := 0;
      var colour := ChooseDiskColor(turn);
      var connectedDisks := 0;
      while columnIt < Columns && rowIt < Rows
        invariant 0 <= k <= |line|
        invariant columnIt == start.0 + k && rowIt == start.1 + k
        invariant Counted(b, colour, line, k, connectedDisks)
        decreases Columns - columnIt
      {
        UpwardLineIndex(column, row, k);
        CheckDiskStep(b, colour, line, k, connectedDisks);
        connectedDisks := CheckDisk(grid[columnIt, rowIt], colour, connectedDisks);
        if connectedDisks >= DisksToWin {
          return true;
        }
        columnIt, rowIt, k := columnIt + 1, rowIt + 1, k + 1;
      }
      UpwardLineIndex(column, row, k);
      return false;
    }

    method CheckDownwardDiagonal(column: int, row: int) returns (found: bool)
      requires Valid() && InBounds(column, row)
      ensures found == HasRun(Cells(grid), ChooseDiskColor(turn), DownwardLine(column, row))
    {
      var columnIt := if column > Rows - 1 - row then column - (Rows - 1 - row) else 0;
      var rowIt := if column > Rows - 1 - row then Rows - 1 else row + column;
      ghost var b, line, start := Cells(grid), DownwardLine(column, row), DownwardStart(column, row);
      ghost var k := 0;
      var colour := ChooseDiskColor(turn);
      var connectedDisks := 0;
      while columnIt < Columns && rowIt >= 0
        invariant 0 <= k <= |line|
        invariant columnIt == start.0 + k && rowIt == start.1 - k
        invariant Counted(b, colour, line, k, connectedDisks)
        decreases Columns - columnIt
      {
        DownwardLineIndex(column, row, k);
        CheckDiskStep(b, colour, line, k, connectedDisks);
        connectedDisks := CheckDisk(grid[columnIt, rowIt], colour, connectedDisks);
        if connectedDisks >= DisksToWin {
          return true;
        }
        columnIt, rowIt, k := columnIt + 1, rowIt - 1, k + 1;
      }
      DownwardLineIndex(column, row, k);
      return false;
    }
  }
}
