/**
 * The datasource engine (package com.javidran.connectapp.datasource): the drop
 * and turn rules of the older engine, with scans that collect the cells of a
 * run instead of counting them, so that the game also reports which cells won.
 */
module Datasource {
  import opened Grid
  import opened Lines

  /** increaseOrResetWinningCombination: a list that already holds DisksToWin cells is
      kept; otherwise a cell of the mover's colour is appended and any other cell empties
      the list (the cell's disk is passed in). */
  function IncreaseOrResetWinningCombination(disk: Disk, colour: Disk, cell: Cell, combination: seq<Cell>): seq<Cell> {
    if |combination| >= DisksToWin then combination
    else if disk == colour then combination + [cell]
    else []
  }

  /** returnWinningCombinationIfWon: the list if it reached DisksToWin cells, empty otherwise. */
  function ReturnWinningCombinationIfWon(combination: seq<Cell>): seq<Cell> {
    if |combination| >= DisksToWin then combination else []
  }

  /** The first DisksToWin consecutive `colour` cells of `cells` at index k or later, in
      scan order; empty when there is none. */
  ghost function FirstRunFrom(b: Board, colour: Disk, cells: seq<Cell>, k: nat): seq<Cell>
    requires WellFormed(b) && OnBoard(cells)
    decreases |cells| - k
  {
    if |cells| < k + DisksToWin then []
    else if RunAt(b, colour, cells, k) then cells[k..k + DisksToWin]
    else FirstRunFrom(b, colour, cells, k + 1)
  }

  /** The first run of four `colour` cells along a line, or empty. */
  ghost function FirstRun(b: Board, colour: Disk, cells: seq<Cell>): seq<Cell>
    requires WellFormed(b) && OnBoard(cells)
  {
    FirstRunFrom(b, colour, cells, 0)
  }

  /** A run starts at k and no earlier index. */
  ghost predicate FirstRunAt(b: Board, colour: Disk, cells: seq<Cell>, k: int)
    requires WellFormed(b) && OnBoard(cells)
  {
    RunAt(b, colour, cells, k) && forall j :: 0 <= j < k ==> !RunAt(b, colour, cells, j)
  }

  /** When j is the first run index from k on, the search from k finds the run at j. */
  lemma {:induction false} FirstRunFromIs(b: Board, colour: Disk, cells: seq<Cell>, k: nat, j: nat)
    requires WellFormed(b) && OnBoard(cells) && k <= j && RunAt(b, colour, cells, j)
    requires forall i :: k <= i < j ==> !RunAt(b, colour, cells, i)
    ensures FirstRunFrom(b, colour, cells, k) == cells[j..j + DisksToWin]
    decreases j - k
  {
    if k < j {
      FirstRunFromIs(b, colour, cells, k + 1, j);
    }
  }

  /** The search from k is empty exactly when no run starts at k or later, and otherwise
      returns the cells of the first such run. */
  lemma {:induction false} FirstRunFromMeaning(b: Board, colour: Disk, cells: seq<Cell>, k: nat)
    requires WellFormed(b) && OnBoard(cells)
    ensures FirstRunFrom(b, colour, cells, k) == [] <==> forall j :: k <= j ==> !RunAt(b, colour, cells, j)
    ensures FirstRunFrom(b, colour, cells, k) != [] ==>
      exists j :: k <= j && RunAt(b, colour, cells, j) &&
        (forall i :: k <= i < j ==> !RunAt(b, colour, cells, i)) &&
        FirstRunFrom(b, colour, cells, k) == cells[j..j + DisksToWin]
    decreases |cells| - k
  {
    if |cells| < k + DisksToWin {
    } else if RunAt(b, colour, cells, k) {
    } else {
      FirstRunFromMeaning(b, colour, cells, k + 1);
    }
  }

  /** Every cell of the list lies on the board and holds `colour`. */
  ghost predicate OfColour(b: Board, colour: Disk, cells: seq<Cell>)
    requires WellFormed(b)
  {
    forall i :: 0 <= i < |cells| ==> InBounds(cells[i].0, cells[i].1) && At(b, cells[i]) == colour
  }

  lemma OfColourConcat(b: Board, colour: Disk, xs: seq<Cell>, ys: seq<Cell>)
    requires WellFormed(b) && OfColour(b, colour, xs) && OfColour(b, colour, ys)
    ensures OfColour(b, colour, xs + ys)
  {
    forall i | 0 <= i < |xs + ys|
      ensures InBounds((xs + ys)[i].0, (xs + ys)[i].1) && At(b, (xs + ys)[i]) == colour
    {
      if i >= |xs| {
        assert (xs + ys)[i] == ys[i - |xs|];
      }
    }
  }

  /** FirstRun without the index of the run: empty exactly when the line has no run,
      otherwise DisksToWin cells of `colour`. */
  lemma FirstRunShape(b: Board, colour: Disk, cells: seq<Cell>)
    requires WellFormed(b) && OnBoard(cells)
    ensures FirstRun(b, colour, cells) == [] <==> !HasRun(b, colour, cells)
    ensures |FirstRun(b, colour, cells)| == 0 || |FirstRun(b, colour, cells)| == DisksToWin
    ensures OfColour(b, colour, FirstRun(b, colour, cells))
  {
    FirstRunMeaning(b, colour, cells);
  }

  /** FirstRun is empty exactly when the line holds no four in a row, and otherwise it is
      the DisksToWin cells of the first run, all of them on the board and of `colour`. */
  lemma FirstRunMeaning(b: Board, colour: Disk, cells: seq<Cell>)
    requires WellFormed(b) && OnBoard(cells)
    ensures FirstRun(b, colour, cells) == [] <==> !HasRun(b, colour, cells)
    ensures FirstRun(b, colour, cells) != [] ==>
      exists k :: FirstRunAt(b, colour, cells, k) && FirstRun(b, colour, cells) == cells[k..k + DisksToWin]
    ensures |FirstRun(b, colour, cells)| == 0 || |FirstRun(b, colour, cells)| == DisksToWin
    ensures OfColour(b, colour, FirstRun(b, colour, cells))
  {
    FirstRunFromMeaning(b, colour, cells, 0);
    var r := FirstRun(b, colour, cells);
    if r != [] {
      var k :| 0 <= k && RunAt(b, colour, cells, k) &&
        (forall i :: 0 <= i < k ==> !RunAt(b, colour, cells, i)) && r == cells[k..k + DisksToWin];
      assert FirstRunAt(b, colour, cells, k);
      forall i | 0 <= i < |r|
        ensures InBounds(r[i].0, r[i].1) && At(b, r[i]) == colour
      {
        assert r[i] == cells[k + i];
      }
    }
  }

  /** The state of a collecting scan after the first n cells of a line: once a run was
      met the list is that first run, and before that it is the trailing run of the
      mover's colour, shorter than DisksToWin, that ends there. */
  ghost predicate Accumulated(b: Board, colour: Disk, cells: seq<Cell>, first: seq<Cell>, n: int, combination: seq<Cell>) {
    WellFormed(b) && OnBoard(cells) && 0 <= n <= |cells| &&
    if RunWithin(b, colour, cells, n) then combination == first
    else Trailing(b, colour, cells, n, combination)
  }

  /** Before any run: the list is the trailing run of `colour` cells ending before n. */
  ghost predicate Trailing(b: Board, colour: Disk, cells: seq<Cell>, n: int, combination: seq<Cell>)
    requires WellFormed(b) && OnBoard(cells) && 0 <= n <= |cells|
  {
    |combination| < DisksToWin && TrailingRun(b, colour, cells, n, |combination|) &&
    combination == cells[n - |combination|..n]
  }

  /** One step of a collecting scan: increaseOrResetWinningCombination keeps the list
      frozen after the first run and otherwise extends or resets the trailing run. */
  lemma AccumulateStep(b: Board, colour: Disk, cells: seq<Cell>, first: seq<Cell>, n: int, combination: seq<Cell>,
                        cell: Cell, disk: Disk)
    requires Accumulated(b, colour, cells, first, n, combination) && n < |cells|
    requires first == FirstRun(b, colour, cells)
    requires cell == cells[n] && disk == At(b, cell)
    ensures Accumulated(b, colour, cells, first, n + 1,
      IncreaseOrResetWinningCombination(disk, colour, cell, combination))
  {
    if RunWithin(b, colour, cells, n) {
      FirstRunShape(b, colour, cells);
      assert RunWithin(b, colour, cells, n + 1);
    } else {
      TrailingStep(b, colour, cells, n, combination);
    }
  }

  /** The step before any run: the trailing run grows or resets, and the first run is
      found when it reaches DisksToWin. */
  lemma TrailingStep(b: Board, colour: Disk, cells: seq<Cell>, n: int, combination: seq<Cell>)
    requires WellFormed(b) && OnBoard(cells) && 0 <= n < |cells|
    requires !RunWithin(b, colour, cells, n) && Trailing(b, colour, cells, n, combination)
    ensures var next := IncreaseOrResetWinningCombination(At(b, cells[n]), colour, cells[n], combination);
      if RunWithin(b, colour, cells, n + 1) then next == FirstRun(b, colour, cells)
      else Trailing(b, colour, cells, n + 1, next)
  {
    var next := IncreaseOrResetWinningCombination(At(b, cells[n]), colour, cells[n], combination);
    assert next == cells[n + 1 - |next|..n + 1];
    RunWithinNext(b, colour, cells, n, |next|);
    if |next| >= DisksToWin {
      FirstRunFromIs(b, colour, cells, 0, n + 1 - DisksToWin);
    }
  }

  /** At the end of a collecting scan returnWinningCombinationIfWon yields the line's
      first run: the list when it holds DisksToWin cells, and empty otherwise. */
  lemma AccumulatedResult(b: Board, colour: Disk, cells: seq<Cell>, first: seq<Cell>, combination: seq<Cell>)
    requires Accumulated(b, colour, cells, first, |cells|, combination)
    requires first == FirstRun(b, colour, cells)
    ensures ReturnWinningCombinationIfWon(combination) == first
  {
    FirstRunMeaning(b, colour, cells);
  }

  /** The list a collecting scan holds after the first n cells of a line. */
  ghost function Scan(b: Board, colour: Disk, cells: seq<Cell>, n: nat): seq<Cell>
    requires WellFormed(b) && OnBoard(cells) && n <= |cells|
  {
    if n == 0 then []
    else IncreaseOrResetWinningCombination(At(b, cells[n - 1]), colour, cells[n - 1], Scan(b, colour, cells, n - 1))
  }

  lemma {:induction false} ScanAccumulated(b: Board, colour: Disk, cells: seq<Cell>, n: nat)
    requires WellFormed(b) && OnBoard(cells) && n <= |cells|
    ensures Accumulated(b, colour, cells, FirstRun(b, colour, cells), n, Scan(b, colour, cells, n))
  {
    if n > 0 {
      ScanAccumulated(b, colour, cells, n - 1);
      AccumulateStep(b, colour, cells, FirstRun(b, colour, cells), n - 1, Scan(b, colour, cells, n - 1),
        cells[n - 1], At(b, cells[n - 1]));
    }
  }

  /** A collecting scan over a whole line followed by returnWinningCombinationIfWon
      yields the line's first run. */
  lemma ScanFindsFirstRun(b: Board, colour: Disk, cells: seq<Cell>)
    requires WellFormed(b) && OnBoard(cells)
    ensures ReturnWinningCombinationIfWon(Scan(b, colour, cells, |cells|)) == FirstRun(b, colour, cells)
  {
    ScanAccumulated(b, colour, cells, |cells|);
    AccumulatedResult(b, colour, cells, FirstRun(b, colour, cells), Scan(b, colour, cells, |cells|));
  }

  /** isTheGameFinished's winningCombination: the first runs of the horizontal, vertical,
      upward and downward lines through (column, row), concatenated in that order. */
  ghost function WinningCombination(b: Board, colour: Disk, column: int, row: int): seq<Cell>
    requires WellFormed(b) && InBounds(column, row)
  {
    FirstRun(b, colour, HorizontalLine(row)) +
    FirstRun(b, colour, VerticalLine(column)) +
    FirstRun(b, colour, UpwardLine(column, row)) +
    FirstRun(b, colour, DownwardLine(column, row))
  }

  /** The winning combination is non-empty exactly when a line through (column, row)
      holds four in a row, so this engine and the counting one agree on every win; it
      holds 0, 4, 8, 12 or 16 cells, all on the board and of the mover's colour. */
  lemma WinningCombinationMeaning(b: Board, colour: Disk, column: int, row: int)
    requires WellFormed(b) && InBounds(column, row)
    ensures WinningCombination(b, colour, column, row) != [] <==> FourInARow(b, colour, column, row)
    ensures |WinningCombination(b, colour, column, row)| % DisksToWin == 0
    ensures |WinningCombination(b, colour, column, row)| <= 4 * DisksToWin
    ensures OfColour(b, colour, WinningCombination(b, colour, column, row))
  {
    var h, v := HorizontalLine(row), VerticalLine(column);
    var u, d := UpwardLine(column, row), DownwardLine(column, row);
    FirstRunShape(b, colour, h);
    FirstRunShape(b, colour, v);
    FirstRunShape(b, colour, u);
    FirstRunShape(b, colour, d);
    var rh, rv, ru, rd := FirstRun(b, colour, h), FirstRun(b, colour, v), FirstRun(b, colour, u), FirstRun(b, colour, d);
    OfColourConcat(b, colour, rh, rv);
    OfColourConcat(b, colour, rh + rv, ru);
    OfColourConcat(b, colour, rh + rv + ru, rd);
  }

  class Game {
    var grid: array2<Disk>
    var turn: Player
    var lastAdded: Option<Cell>
    var winner: Option<Player>
    var winningCombination: seq<Cell>

    ghost predicate Valid()
      reads this
    {
      grid.Length0 == Columns && grid.Length1 == Rows && turn != Player.None
    }

    /** A new game: an empty grid, Red to move, nothing placed, no winner, no winning cells. */
    constructor ()
      ensures Valid() && fresh(grid)
      ensures forall c, r :: InBounds(c, r) ==> grid[c, r] == Disk.Empty
      ensures Gravity(Cells(grid))
      ensures turn == Player.Red && lastAdded == Option.None && winner == Option.None
      ensures winningCombination == []
    {
      grid := new Disk[Columns, Rows]((c, r) => Disk.Empty);
      turn := Player.Red;
      lastAdded := Option.None;
      winner := Option.None;
      winningCombination := [];
    }

    /** resetGame clears the grid, the turn, the last placement and the winner; it leaves
        winningCombination as it was. */
    method ResetGame()
      modifies this
      ensures Valid() && fresh(grid)
      ensures forall c, r :: InBounds(c, r) ==> grid[c, r] == Disk.Empty
      ensures Gravity(Cells(grid))
      ensures turn == Player.Red && lastAdded == Option.None && winner == Option.None
      ensures winningCombination == old(winningCombination)
    {
      grid := new Disk[Columns, Rows]((c, r) => Disk.Empty);
      turn := Player.Red;
      lastAdded := Option.None;
      winner := Option.None;
    }

    /** Drops the mover's disk into `column`. A column whose top cell is filled (and so a
        full grid) leaves the game as it was; otherwise exactly the lowest Empty cell of the
        column changes, winningCombination collects the runs through it, and the mover wins
        if that list is not empty while the turn passes if it is. */
    method AddDisk(column: int)
      requires Valid() && 0 <= column < Columns
      modifies this, grid
      ensures Valid() && grid == old(grid)
      ensures old(IsColumnFull(column) || forall c :: 0 <= c < Columns ==> IsColumnFull(c)) ==>
        unchanged(this, grid)
      ensures old(!IsColumnFull(column)) ==>
        var row := LowestEmpty(old(Cells(grid))[column]);
        var colour := ChooseDiskColor(old(turn));
        (forall c, r :: InBounds(c, r) ==>
          grid[c, r] == if c == column && r == row then colour else old(grid[c, r])) &&
        lastAdded == Option.Some((column, row)) &&
        winningCombination == WinningCombination(Cells(grid), colour, column, row) &&
        (winningCombination != [] ==> winner == Option.Some(old(turn)) && turn == old(turn)) &&
        (winningCombination == [] ==> winner == old(winner) && turn == NextTurn(old(turn)))
      ensures old(Gravity(Cells(grid))) ==> Gravity(Cells(grid))
    {
      var columnFull := IsColumnFull(column);
      if !columnFull {
        var gridFull := IsGridFull();
        assert gridFull ==> IsColumnFull(column);
        if !gridFull {
          PlaceDisk(column);
        }
      }
    }

    /** The accepted branch of addDisk: the column's top cell is Empty. */
    method PlaceDisk(column: int)
      requires Valid() && 0 <= column < Columns && !IsColumnFull(column)
      modifies this, grid
      ensures Valid() && grid == old(grid)
      ensures var row := LowestEmpty(old(Cells(grid))[column]);
        var colour := ChooseDiskColor(old(turn));
        (forall c, r :: InBounds(c, r) ==>
          grid[c, r] == if c == column && r == row then colour else old(grid[c, r])) &&
        lastAdded == Option.Some((column, row)) &&
        winningCombination == WinningCombination(Cells(grid), colour, column, row) &&
        (winningCombination != [] ==> winner == Option.Some(old(turn)) && turn == old(turn)) &&
        (winningCombination == [] ==> winner == old(winner) && turn == NextTurn(old(turn)))
      ensures old(Gravity(Cells(grid))) ==> Gravity(Cells(grid))
    {
      ghost var before := Cells(grid);
      // The first Empty cell from the bottom; the top cell is Empty, so there is one.
      var i := 0;
      while grid[column, i] != Disk.Empty
        invariant 0 <= i < Rows
        invariant forall j :: 0 <= j < i ==> grid[column, j] != Disk.Empty
        decreases Rows - i
      {
        i := i + 1;
      }
      assert i == LowestEmpty(before[column]);
      // The disk can be added to the column.
      grid[column, i] := ChooseDiskColor(turn);
      GravityAfterDrop(before, column, i);
      lastAdded := Option.Some((column, i));
      EndMove(column, i);
    }

    /** The end of an accepted move: the mover wins if the disk at (column, row) completes
        a run, and the turn passes otherwise. */
    method EndMove(column: int, row: int)
      requires Valid() && InBounds(column, row)
      modifies this`winner, this`turn, this`winningCombination
      ensures Valid()
      ensures winningCombination == WinningCombination(Cells(grid), ChooseDiskColor(old(turn)), column, row)
      ensures winningCombination != [] ==> winner == Option.Some(old(turn)) && turn == old(turn)
      ensures winningCombination == [] ==> winner == old(winner) && turn == NextTurn(old(turn))
    {
      var finished := IsTheGameFinished(column, row);
      if finished {
        winner := Option.Some(turn);
      } else {
        ChangeTurn();
      }
    }

    /** Gravity carries over from `before` to the grid once the lowest Empty cell of
        `column`, at `row`, has been filled. */
    lemma GravityAfterDrop(before: Board, column: int, row: int)
      requires Valid() && WellFormed(before) && 0 <= column < Columns && Disk.Empty in before[column]
      requires row == LowestEmpty(before[column]) && grid[column, row] != Disk.Empty
      requires forall c, r :: InBounds(c, r) && (c != column || r != row) ==> grid[c, r] == before[c][r]
      ensures Gravity(before) ==> Gravity(Cells(grid))
    {
      if Gravity(before) {
        DropKeepsGravity(before, Cells(grid), column, grid[column, row]);
      }
    }

    /** isColumnFull tests the top cell (see Grid.TopFilledUnderGravity). */
    predicate IsColumnFull(column: int)
      reads this, grid
      requires Valid() && 0 <= column < Columns
    {
      grid[column, Rows - 1] != Disk.Empty
    }

    /** isGridFull tests the top cell of every column (see Grid.TopRowFullUnderGravity). */
    method IsGridFull() returns (full: bool)
      requires Valid()
      ensures full <==> forall c :: 0 <= c < Columns ==> IsColumnFull(c)
    {
      for index := 0 to Columns
        invariant forall c :: 0 <= c < index ==> IsColumnFull(c)
      {
        if grid[index, Rows - 1] == Disk.Empty {
          assert !IsColumnFull(index);
          return false;
        }
      }
      return true;
    }

    method ChangeTurn()
      modifies this`turn
      ensures turn == NextTurn(old(turn))
    {
      turn := if turn == Player.Red then Player.Yellow else Player.Red;
    }

    /** isTheGameFinished records the concatenated runs of the four lines through
        (column, row) and reports whether there is any, that is, whether one of those
        lines holds four in a row of the mover's colour. */
    method IsTheGameFinished(column: int, row: int) returns (finished: bool)
      requires Valid() && InBounds(column, row)
      modifies this`winningCombination
      ensures winningCombination == WinningCombination(Cells(grid), ChooseDiskColor(turn), column, row)
      ensures finished <==> winningCombination != []
      ensures finished <==> FourInARow(Cells(grid), ChooseDiskColor(turn), column, row)
    {
      var horizontal := CheckHorizontal(row);
      var vertical := CheckVertical(column);
      var upward := CheckUpwardDiagonal(column, row);
      var downward := CheckDownwardDiagonal(column, row);
      winningCombination := horizontal + vertical + upward + downward;
      WinningCombinationMeaning(Cells(grid), ChooseDiskColor(turn), column, row);
      finished := winningCombination != [];
    }

    method CheckHorizontal(row: int) returns (combination: seq<Cell>)
      requires Valid() && 0 <= row < Rows
      ensures combination == FirstRun(Cells(grid), ChooseDiskColor(turn), HorizontalLine(row))
    {
      ghost var b, line := Cells(grid), HorizontalLine(row);
      var colour := ChooseDiskColor(turn);
      var winning: seq<Cell> := [];
      for columnIt := 0 to Columns
        invariant winning == Scan(b, colour, line, columnIt)
      {
        winning := IncreaseOrResetWinningCombination(grid[columnIt, row], colour, (columnIt, row), winning);
      }
      ScanFindsFirstRun(b, colour, line);
      return ReturnWinningCombinationIfWon(winning);
    }

    method CheckVertical(column: int) returns (combination: seq<Cell>)
      requires Valid() && 0 <= column < Columns
      ensures combination == FirstRun(Cells(grid), ChooseDiskColor(turn), VerticalLine(column))
    {
      ghost var b, line := Cells(grid), VerticalLine(column);
      var colour := ChooseDiskColor(turn);
      var winning: seq<Cell> := [];
      for rowIt := 0 to Rows
        invariant winning == Scan(b, colour, line, rowIt)
      {
        winning := IncreaseOrResetWinningCombination(grid[column, rowIt], colour, (column, rowIt), winning);
      }
      ScanFindsFirstRun(b, colour, line);
      return ReturnWinningCombinationIfWon(winning);
    }

    method CheckUpwardDiagonal(column: int, row: int) returns (combination: seq<Cell>)
      requires Valid() && InBounds(column, row)
      ensures combination == FirstRun(Cells(grid), ChooseDiskColor(turn), UpwardLine(column, row))
    {
      var columnIt := if row > column then 0 else column - row;
      var rowIt := if row > column then row - column else 0;
      ghost var b, line, start := Cells(grid), UpwardLine(column, row), UpwardStart(column, row);
      ghost var k := 0;
      var colour := ChooseDiskColor(turn);
      var winning: seq<Cell> := [];
      while columnIt < Columns && rowIt < Rows
        invariant 0 <= k <= |line|
        invariant columnIt == start.0 + k && rowIt == start.1 + k
        invariant winning == Scan(b, colour, line, k)
        decreases Columns - columnIt
      {
        UpwardLineIndex(column, row, k);
        winning := IncreaseOrResetWinningCombination(grid[columnIt, rowIt], colour, (columnIt, rowIt), winning);
        columnIt, rowIt, k := columnIt + 1, rowIt + 1, k + 1;
      }
      UpwardLineIndex(column, row, k);
      ScanFindsFirstRun(b, colour, line);
      return ReturnWinningCombinationIfWon(winning);
    }

    method CheckDownwardDiagonal(column: int, row: int) returns (combination: seq<Cell>)
      requires Valid() && InBounds(column, row)
      ensures combination == FirstRun(Cells(grid), ChooseDiskColor(turn), DownwardLine(column, row))
    {
      var columnIt := if column > Rows - 1 - row then column - (Rows - 1 - row) else 0;
      var rowIt := if column > Rows - 1 - row then Rows - 1 else row + column;
      ghost var b, line, start := Cells(grid), DownwardLine(column, row), DownwardStart(column, row);
      ghost var k := 0;
      var colour := ChooseDiskColor(turn);
      var winning: seq<Cell> := [];
      while columnIt < Columns && rowIt >= 0
        invariant 0 <= k <= |line|
        invariant columnIt == start.0 + k && rowIt == start.1 - k
        invariant winning == Scan(b, colour, line, k)
        decreases Columns - columnIt
      {
        DownwardLineIndex(column, row, k);
        winning := IncreaseOrResetWinningCombination(grid[columnIt, rowIt], colour, (columnIt, rowIt), winning);
        columnIt, rowIt, k := columnIt + 1, rowIt - 1, k + 1;
      }
      DownwardLineIndex(column, row, k);
      ScanFindsFirstRun(b, colour, line);
      return ReturnWinningCombinationIfWon(winning);
    }
  }
}
