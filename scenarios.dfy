/**
 * The vertical-win game of both engines: from a new game the drops into
 * columns 0, 1, 0, 1, 0, 1, 0 stack Red disks in column 0 and Yellow disks in
 * column 1, and the seventh drop gives Red four in a row in column 0.
 */
module Scenarios {
  import opened Grid
  import opened Lines
  import ConnectApp
  import opened Datasource

  /** The board of the game after `reds` Red drops into column 0 and `yellows` Yellow
      drops into column 1: those two stacks and nothing else. */
  function Stacked(reds: nat, yellows: nat): (b: Board)
    ensures WellFormed(b)
    ensures forall c, r :: InBounds(c, r) ==>
      b[c][r] == if c == 0 && r < reds then Disk.Red else if c == 1 && r < yellows then Disk.Yellow else Disk.Empty
  {
    seq(Columns, (c: int) => seq(Rows, (r: int) =>
      if c == 0 && r < reds then Disk.Red else if c == 1 && r < yellows then Disk.Yellow else Disk.Empty))
  }

  /** A line whose cells from index p < DisksToWin on never hold `colour` has no run. */
  lemma NoRunAfter(b: Board, colour: Disk, cells: seq<Cell>, p: nat)
    requires WellFormed(b) && OnBoard(cells) && p < DisksToWin
    requires forall j :: p <= j < |cells| ==> At(b, cells[j]) != colour
    ensures !HasRun(b, colour, cells)
  {
    forall k | 0 <= k && k + DisksToWin <= |cells|
      ensures !RunAt(b, colour, cells, k)
    {
      assert At(b, cells[k + DisksToWin - 1]) != colour;
    }
  }

  /** On a stacked board only the vertical line can hold a run: every other line through
      (column, row) moves one column right per cell, and only columns 0 and 1 hold disks. */
  lemma OnlyVertical(reds: nat, yellows: nat, colour: Disk, column: int, row: int)
    requires InBounds(column, row) && colour != Disk.Empty
    ensures FourInARow(Stacked(reds, yellows), colour, column, row) <==>
      HasRun(Stacked(reds, yellows), colour, VerticalLine(column))
    ensures FirstRun(Stacked(reds, yellows), colour, HorizontalLine(row)) == []
    ensures FirstRun(Stacked(reds, yellows), colour, UpwardLine(column, row)) == []
    ensures FirstRun(Stacked(reds, yellows), colour, DownwardLine(column, row)) == []
  {
    var b := Stacked(reds, yellows);
    var h, u, d := HorizontalLine(row), UpwardLine(column, row), DownwardLine(column, row);
    forall j | 2 <= j < |u|
      ensures At(b, u[j]) != colour
    {
      UpwardLineIndex(column, row, j);
    }
    forall j | 2 <= j < |d|
      ensures At(b, d[j]) != colour
    {
      DownwardLineIndex(column, row, j);
    }
    NoRunAfter(b, colour, h, 2);
    NoRunAfter(b, colour, u, 2);
    NoRunAfter(b, colour, d, 2);
    FirstRunShape(b, colour, h);
    FirstRunShape(b, colour, u);
    FirstRunShape(b, colour, d);
  }

  /** A column of fewer than DisksToWin disks of `colour` holds no run. */
  lemma ShortStackNoRun(reds: nat, yellows: nat, colour: Disk, column: int)
    requires 0 <= column < Columns && colour != Disk.Empty && reds < DisksToWin && yellows < DisksToWin
    ensures !HasRun(Stacked(reds, yellows), colour, VerticalLine(column))
  {
    var b := Stacked(reds, yellows);
    NoRunAfter(b, colour, VerticalLine(column), if column == 0 then reds else if column == 1 then yellows else 0);
  }

  /** Red's disk number reds + 1, dropped into column 0 of Stacked(reds, reds), wins
      exactly when it is the fourth, and then column 0's four bottom cells are the winning
      combination. */
  lemma RedDropOutcome(reds: nat)
    requires reds < DisksToWin
    ensures FourInARow(Stacked(reds + 1, reds), Disk.Red, 0, reds) <==> reds + 1 == DisksToWin
    ensures WinningCombination(Stacked(reds + 1, reds), Disk.Red, 0, reds) ==
      if reds + 1 == DisksToWin then [(0, 0), (0, 1), (0, 2), (0, 3)] else []
  {
    var b := Stacked(reds + 1, reds);
    var v := VerticalLine(0);
    OnlyVertical(reds + 1, reds, Disk.Red, 0, reds);
    if reds + 1 == DisksToWin {
      assert RunAt(b, Disk.Red, v, 0);
      FirstRunFromIs(b, Disk.Red, v, 0, 0);
      assert v[0..4] == [(0, 0), (0, 1), (0, 2), (0, 3)];
    } else {
      ShortStackNoRun(reds + 1, reds, Disk.Red, 0);
      FirstRunShape(b, Disk.Red, v);
    }
  }

  /** Yellow's disk number yellows + 1, dropped into column 1 of Stacked(yellows + 1,
      yellows), does not win while it is not the fourth. */
  lemma YellowDropOutcome(yellows: nat)
    requires yellows + 1 < DisksToWin
    ensures !FourInARow(Stacked(yellows + 1, yellows + 1), Disk.Yellow, 1, yellows)
    ensures WinningCombination(Stacked(yellows + 1, yellows + 1), Disk.Yellow, 1, yellows) == []
  {
    var b := Stacked(yellows + 1, yellows + 1);
    OnlyVertical(yellows + 1, yellows + 1, Disk.Yellow, 1, yellows);
    ShortStackNoRun(yellows + 1, yellows + 1, Disk.Yellow, 1);
    FirstRunShape(b, Disk.Yellow, VerticalLine(1));
  }

  /** Column 0 or 1 of Stacked(reds, yellows) is not full while its stack is below Rows,
      and its lowest Empty cell is the one just above the stack. */
  lemma DropOnto(reds: nat, yellows: nat, column: int)
    requires (column == 0 && reds < Rows) || (column == 1 && yellows < Rows)
    ensures var b := Stacked(reds, yellows);
      b[column][Rows - 1] == Disk.Empty && Disk.Empty in b[column] &&
      LowestEmpty(b[column]) == if column == 0 then reds else yellows
  {
    var b := Stacked(reds, yellows);
    LowestEmptyAt(b[column], if column == 0 then reds else yellows);
  }

  /** Dropping `colour` into column 0 or 1 of Stacked(reds, yellows), on the stack's
      first Empty cell, gives the stacked board with one more disk in that column. */
  lemma StackedDrop(reds: nat, yellows: nat, column: int, after: Board)
    requires (column == 0 && reds < Rows) || (column == 1 && yellows < Rows)
    requires WellFormed(after)
    requires forall c, r :: InBounds(c, r) ==>
      after[c][r] == if c == column && r == (if column == 0 then reds else yellows)
        then (if column == 0 then Disk.Red else Disk.Yellow) else Stacked(reds, yellows)[c][r]
    ensures after == if column == 0 then Stacked(reds + 1, yellows) else Stacked(reds, yellows + 1)
  {
    BoardsEqual(after, if column == 0 then Stacked(reds + 1, yellows) else Stacked(reds, yellows + 1));
  }

  /** One Red drop into column 0 of the datasource game on Stacked(reds, reds). */
  method DatasourceRedMove(game: Datasource.Game, reds: nat)
    requires game.Valid() && reds < DisksToWin && Cells(game.grid) == Stacked(reds, reds)
    requires game.turn == Player.Red && game.winner == Option.None
    modifies game, game.grid
    ensures game.grid == old(game.grid)
    ensures game.Valid() && Cells(game.grid) == Stacked(reds + 1, reds)
    ensures game.lastAdded == Option.Some((0, reds as int))
    ensures reds + 1 < DisksToWin ==> game.turn == Player.Yellow && game.winner == Option.None
    ensures reds + 1 == DisksToWin ==>
      game.winner == Option.Some(Player.Red) && game.turn == Player.Red &&
      game.winningCombination == [(0, 0), (0, 1), (0, 2), (0, 3)]
  {
    DropOnto(reds, reds, 0);
    game.AddDisk(0);
    StackedDrop(reds, reds, 0, Cells(game.grid));
    RedDropOutcome(reds);
  }

  /** One Yellow drop into column 1 of the datasource game on Stacked(yellows + 1, yellows). */
  method DatasourceYellowMove(game: Datasource.Game, yellows: nat)
    requires game.Valid() && yellows + 1 < DisksToWin && Cells(game.grid) == Stacked(yellows + 1, yellows)
    requires game.turn == Player.Yellow && game.winner == Option.None
    modifies game, game.grid
    ensures game.grid == old(game.grid)
    ensures game.Valid() && Cells(game.grid) == Stacked(yellows + 1, yellows + 1)
    ensures game.turn == Player.Red && game.winner == Option.None
  {
    DropOnto(yellows + 1, yellows, 1);
    game.AddDisk(1);
    StackedDrop(yellows + 1, yellows, 1, Cells(game.grid));
    YellowDropOutcome(yellows);
  }

  /** From a new datasource game the drops 0, 1, 0, 1, 0, 1, 0 make Red the winner with
      the four bottom cells of column 0 as the winning combination. */
  method DatasourceVerticalWin() returns (game: Datasource.Game)
    ensures game.Valid() && Cells(game.grid) == Stacked(4, 3)
    ensures game.winner == Option.Some(Player.Red) && game.turn == Player.Red
    ensures game.winningCombination == [(0, 0), (0, 1), (0, 2), (0, 3)]
    ensures game.lastAdded == Option.Some((0, 3))
  {
    game := new Datasource.Game();
    BoardsEqual(Cells(game.grid), Stacked(0, 0));
    DatasourceRedMove(game, 0);
    DatasourceYellowMove(game, 0);
    DatasourceRedMove(game, 1);
    DatasourceYellowMove(game, 1);
    DatasourceRedMove(game, 2);
    DatasourceYellowMove(game, 2);
    DatasourceRedMove(game, 3);
  }

  /** One Red drop into column 0 of the counting game on Stacked(reds, reds). */
  method ConnectAppRedMove(game: ConnectApp.Game, reds: nat)
    requires game.Valid() && reds < DisksToWin && Cells(game.grid) == Stacked(reds, reds)
    requires game.turn == Player.Red && game.winner == Option.None
    modifies game, game.grid
    ensures game.grid == old(game.grid)
    ensures game.Valid() && Cells(game.grid) == Stacked(reds + 1, reds)
    ensures game.lastAdded == Option.Some((0, reds as int))
    ensures reds + 1 < DisksToWin ==> game.turn == Player.Yellow && game.winner == Option.None
    ensures reds + 1 == DisksToWin ==> game.winner == Option.Some(Player.Red) && game.turn == Player.Red
  {
    DropOnto(reds, reds, 0);
    game.AddDisk(0);
    StackedDrop(reds, reds, 0, Cells(game.grid));
    RedDropOutcome(reds);
  }

  /** One Yellow drop into column 1 of the counting game on Stacked(yellows + 1, yellows). */
  method ConnectAppYellowMove(game: ConnectApp.Game, yellows: nat)
    requires game.Valid() && yellows + 1 < DisksToWin && Cells(game.grid) == Stacked(yellows + 1, yellows)
    requires game.turn == Player.Yellow && game.winner == Option.None
    modifies game, game.grid
    ensures game.grid == old(game.grid)
    ensures game.Valid() && Cells(game.grid) == Stacked(yellows + 1, yellows + 1)
    ensures game.turn == Player.Red && game.winner == Option.None
  {
    DropOnto(yellows + 1, yellows, 1);
    game.AddDisk(1);
    StackedDrop(yellows + 1, yellows, 1, Cells(game.grid));
    YellowDropOutcome(yellows);
  }

  /** From a new counting game the drops 0, 1, 0, 1, 0, 1, 0 make Red the winner. */
  method ConnectAppVerticalWin() returns (game: ConnectApp.Game)
    ensures game.Valid() && Cells(game.grid) == Stacked(4, 3)
    ensures game.winner == Option.Some(Player.Red) && game.turn == Player.Red
    ensures game.lastAdded == Option.Some((0, 3))
  {
    game := new ConnectApp.Game();
    BoardsEqual(Cells(game.grid), Stacked(0, 0));
    ConnectAppRedMove(game, 0);
    ConnectAppYellowMove(game, 0);
    ConnectAppRedMove(game, 1);
    ConnectAppYellowMove(game, 1);
    ConnectAppRedMove(game, 2);
    ConnectAppYellowMove(game, 2);
    ConnectAppRedMove(game, 3);
  }
}
