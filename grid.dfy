/**
 * The board, the disks and the players that both connect-four engines share:
 * the board constants, the colour a player drops, the turn hand-over and the
 * gravity rule that every drop keeps.
 */
module Grid {

  /** NUMBER_OF_COLUMNS, NUMBER_OF_ROWS and NUMBER_OF_DISKS_TO_WIN of both engines. */
  const Columns: nat := 7
  const Rows: nat := 6
  const DisksToWin: nat := 4

  /** The content of one cell. */
  datatype Disk = Empty | Red | Yellow

  /** A player; `None` exists in the enumeration but is never the player to move. */
  datatype Player = Red | Yellow | None

  /** A nullable value (Kotlin's `T?`). */
  datatype Option<T> = None | Some(value: T)

  /** A cell address (column, row); row 0 is the bottom of a column. */
  type Cell = (int, int)

  /** A snapshot of the grid as values, indexed [column][row]. */
  type Board = seq<seq<Disk>>

  predicate InBounds(column: int, row: int) {
    0 <= column < Columns && 0 <= row < Rows
  }

  predicate WellFormed(b: Board) {
    |b| == Columns && forall c :: 0 <= c < Columns ==> |b[c]| == Rows
  }

  function At(b: Board, cell: Cell): Disk
    requires WellFormed(b) && InBounds(cell.0, cell.1)
  {
    b[cell.0][cell.1]
  }

  /** The value of a Columns x Rows grid array, column by column. */
  function Cells(g: array2<Disk>): (b: Board)
    reads g
    requires g.Length0 == Columns && g.Length1 == Rows
    ensures WellFormed(b)
    ensures forall c, r :: InBounds(c, r) ==> b[c][r] == g[c, r]
  {
    seq(Columns, (c: int) requires 0 <= c < Columns reads g =>
      seq(Rows, (r: int) requires 0 <= r < Rows reads g => g[c, r]))
  }

  /** chooseDiskColor: the player to move drops a red disk if Red, a yellow one otherwise. */
  function ChooseDiskColor(turn: Player): (d: Disk)
    ensures d != Disk.Empty
    ensures d == Disk.Red <==> turn == Player.Red
  {
    if turn == Player.Red then Disk.Red else Disk.Yellow
  }

  /** The player changeTurn hands the move to. */
  function NextTurn(turn: Player): (next: Player)
    ensures next != Player.None
    ensures turn != Player.None ==> next != turn
    ensures turn == Player.None ==> next == Player.Red
  {
    if turn == Player.Red then Player.Yellow else Player.Red
  }

  /** Gravity: in every column a filled cell has only filled cells below it. */
  ghost predicate Gravity(b: Board)
    requires WellFormed(b)
  {
    forall c, lo, hi :: 0 <= c < Columns && 0 <= lo <= hi < Rows && b[c][hi] != Disk.Empty ==> b[c][lo] != Disk.Empty
  }

  /** Under gravity a column whose top cell is filled holds Rows disks. */
  lemma TopFilledUnderGravity(b: Board, column: int)
    requires WellFormed(b) && Gravity(b) && 0 <= column < Columns
    ensures b[column][Rows - 1] != Disk.Empty <==> forall r :: 0 <= r < Rows ==> b[column][r] != Disk.Empty
  {
  }

  /** Under gravity the top cell of every column is filled exactly when every cell is. */
  lemma TopRowFullUnderGravity(b: Board)
    requires WellFormed(b) && Gravity(b)
    ensures (forall c :: 0 <= c < Columns ==> b[c][Rows - 1] != Disk.Empty) <==>
            (forall c, r :: InBounds(c, r) ==> b[c][r] != Disk.Empty)
  {
  }

  /** The index the drop loop stops at: the lowest Empty cell of a column. */
  function LowestEmpty(column: seq<Disk>): (row: nat)
    requires Disk.Empty in column
    ensures row < |column| && column[row] == Disk.Empty
    ensures forall i :: 0 <= i < row ==> column[i] != Disk.Empty
  {
    if column[0] == Disk.Empty then 0 else 1 + LowestEmpty(column[1..])
  }

  /** A cell that is Empty with only filled cells below it is the lowest Empty cell. */
  lemma {:induction false} LowestEmptyAt(column: seq<Disk>, row: nat)
    requires row < |column| && column[row] == Disk.Empty
    requires forall i :: 0 <= i < row ==> column[i] != Disk.Empty
    ensures LowestEmpty(column) == row
  {
    if row > 0 {
      LowestEmptyAt(column[1..], row - 1);
    }
  }

  /** Two boards that agree on every cell are the same board. */
  lemma BoardsEqual(b: Board, b': Board)
    requires WellFormed(b) && WellFormed(b')
    requires forall c, r :: InBounds(c, r) ==> b[c][r] == b'[c][r]
    ensures b == b'
  {
    forall c | 0 <= c < Columns
      ensures b[c] == b'[c]
    {
      assert forall r :: 0 <= r < Rows ==> b[c][r] == b'[c][r];
    }
  }

  /** Under gravity the lowest Empty cell of a column is the first cell above its stack:
      everything from it to the top is Empty. */
  lemma LowestEmptyIsStackTop(b: Board, column: int)
    requires WellFormed(b) && 0 <= column < Columns && Disk.Empty in b[column]
    requires Gravity(b)
    ensures forall r :: LowestEmpty(b[column]) <= r < Rows ==> b[column][r] == Disk.Empty
  {
  }

  /** Filling the lowest Empty cell of a column with a disk keeps gravity. */
  lemma DropKeepsGravity(b: Board, b': Board, column: int, d: Disk)
    requires WellFormed(b) && WellFormed(b') && 0 <= column < Columns && Disk.Empty in b[column]
    requires d != Disk.Empty
    requires forall c, r :: InBounds(c, r) ==>
      b'[c][r] == if c == column && r == LowestEmpty(b[column]) then d else b[c][r]
    requires Gravity(b)
    ensures Gravity(b')
  {
    var row := LowestEmpty(b[column]);
    forall c, lo, hi | 0 <= c < Columns && 0 <= lo <= hi < Rows && b'[c][hi] != Disk.Empty
      ensures b'[c][lo] != Disk.Empty
    {
      if c == column && lo != row {
        if hi == row {
          assert lo < row;
        } else {
          assert b[c][hi] != Disk.Empty;
        }
      }
    }
  }
}
