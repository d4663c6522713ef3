# Connect four engines, modelled in Dafny

The app holds two versions of its connect-four engine:

- `com.javidran.connectapp.datasource.Game` is the newer engine that the UI imports.
- `com.javidran.connectapp.Game` is the older one.

Both keep the same state:

- a 7 x 6 grid of disks (`Empty`, `Red`, `Yellow`), indexed `[column][row]` with row 0 at the bottom;
- the player to move;
- the last placed cell;
- the winner.

The newer engine also keeps `winningCombination`, the cells of the winning runs.

A drop (`addDisk`) puts the mover's disk on the lowest Empty cell of a column. It then scans the four lines through that cell: the row, the column, the "/" diagonal and the "\" diagonal. If one of them holds four consecutive disks of the mover's colour, the mover is the winner. Otherwise the turn passes.

The two engines differ in how they scan a line:

- The old engine counts consecutive disks (`checkDisk`) and stops at four.
- The new engine walks every line to its end. It collects cells in a list that freezes once it holds four (`increaseOrResetWinningCombination`), keeps that list only if it reached four (`returnWinningCombinationIfWon`), and concatenates the results of the four lines.

The project has five files:

- `grid.dfy` (module `Grid`) holds what both engines share:
  - the constants 7, 6 and 4;
  - the disk and player enumerations, and a nullable `Option`;
  - the value snapshot `Cells` of the grid array;
  - `chooseDiskColor` and the turn hand-over;
  - the gravity invariant, and the lowest-Empty-cell search of `addDisk`.
- `lines.dfy` (module `Lines`) holds the cells each scan visits, built from the source's own start-cell arithmetic for the diagonals. It also holds the reference meaning of "four in a row" (`RunAt`, `HasRun`, `FourInARow`), against which both engines are proved.
- `connectapp_game.dfy` (module `ConnectApp`) is the old engine, as a class over an `array2` grid.
- `datasource_game.dfy` (module `Datasource`) is the new engine. It contains:
  - the reference `FirstRun` of a line (the first four consecutive cells of the mover's colour, or empty);
  - the functional model `Scan` of the collecting loop;
  - the class.
- `scenarios.dfy` (module `Scenarios`) plays the drops 0, 1, 0, 1, 0, 1, 0 on a new game of each engine, calling the engine's own `AddDisk`. It proves Red's vertical win and winning cells [(0,0),(0,1),(0,2),(0,3)].

Three places where the code does something easy to overlook are modelled as written:

- `addDisk` has no "winner already set" guard. After a win, a drop into a non-full column is still placed. Only the UI stops play.
- The datasource `resetGame` resets the grid, turn, last cell and winner, but leaves `winningCombination` as it was.
- `isTheGameFinished` concatenates the runs of all four lines instead of stopping at the first one. So `winningCombination` can hold 4, 8, 12 or 16 cells.

## Model

| member | source | states |
|---|---|---|
| Grid.ChooseDiskColor | app/src/main/java/com/javidran/connectapp/datasource/Game.kt:58-64 | the mover drops a non-Empty disk, red exactly when the turn is Red (same code in the old engine, Game.kt:57-63) |
| Grid.NextTurn | app/src/main/java/com/javidran/connectapp/datasource/Game.kt:156-162 | the turn handed over is never None and always the other player; from None it is Red |
| Grid.TopFilledUnderGravity | app/src/main/java/com/javidran/connectapp/datasource/Game.kt:45-47 | under gravity, isColumnFull's test of the top cell holds exactly when the column holds Rows disks |
| Grid.TopRowFullUnderGravity | app/src/main/java/com/javidran/connectapp/datasource/Game.kt:49-56 | under gravity, every top cell filled (isGridFull) is the same as all 42 cells filled |
| Grid.LowestEmpty | app/src/main/java/com/javidran/connectapp/datasource/Game.kt:28-29 | the row addDisk's loop stops at is Empty, and every cell below it is filled |
| Grid.LowestEmptyIsStackTop | app/src/main/java/com/javidran/connectapp/datasource/Game.kt:28-29 | under gravity, every cell from that row to the top is Empty |
| Grid.DropKeepsGravity | app/src/main/java/com/javidran/connectapp/datasource/Game.kt:28-31 | filling the lowest Empty cell of a column with a disk keeps gravity |
| Lines.HorizontalLine | app/src/main/java/com/javidran/connectapp/datasource/Game.kt:76-79 | checkHorizontal visits the 7 cells (k, row) of the row, in column order, all on the board |
| Lines.VerticalLine | app/src/main/java/com/javidran/connectapp/datasource/Game.kt:85-88 | checkVertical visits the 6 cells (column, k) of the column, bottom up, all on the board |
| Lines.UpwardStart | app/src/main/java/com/javidran/connectapp/datasource/Game.kt:93-102 | the upward scan starts on the board, on the "/" diagonal of the placed cell, at the left or bottom edge |
| Lines.UpwardLine | app/src/main/java/com/javidran/connectapp/datasource/Game.kt:104-109 | every cell the upward scan visits is on the board |
| Lines.UpwardLineIndex | app/src/main/java/com/javidran/connectapp/datasource/Game.kt:104-109 | step k of the loop is inside both bounds exactly when k indexes the line, and it visits (start + k, start + k) |
| Lines.UpwardLineCoversDiagonal | app/src/main/java/com/javidran/connectapp/datasource/Game.kt:92-111 | a cell is visited by the upward scan if and only if it is on the board and on the "/" diagonal through the placed cell |
| Lines.DownwardStart | app/src/main/java/com/javidran/connectapp/datasource/Game.kt:114-123 | the downward scan starts on the board, on the "\" diagonal of the placed cell, at the left or top edge |
| Lines.DownwardLine | app/src/main/java/com/javidran/connectapp/datasource/Game.kt:125-130 | every cell the downward scan visits is on the board |
| Lines.DownwardLineIndex | app/src/main/java/com/javidran/connectapp/datasource/Game.kt:125-130 | step k of the loop is inside both bounds exactly when k indexes the line, and it visits (start + k, start - k) |
| Lines.DownwardLineCoversDiagonal | app/src/main/java/com/javidran/connectapp/datasource/Game.kt:113-132 | a cell is visited by the downward scan if and only if it is on the board and on the "\" diagonal through the placed cell |
| Lines.TrailingRunReachesFour | app/src/main/java/com/javidran/connectapp/Game.kt:76-78 | a run count of the mover's colour reaches 4 exactly when the last four cells form a run |
| Lines.RunWithinNext | app/src/main/java/com/javidran/connectapp/Game.kt:74-80 | when no run was met so far, one more cell completes a run exactly when the count reaches 4 |
| ConnectApp.CheckDiskStep | app/src/main/java/com/javidran/connectapp/Game.kt:124-126 | checkDisk's counter is the length of the mover-coloured run ending at the current cell, and it reaches 4 only when the line holds four in a row |
| ConnectApp.Game.constructor | app/src/main/java/com/javidran/connectapp/Game.kt:8-15 | a new game has an empty grid (so gravity), Red to move, no last cell and no winner |
| ConnectApp.Game.ResetGame | app/src/main/java/com/javidran/connectapp/Game.kt:17-22 | reset gives a fresh empty grid, Red to move, no last cell and no winner |
| ConnectApp.Game.AddDisk | app/src/main/java/com/javidran/connectapp/Game.kt:24-40 | a full column or full grid changes nothing. Otherwise exactly the lowest Empty cell of the column gets the mover's disk and lastAdded becomes that cell. A four in a row through it makes the mover the winner and keeps the turn; without one, the winner is unchanged and the turn passes. Gravity is preserved. |
| ConnectApp.Game.PlaceDisk | app/src/main/java/com/javidran/connectapp/Game.kt:26-37 | the accepted drop: the same new state as AddDisk's accepted branch |
| ConnectApp.Game.EndMove | app/src/main/java/com/javidran/connectapp/Game.kt:31-35 | a four in a row through the placed cell sets winner := turn and keeps the turn; otherwise the turn passes and the winner is unchanged |
| ConnectApp.Game.GravityAfterDrop | app/src/main/java/com/javidran/connectapp/Game.kt:29 | the grid after the drop keeps the gravity of the grid before it |
| ConnectApp.Game.IsGridFull | app/src/main/java/com/javidran/connectapp/Game.kt:48-55 | true exactly when the top cell of every column is filled |
| ConnectApp.Game.ChangeTurn | app/src/main/java/com/javidran/connectapp/Game.kt:129-135 | the turn becomes the other player and nothing else changes |
| ConnectApp.Game.IsTheGameFinished | app/src/main/java/com/javidran/connectapp/Game.kt:65-70 | true exactly when one of the four lines through the cell holds four consecutive disks of the mover's colour |
| ConnectApp.Game.CheckHorizontal | app/src/main/java/com/javidran/connectapp/Game.kt:72-81 | true exactly when the row holds four consecutive mover-coloured disks |
| ConnectApp.Game.CheckVertical | app/src/main/java/com/javidran/connectapp/Game.kt:83-92 | true exactly when the column holds four consecutive mover-coloured disks |
| ConnectApp.Game.CheckUpwardDiagonal | app/src/main/java/com/javidran/connectapp/Game.kt:94-107 | true exactly when the "/" diagonal holds four consecutive mover-coloured disks |
| ConnectApp.Game.CheckDownwardDiagonal | app/src/main/java/com/javidran/connectapp/Game.kt:109-122 | true exactly when the "\" diagonal holds four consecutive mover-coloured disks |
| Datasource.FirstRunFromIs | app/src/main/java/com/javidran/connectapp/datasource/Game.kt:134-146 | the first run at or after k is found at the first index j that starts one |
| Datasource.FirstRunFromMeaning | app/src/main/java/com/javidran/connectapp/datasource/Game.kt:134-146 | the search from k is empty if and only if no run starts at k or later, and otherwise returns the four cells of the first such run |
| Datasource.FirstRunMeaning | app/src/main/java/com/javidran/connectapp/datasource/Game.kt:148-154 | a line's first run is empty if and only if the line has no four in a row; otherwise it is the four cells of the run at the earliest index, all on the board and of the mover's colour |
| Datasource.FirstRunShape | app/src/main/java/com/javidran/connectapp/datasource/Game.kt:148-154 | a line's first run is empty exactly when the line has no run, has 0 or 4 cells, and its cells hold the mover's colour |
| Datasource.AccumulateStep | app/src/main/java/com/javidran/connectapp/datasource/Game.kt:134-146 | increaseOrResetWinningCombination keeps the list frozen once it holds the first run; before that, the list is the trailing mover-coloured run, shorter than 4 |
| Datasource.TrailingStep | app/src/main/java/com/javidran/connectapp/datasource/Game.kt:139-145 | before any run, appending a mover-coloured cell or resetting keeps the list equal to the trailing run; it becomes the first run when it reaches 4 |
| Datasource.AccumulatedResult | app/src/main/java/com/javidran/connectapp/datasource/Game.kt:148-154 | at the end of a line, returnWinningCombinationIfWon yields exactly the line's first run |
| Datasource.ScanAccumulated | app/src/main/java/com/javidran/connectapp/datasource/Game.kt:76-79 | after any prefix of a line, the collected list is in the state AccumulateStep describes |
| Datasource.ScanFindsFirstRun | app/src/main/java/com/javidran/connectapp/datasource/Game.kt:74-81 | each collecting check returns the line's first run of four, or empty |
| Datasource.WinningCombinationMeaning | app/src/main/java/com/javidran/connectapp/Game.kt:125 | the concatenated winning combination is non-empty exactly when the old engine's counting test finds four in a row, so the list-based rewrite the TODO proposes decides the same wins. Its length is 0, 4, 8, 12 or 16, and all its cells are on the board and of the mover's colour |
| Datasource.Game.constructor | app/src/main/java/com/javidran/connectapp/datasource/Game.kt:8-17 | a new game has an empty grid, Red to move, no last cell, no winner and no winning cells |
| Datasource.Game.ResetGame | app/src/main/java/com/javidran/connectapp/datasource/Game.kt:19-24 | reset gives a fresh empty grid, Red to move, no last cell and no winner, and leaves winningCombination unchanged |
| Datasource.Game.AddDisk | app/src/main/java/com/javidran/connectapp/datasource/Game.kt:26-42 | a full column or full grid changes nothing, winningCombination included. Otherwise exactly the lowest Empty cell of the column gets the mover's disk, lastAdded is that cell, and winningCombination is the concatenated first runs through it. A non-empty list makes the mover the winner and keeps the turn; an empty one passes the turn. Gravity is preserved. |
| Datasource.Game.PlaceDisk | app/src/main/java/com/javidran/connectapp/datasource/Game.kt:28-39 | the accepted drop: the same new state as AddDisk's accepted branch |
| Datasource.Game.EndMove | app/src/main/java/com/javidran/connectapp/datasource/Game.kt:33-37 | winningCombination is recorded; when it is non-empty, winner := turn and the turn is kept, and otherwise the turn passes |
| Datasource.Game.GravityAfterDrop | app/src/main/java/com/javidran/connectapp/datasource/Game.kt:31 | the grid after the drop keeps the gravity of the grid before it |
| Datasource.Game.IsGridFull | app/src/main/java/com/javidran/connectapp/datasource/Game.kt:49-56 | true exactly when the top cell of every column is filled |
| Datasource.Game.ChangeTurn | app/src/main/java/com/javidran/connectapp/datasource/Game.kt:156-162 | the turn becomes the other player and nothing else changes |
| Datasource.Game.IsTheGameFinished | app/src/main/java/com/javidran/connectapp/datasource/Game.kt:66-72 | winningCombination becomes horizontal + vertical + upward + downward first runs; the result is true exactly when that list is non-empty, which is exactly when some line through the cell holds four of the mover's colour |
| Datasource.Game.CheckHorizontal | app/src/main/java/com/javidran/connectapp/datasource/Game.kt:74-81 | returns the first four consecutive mover-coloured cells of the row, or empty |
| Datasource.Game.CheckVertical | app/src/main/java/com/javidran/connectapp/datasource/Game.kt:83-90 | returns the first four consecutive mover-coloured cells of the column, or empty |
| Datasource.Game.CheckUpwardDiagonal | app/src/main/java/com/javidran/connectapp/datasource/Game.kt:92-111 | returns the first four consecutive mover-coloured cells of the "/" diagonal, or empty |
| Datasource.Game.CheckDownwardDiagonal | app/src/main/java/com/javidran/connectapp/datasource/Game.kt:113-132 | returns the first four consecutive mover-coloured cells of the "\" diagonal, or empty |
| Scenarios.DatasourceVerticalWin | app/src/main/java/com/javidran/connectapp/datasource/Game.kt:26-42 | from a new game, the drops 0,1,0,1,0,1,0 leave Red the winner, still to move, with lastAdded (0,3) and winningCombination [(0,0),(0,1),(0,2),(0,3)] |
| Scenarios.ConnectAppVerticalWin | app/src/main/java/com/javidran/connectapp/Game.kt:24-40 | from a new game, the same drops leave Red the winner, still to move, with lastAdded (0,3) |

## Left out

- The UI (`ui/GameUI.kt`, `ui/theme/Theme.kt`, `ui/theme/Type.kt`), `MainActivity.kt` and the view model (`movelview/GameViewModel.kt`) are not part of this model. This covers Compose state publishing, the copy of the grid handed to the UI, the re-entrancy flag and the win tallies.
- A column index outside 0..6 is a precondition of `AddDisk`. The source indexes `grid[column]` without a check, so such a call fails there rather than being ignored.
- `addDisk`'s `for` loop with `break` is modelled as a `while` loop that searches for the lowest Empty row, followed by the placement. The cells visited and the cell written are the same.
- `checkDisk` and `increaseOrResetWinningCombination` read the grid cell and the mover's colour themselves. In the model, the caller passes in the cell's disk and the colour.
- The old engine joins its four checks with Kotlin's non-short-circuit `or`, so all four scans always run. The model calls all four in the same order. None of them changes state, so only the result matters.
- The scenario is proved for the vertical-win game only. Other drop sequences are covered by `AddDisk`'s contract, not replayed.
