# Snake memory game: turn logic in Dafny

The game grows a self-avoiding random walk (the *trail*) on a grid of
`rows × cols` cells, starting at the centre cell. It plays the trail back one
cell per tick. The player then has to retrace it by moving the pointer over
the cells in order. Each completed round grows the trail by one cell. A wrong
cell loses. A trail that cannot grow any more wins.

This project models the turn logic of `memorygame.js` with the browser
removed:

- `grid.dfy`, module `Grid`: cells as `(row, col)` pairs, the centre origin,
  4-adjacency, and the free-neighbour query. `isInTrail` is a loop method
  proved to answer sequence membership. `findFreeNeighbours` is a loop
  method proved against the function `FreeNeighbours`. The module also holds the trail invariant
  `ValidTrail` (starts at the origin, in bounds, consecutive cells adjacent,
  no repeats) and the lemmas about it: growing by a free neighbour keeps it,
  and no trail is longer than `rows * cols`.
- `game.dfy`, module `MemoryGame`: class `Game` holds the source's globals
  `Trail` and `PlayerTrailIndex` and the board's `phase`. It also holds the
  abstract board: `active`, the set of highlighted cells, and `lines`, the
  connectors drawn, in order. The field `pending` holds the callback handed
  to `setTimeout`. Every function of the source that changes state is a
  method. The event loop's firing of a timer is `FireTimer`, which dispatches
  to the callback method.

The object invariant `Valid()` states how phase, board and pending callback
fit together between events:

- During playback, the board shows exactly the first `k` trail cells and
  the connectors between them, and step `k` is on the timer.
- While waiting at the origin, the board is empty. After the origin is
  touched, it shows the origin alone.
- During the player's turn, `1 <= PlayerTrailIndex <= |Trail|`. The board
  shows exactly `Trail[..PlayerTrailIndex]` and its connectors.
- The next computer turn is pending exactly when the index has reached
  `|Trail|`.

The entry points `Touch`, `FireTimer` and `StartNewGame` keep `Valid()`. So
do the callback methods they call, each from the state in which it is
scheduled or called. The board primitives (`SetCellState`, `DrawLine`,
`ClearBoard`), `ExtendTrail`, `YouLose` and `YouWin` are steps inside those
methods: they state their own effect and neither require nor ensure
`Valid()`.

Grid size is a constructor parameter: any positive odd `rows` and `cols`.
The source fixes both at 9. The random pick `Math.floor(Math.random() *
n)` is a caller-supplied index `choice`. It must be below the number of free
neighbours when there are any (`ChoiceFits`).

The source has a single `GAME_OVER` phase for both outcomes. Winning clears
the board first, since `beginComputerTurn` clears it before growing the
trail. Losing leaves the cells the player traced on the board. The model
follows that.

One behaviour of the source deserves a note. After the last trail cell is
traced, `beginComputerTurn` runs one tick later. A touch on an inactive cell
in that gap reads `Trail[PlayerTrailIndex]` past the end. The destructuring
then throws before anything changes. `Touch` reports this as
`outOfRange == true`, with the state unchanged.

## Model

| member | source | states |
|---|---|---|
| Grid.IsInTrail | memorygame.js:123-130 | the scan answers true exactly when (row, col) is on the trail |
| Grid.FindFreeNeighbours | memorygame.js:132-140 | returns null (`None`) exactly when none of the four neighbours is free; otherwise the non-empty list of free neighbours in the order left, right, up, down |
| Grid.KeepFreeMembers | memorygame.js:134-137 | the filter keeps exactly the candidates that are on the grid and not on the trail |
| Grid.FreeNeighboursExactly | memorygame.js:132-140 | soundness and completeness: a cell is a free neighbour iff it is one of the four neighbours, in bounds, and not on the trail |
| Grid.FreeNeighboursInOrder | memorygame.js:134 | the free neighbours are, in this order, whichever of (r,c-1), (r,c+1), (r-1,c), (r+1,c) are free |
| Grid.FreeNeighboursAdjacent | memorygame.js:134-136 | every free neighbour is 4-adjacent to the cell, in bounds, and off the trail |
| Grid.OriginIsCentre | memorygame.js:28 | for odd dimensions the origin ((rows-1)/2, (cols-1)/2) is on the grid and exactly in its centre |
| Grid.StartTrailValid | memorygame.js:191 | the one-cell trail of a new game satisfies the trail invariant |
| Grid.ExtendKeepsValid | memorygame.js:87-96 | appending a free neighbour of the last cell keeps the trail invariant (origin first, in bounds, adjacent steps, no repeats) |
| Grid.OriginFreeCount | memorygame.js:190-194 | on the origin-only trail the number of free neighbours is 2 per dimension longer than one cell, so the first extension fails only on a 1×1 grid |
| Grid.GridCellsCount | memorygame.js:20-21 | the grid has exactly rows × cols cells |
| Grid.TrailBound | memorygame.js:87-96 | a valid trail has at most rows × cols cells, since it has no repeats and stays on the grid |
| Grid.SegmentsAt | memorygame.js:116-119 | the connectors of a trail prefix are exactly one per step, the k-th joining cell k to cell k+1 |
| Grid.PrefixStep | memorygame.js:114-119 | showing one more trail cell adds that cell and, past the first, the connector from its predecessor |
| Grid.NextCellInactive | memorygame.js:68-70 | on a trail without repeats the next cell to trace is never among the cells already traced |
| MemoryGame.Game.constructor | memorygame.js:8-10 | before the first game the trail is empty, the index is 0, no phase is set, the board is empty |
| MemoryGame.Game.SetCellState | memorygame.js:40-46 | the cell is added to or removed from the active set, nothing else changes |
| MemoryGame.Game.DrawLine | memorygame.js:48-57 | one connector is appended after those already drawn |
| MemoryGame.Game.ClearBoard | memorygame.js:142-153 | no cell is active and no connector is left, whatever the board was, so clearing is idempotent; trail and phase untouched |
| MemoryGame.Game.ExtendTrail | memorygame.js:87-96 | with free neighbours, the trail grows by exactly the chosen one and earlier cells are unchanged; with none, the trail is unchanged, the game is over and the result is true; the trail invariant is kept |
| MemoryGame.Game.DisplayTrail | memorygame.js:104-121 | one playback step shows cell `index` and the connector from its predecessor and schedules step `index + 1`; past the end it schedules `goToOrigin`; the board then shows exactly the prefix played so far |
| MemoryGame.Game.BeginComputerTurn | memorygame.js:155-164 | either the game is over with the trail unchanged and an empty board, or the trail has grown by the chosen free neighbour and playback shows the origin with step 1 scheduled |
| MemoryGame.Game.GoToOrigin | memorygame.js:166-170 | the board is cleared and the phase becomes the origin wait |
| MemoryGame.Game.BeginPlayerTurn | memorygame.js:172-175 | the phase becomes the player's turn with the origin traced |
| MemoryGame.Game.YouLose | memorygame.js:177-181 | the phase becomes game over, nothing else changes |
| MemoryGame.Game.YouWin | memorygame.js:183-187 | the phase becomes game over, nothing else changes |
| MemoryGame.Game.StartNewGame | memorygame.js:190-194 | from any state: index 0, and either game over with trail [origin] (no free neighbour) or playback of a trail [origin, chosen neighbour] of length 2 |
| MemoryGame.Game.Touch | memorygame.js:59-85 | at the origin wait, the origin lights up, index becomes 1 and the player's turn is scheduled, other cells change nothing; in the player's turn an inactive cell equal to `Trail[idx]` is traced (one connector, index + 1, next computer turn scheduled at the end), any other inactive cell schedules only the loss; active cells and all other phases change nothing; a touch past the end of the trail is the error case |
| MemoryGame.Game.ReachOrigin | memorygame.js:62-67 | the origin becomes the only active cell, the index becomes 1, the player's turn is scheduled |
| MemoryGame.Game.TraceCell | memorygame.js:68-83 | a matching cell is activated, exactly the connector (Trail[idx-1], Trail[idx]) is appended and the index grows by one; a mismatch schedules only the loss and changes nothing else |
| MemoryGame.Game.FireTimer | memorygame.js:59-121 | firing the scheduled callback keeps the invariant. A playback step k shows exactly Trail[k] and the connector (Trail[k-1], Trail[k]) and schedules step k+1, or past the end schedules `goToOrigin`. `goToOrigin` clears the board into the origin wait. `beginPlayerTurn` starts the player's turn. `beginComputerTurn` ends the game with the trail unchanged exactly when the last cell has no free neighbour, and otherwise appends `free[choice]` and restarts playback at step 1. `youLose` ends the game with the board kept |
| MemoryGame.Game.PlayRemainingTrail | memorygame.js:104-121 | firing the playback steps in turn, from any step on the timer, ends with every trail cell active, the connectors equal to the consecutive pairs of the trail in order, and `goToOrigin` scheduled |
| MemoryGame.Game.TraceRemainingTrail | memorygame.js:68-80 | a player who touches the remaining trail cells in order traces the whole trail (board shows every trail cell and every connector) and gets the next computer turn scheduled, never the loss |

## Left out

- Rendering: `initializeBoard`, `getCell` and the SVG element creation and layout arithmetic (centres, radius, rounding) are not modelled. Cells are `(row, col)` pairs and connectors are pairs of cells.
- The cell-id strings `cell:row:col` and their parsing are not modelled; `Touch` receives the cell's coordinates.
- Sounds and `showMessage` are platform output with no effect on the game state.
- Timer delays are not modelled, only which callback is scheduled. `TICK_DURATION` only orders the callbacks.
- `Math.random` is replaced by the caller-supplied index `choice`.
- MemoryGame.Game.Touch: requires that no zero-delay callback (`goToOrigin`, `beginPlayerTurn`, `youLose`) is pending, i.e. such callbacks run before the next pointer event. Two pointer events inside one zero-delay window are not modelled. In the source, tracing the last cell right after a wrong one would leave `beginComputerTurn` scheduled behind `youLose`.
- MemoryGame.Game.StartNewGame: drops any callback still on the timer. In the source such stale callbacks keep running after a new game starts mid-playback. That is event-loop behaviour and is not modelled.
- MemoryGame.Game.DisplayTrail: requires the state in which the previous step scheduled it (computer turn, board showing the first `index` cells). The same applies to MemoryGame.Game.GoToOrigin, MemoryGame.Game.BeginPlayerTurn and MemoryGame.Game.BeginComputerTurn, which require the states that schedule or call them. The source functions accept any state; only `FireTimer` and `StartNewGame` reach them here.
- `youWin` is called both in `extendTrail` and in `beginComputerTurn`, as in the source. Its second call changes no modelled state.
