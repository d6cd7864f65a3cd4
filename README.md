# Minesweeper game engine, modelled in Dafny

This project models the game engine of a browser Minesweeper written as a React
component (`src/App.tsx`), together with the zero-padding loop of its counter
display (`src/Display.tsx`). The model covers these operations:

- **Mine placement on the first click.** A rejection loop adds random cell ids to
  an insertion-ordered set seeded with the clicked cell's id. It stops when the set
  holds `mineCount + 1` ids, then drops the clicked id and decodes the rest.
- **Building the adjacency list.** Two nested loops, columns outside and rows
  inside, give every cell without a mine an entry `{x, y, value}`. `value` is the
  number of neighbouring mines.
- **Revealing a cell.** The clicked cell is appended to the open cells. A mine
  loses the game. A cell of value 0 starts the recursive cascade
  `openNearCells`.
- **The cascade.** It pushes the unlisted in-bounds neighbours of a cell, then
  recurses on those whose value is 0.
- **The win test.** The number of open cells plus the mine count equals the number
  of cells. A win stops the timer.
- **Flags and the rest of the state.** Toggling flags is capped at `mineCount`.
  The model also covers `reset`, the `onUpdate` configuration change, the timer
  tick and the header's mines-left counter.

Modules:

| module | file | contents |
|---|---|---|
| `Grid` | `grid.dfy` | cells and the id encoding `x + y * columns` with its inverse. Also the eight bounds-guarded neighbour candidates, in the order the source tests them, and counting lemmas. |
| `Placement` | `placement.dfy` | the JavaScript `Set` as an insertion-ordered sequence (`Drawn`), the placement loop `PlaceMines`, and when that loop can and cannot end |
| `Adjacency` | `adjacency.dfy` | the adjacency list (`Numbers`, built by the loop method `ComputeNumbers`), the `find` lookup, and what a lookup returns |
| `FloodFill` | `floodfill.dfy` | `openNearCells` as a recursive method that updates a shared list object. It opens only fresh cells reached from the start cell and leaves every zero cell it opens with all its neighbours open; `CascadeUnique` shows that these conditions fix the set of opened cells. |
| `Game` | `game.dfy` | the component state as a class `Minesweeper` with its invariant `Valid()`, and the operations that change that state |
| `Display` | `display.dfy` | the padding loop |
| `Scenarios` | `scenarios.dfy` | three first clicks on small boards (a cascade that wins, a numbered cell, a board without mines), derived from the contracts alone |

`Math.random` is replaced by a finite sequence of draws, each an id in
`[0, rows * columns)`. When the draws run out before the set is full, the model
returns `placed = false` and `Reveal` leaves the state unchanged. Where the source
would loop forever, `PlacementNeverEnds` shows that no sequence of draws can ever
fill the set.

## Behaviour of the code that a reader may not expect

The model follows `src/App.tsx` closely, apart from what "## Left out" lists,
and keeps these consequences of the code:

- **`onUpdate` resets the game first and validates afterwards** (`src/App.tsx:108-126`).
  - The only check on integer inputs is that the mine count is at most `r * c`.
  - A refused configuration still clears the game.
  - A negative mine count is accepted. The flag cap then never applies, so
    `Valid()` states the cap only for `mineCount >= 0`.
  - `mineCount == r * c` is accepted, and the first click then never finishes
    placement (`Placement.PlacementNeverEnds`).
- **Flagged cells can be opened by the cascade.** `openNearCells` does not look at
  the flags. An open cell can therefore also be flagged, so the model does not
  claim that the two lists are disjoint. A direct click on a flagged cell is still
  ignored.
- **Losing does not stop the timer.** Of the two ways a game ends, only a win
  clears the interval (`src/App.tsx:275-280`); `reset` clears it as well
  (`src/App.tsx:90`).
- **A won game still accepts clicks.** Only a loss makes clicks ignored, so a
  later click on a mine after a win loses the game.
- **A mine click can win and lose at once.** When exactly one safe cell is still
  closed, clicking a mine appends it to the open cells (`src/App.tsx:156`). The
  open-cell count plus the mine count then equals the number of cells, so the win
  test passes and stops the timer (`src/App.tsx:275-280`), while the reveal effect
  marks the game lost (`src/App.tsx:257-260`). `Game.Minesweeper.OpenCell`'s timer
  clause states exactly this.
- **The timer starts at 1.** The first click sets it to 1 (`src/App.tsx:146`) and
  it then counts up once a second, so three ticks after the first click it shows 4.
- **The cascade runs through every zero cell it opens.** Take a 3 by 3 board
  whose only mine is at `(2, 2)`. A click on `(0, 0)` opens `(1, 0)`, `(0, 1)` and
  `(1, 1)`. One might expect the cascade to stop there, because `(1, 1)` borders
  the mine. But `(1, 0)` and `(0, 1)` have value 0 as well, so the cascade
  continues from them and opens all eight safe cells, which wins the game.
  `Scenarios.CornerMineGame` proves the eight-cell outcome.

## Model

| member | source | states |
|---|---|---|
| Grid.Range | src/App.tsx:135 | the ids a draw can produce on a board of `n` cells are exactly `0 <= i < n` |
| Grid.Neighbours | src/App.tsx:21-59 | the guarded candidates of a cell: at most eight and never repeated |
| Grid.DistinctRows | src/App.tsx:21-59 | candidates taken from the row above, the same row and the row below, each group without repetition, form a list without repetition |
| Grid.NeighboursExact | src/App.tsx:189-243 | for a board cell, the guarded candidates are exactly the in-bounds cells at Chebyshev distance one (both directions) |
| Grid.DecodeEncode | src/App.tsx:131 | the id of a board cell lies in `[0, rows*columns)` and decodes back to the same cell |
| Grid.EncodeDecode | src/App.tsx:140-143 | every id in `[0, rows*columns)` decodes to a board cell whose id is that id |
| Grid.DecodeInjective | src/App.tsx:140-143 | different non-negative ids decode to different cells |
| Grid.AllCellsCount | src/App.tsx:276 | a board has `rows * columns` cells, the total the win test compares against |
| Placement.DrawnShape | src/App.tsx:132-136 | the set starts with the clicked id, never repeats an id, and holds exactly the clicked id and the draws |
| Placement.DrawnAtMost | src/App.tsx:134-136 | with all draws on the board, the set never exceeds `rows * columns` ids |
| Placement.DrawnInRange | src/App.tsx:132-136 | every id in the set is a board id |
| Placement.DrawnReaches | src/App.tsx:134-136 | the set size passes through every value from 1 to its final size |
| Placement.PlacedSkip | src/App.tsx:134-136 | prefixes of the draws that do not fill the set do not change the outcome of placement |
| Placement.DecodedMines | src/App.tsx:137-145 | after the clicked id is deleted and the rest decoded, the mines are distinct board cells and none is the clicked cell |
| Placement.PlacementNeverEnds | src/App.tsx:134-136 | for `mineCount >= rows*columns` or `mineCount < 0`, no sequence of draws ever brings the set to `mineCount + 1` ids |
| Placement.PlacementEnds | src/App.tsx:134-136 | for `0 <= mineCount < rows*columns`, draws that cover every id bring the set to exactly `mineCount + 1` ids at some point |
| Placement.PlaceMines | src/App.tsx:130-145 | the loop stops at the first prefix of the draws that fills the set, or when the draws run out. When placed, it gives exactly `mineCount` distinct in-bounds mines that avoid the click, and agrees with `Placed`. |
| Adjacency.LookupFound | src/App.tsx:263 | a value found by lookup belongs to an entry for that cell |
| Adjacency.CountIn | src/App.tsx:188-243 | the count along a candidate list never exceeds its length, which bounds every adjacency value by 8 in `CountIsMineNeighbours` |
| Adjacency.CountInSet | src/App.tsx:188-243 | counting mines along distinct candidates counts a set |
| Adjacency.CountIsMineNeighbours | src/App.tsx:188-243 | the guarded count equals the number of adjacent in-bounds mines, at most 8 |
| Adjacency.CountMineNeighbours | src/App.tsx:188-243 | the counting code's result is the number of adjacent mines, at most 8 |
| Adjacency.LookupAppend | src/App.tsx:244 | appending an entry changes a lookup only when the cell had no entry before |
| Adjacency.EntriesUpTo | src/App.tsx:182-246 | every entry pushed so far is a board cell without a mine, already passed by the loops, carrying its mine count, in column-major order |
| Adjacency.LookupUpTo | src/App.tsx:182-246 | partway through the loops, a board cell has an entry exactly when the loops have passed it and it is not a mine |
| Adjacency.LookupNumbers | src/App.tsx:179-248 | in the finished list a board cell has no entry if it is a mine. Otherwise its entry's value is its number of adjacent mines. |
| Adjacency.NoMinesAllZero | src/App.tsx:179-248 | with an empty mine list every board cell has an entry of value 0 |
| Adjacency.NumbersFacts | src/App.tsx:179-248 | the finished list: the lookup characterisation, entries on the board and off mines with values 0..8, no cell listed twice |
| Adjacency.ComputeNumbers | src/App.tsx:179-248 | the nested loops build exactly `Numbers`, and so every property of `NumbersFacts` |
| FloodFill.Unlisted | src/App.tsx:20-60 | `toCheck` holds exactly the candidates not in `result`, without repetition |
| FloodFill.GrowsFreshTrans | src/App.tsx:62-68 | two pushes of fresh board cells make one |
| FloodFill.GrowsFreshKeeps | src/App.tsx:62 | pushing fresh board cells keeps the list repetition-free and on the board |
| FloodFill.SurroundedGrows | src/App.tsx:62 | a list holding every neighbour of a cell still does after further pushes |
| FloodFill.FewerUnlisted | src/App.tsx:62-66 | appending at least one fresh board cell shrinks the set of unlisted board cells, so the recursion terminates |
| FloodFill.FirstPush | src/App.tsx:20-62 | the push adds fresh board cells, each a neighbour of the zero cell and so reached from it, and leaves every neighbour of the zero cell listed |
| FloodFill.CascadeStep | src/App.tsx:63-68 | handling one `toCheck` cell keeps every other zero cell closed and marks that cell as done when it is a zero cell whose neighbours are now listed |
| FloodFill.ReachedStep | src/App.tsx:63-68 | cells appended by the recursive call from a zero cell `q` that was reached from `p` are reached from `p` too |
| FloodFill.LoopStep | src/App.tsx:63-68 | one round of the loop, recursing exactly when the cell's value is 0, keeps freshness, the listing of `p`'s neighbours, reachability from `p`, and closure of the handled zero cells |
| FloodFill.OpenNearCells | src/App.tsx:12-69 | The cascade from a zero cell `p` appends only fresh board cells. Each appended cell is a neighbour of `p` or of a zero cell appended before it. Every neighbour of `p` ends up listed, and so does every neighbour of each appended zero cell. |
| FloodFill.ReachedWithin | src/App.tsx:12-69 | every cell a cascade reaches from `p` is in any extension of the list that holds `p`'s neighbours and is closed over its appended zero cells |
| FloodFill.CascadeUnique | src/App.tsx:12-69 | two lists appended after the same prefix that are both fresh, reached from `p`, hold `p`'s neighbours and are closed hold the same cells, so `OpenNearCells` opens exactly the cells the cascade must reach |
| FloodFill.BordersZeroIsSafe | src/App.tsx:179-248 | a board cell next to a cell of value 0 is not a mine, so the cascade never opens a mine |
| Game.IndexOf | src/App.tsx:169 | `findIndex`: -1 exactly when absent, otherwise the first position of the cell |
| Game.ToggleMark | src/App.tsx:164-177 | no change on an open cell. Otherwise the cell is flagged exactly when it was unflagged and the cap was not reached. Other flags are untouched, there is no repetition, and the cap is kept. |
| Game.FlagThenUnflag | src/App.tsx:164-177 | toggling a closed, unflagged cell twice gives back the original flags |
| Game.WonMeansSafeCellsOpen | src/App.tsx:275-280 | under the invariants, the win test holds exactly when the open cells are all the cells without a mine |
| Game.Minesweeper.constructor | src/App.tsx:76-87 | initial state: 10 by 10 board, 10 mines, no mines placed, no open or flagged cells, time 0, timer stopped |
| Game.Minesweeper.MinesLeft | src/App.tsx:291 | the header counter stays within `[0, mineCount]` while the mine count is not negative |
| Game.Minesweeper.Reset | src/App.tsx:89-97 | clears mines, numbers, open cells, flags, time and the loss flag, stops the timer, and keeps size and mine count |
| Game.Minesweeper.Update | src/App.tsx:108-126 | always resets. It takes the new configuration exactly when `r * c >= m`; otherwise it keeps the old one. |
| Game.Minesweeper.Tick | src/App.tsx:147-149 | the time grows by one per tick while the timer runs, and nothing else changes |
| Game.Minesweeper.MarkCell | src/Field.tsx:132-138 | ignored after a loss, otherwise the flags become `ToggleMark` of the old flags, and nothing else changes |
| Game.Minesweeper.Reveal | src/App.tsx:128-162 | The full first-click and reveal contract. Ignored after a loss. On the first click the mines are exactly the placement outcome and avoid the click. Once it finishes, there are `mineCount` mines and the adjacency list is the one built for them. The time becomes 1 on the first click and is otherwise unchanged. The timer is stopped by a win, started by the first click and otherwise unchanged. A flagged or open cell opens nothing. A new cell is appended and loses exactly when it is a mine. A mine or a cell of non-zero value opens only itself, and no other newly opened cell is a mine. Each further opened cell is reached from the click through zero cells. A zero cell has all its neighbours opened and the cascade is closed. |
| Game.Minesweeper.PlaceOnFirstClick | src/App.tsx:130-150 | placement runs only while there are no mines. It gives the `Placed` outcome, rebuilds the adjacency list, and sets time to 1 with the timer running. |
| Game.Minesweeper.OpenCell | src/App.tsx:250-280 | the reveal effect and win effect once the mines are placed. A click on a mine loses without a cascade, and a click on a cell of non-zero value opens only that cell. A zero cell cascades, and every further opened cell is reached from the click through zero cells and is not a mine. The timer stops exactly when the click opened something and the win test holds; time, mines and the adjacency list do not change. |
| Game.HitMineAppend | src/App.tsx:156 | opening one more cell hits a mine exactly when that cell or an earlier open cell is a mine |
| Game.Cascaded | src/App.tsx:268-271 | after a cascade that only reaches cells through zero cells, the open cells stay distinct board cells and no newly opened cell is a mine |
| Display.Pad | src/Display.tsx:3-6 | the result has length `max(3, |value|)` and ends with `value`, all characters before it are `'0'`, and a value of three or more characters is unchanged |
| Scenarios.CornerMineValues | src/App.tsx:179-248 | on a 3 by 3 board with the mine at `(2,2)`, the cells `(0,0)`, `(1,0)`, `(0,1)` have value 0 and `(1,1)` has value 1 |
| Scenarios.OpenedAll | src/App.tsx:12-69 | once the cascade from `(0,0)` is closed over the zero cells `(1,0)` and `(0,1)`, every cell but `(2,2)` is open |
| Scenarios.CornerMineGame | src/App.tsx:128-280 | the first click on `(0,0)` with the mine drawn at `(2,2)` opens all eight safe cells, wins and stops the timer |
| Scenarios.CornerPlacement | src/App.tsx:130-145 | one mine on a 3 by 3 board clicked at `(0,0)`, with the single draw 8, lands on `(2,2)` |
| Scenarios.CornerWin | src/App.tsx:250-280 | what `Reveal` promises about that first click forces the open cells to be the eight safe cells, which wins |
| Scenarios.NumberedClickGame | src/App.tsx:128-280 | a first click on `(2,0)` of a 1 by 4 board with the mine drawn at `(3,0)` opens only the clicked cell, does not win, leaves the timer running and sets time 1 |
| Scenarios.NumberedPlacement | src/App.tsx:130-145 | one mine on a 1 by 4 board clicked at `(2,0)`, with the single draw 3, lands on `(3,0)` |
| Scenarios.NumberedValue | src/App.tsx:179-248 | on that board the clicked cell `(2,0)` has value 1 |
| Scenarios.MineFreeGame | src/App.tsx:128-280 | a 1 by 2 board without mines is won by the first click, with both cells open, time 1 and the timer stopped |
| Scenarios.MineFreePlacement | src/App.tsx:130-145 | with a mine count of 0, placement finishes before any draw with no mines |
| Scenarios.MineFreeWin | src/App.tsx:250-280 | on a 1 by 2 board without mines, the open cells after a click on `(0,0)` are both cells, which wins |

## Left out

- Canvas drawing, hover highlighting, the `alert` messages and the input fields
  are rendering only. `src/Field.tsx` enters the model only through its guard that
  ignores clicks after a loss (`src/Field.tsx:124-137`).
- `Math.random` and its distribution are not modelled. The draws are an explicit
  finite sequence of ids, so the model says nothing about uniformity. When the
  draws run out, the model stops with `placed = false` where the source would keep
  drawing.
- Timers are modelled only as the `clockRunning` flag and the `Tick` operation.
  Real time and callback scheduling are left out.
- Game.Minesweeper.constructor, Game.Minesweeper.Reset, Game.Minesweeper.Update:
  these leave the adjacency list empty. In the source the adjacency effect
  (`src/App.tsx:179-248`) runs on mount and again after every reset or change of
  the mine list. Before the first click the list therefore holds every board cell
  with value 0 (`Adjacency.NoMinesAllZero`). Nothing reads the list before the
  first click rebuilds it, so the model keeps it empty until then.
- React's effect scheduling is not modelled. `Reveal` runs the click, the
  adjacency effect, the reveal effect and the win effect as one synchronous step,
  using the list built for the new mines. On the first click the source's handler
  sets the mines, the open cells and the click flag (`src/App.tsx:139-157`).
  Within one commit every effect reads the adjacency list of that render, so the
  adjacency effect's update (`src/App.tsx:247`) reaches the reveal effect only in
  a later render. If React batches the handler's updates into one render, the
  reveal effect of the first click reads the all-zero list built for the empty
  mine list and the cascade spreads over the whole board, mines included. If
  each update renders on its own, the adjacency effect has run before the render
  in which the click flag is set, and the reveal effect reads the fresh list. The
  model takes the second behaviour and does not model React's batching.
- The `isClick` flag of the source is only the trigger of the reveal effect, and
  the model folds it into `Reveal`.
- `Number(...)` parsing of the inputs and the `NaN` check of `onUpdate`
  (`src/App.tsx:110-117`) are left out. `Update` receives integers, so
  fractional and `NaN` values are not modelled.
- Game.Minesweeper.Reveal: with a mine count of 0 the mine list stays empty. Every
  click then runs placement again, which resets time to 1 and starts a further
  interval in the source. The model has a single timer flag, so it does not count
  the extra intervals.
- Game.Minesweeper.Reveal: the contract does not say that an open cell is never
  flagged, because the cascade in the source can open flagged cells.
- `./utils` (the cell size constant) is not part of this model.
