# Conway's Game of Life in the terminal — a verified model

This project models the deterministic core of a small terminal Game of
Life written in Python:

- **`Core`** (`core.dfy`, after `core.py`): `next_generation`, the B3/S23
  step over the eight-cell Moore neighbourhood, on a bounded board or on
  a torus where both indices wrap. Also `is_cyclical`, the detector that
  asks whether a list of integers repeats with some period between 1 and
  half its length.
- **`Geometry`** (`geometry.dfy`, after `utils.py`): pattern transforms.
  `rotate_pattern` turns a list of (row, column) offsets by 90, 180 or
  270 degrees and re-anchors the result at (0, 0). `flip_pattern` mirrors
  a pattern about its largest column.
- **`LifeGame`** (`life_game.dfy`, after `life_game.py`): the older
  program's own non-wrapping copy of the step. Also the bookkeeping of its
  main loop `run`: the live-cell count, the stagnation counter, the dead
  condition, and the endless restart.

Boards are `seq<seq<bool>>`. A board is well formed when it has at least
one row and every row is as wide as the first; the source reads the width
from `board[0]` and fails on an empty board. Patterns are `seq<(int, int)>`.

Both `next_generation` functions build a fresh board with nested loops.
Here they are methods with those loops, proved equal to the function
`Core.Next`. Every property of the step is then proved about `Next`.

- `is_cyclical` is a method with its two loops and early exit, proved
  equal to the predicate `Core.Cyclical`.
- The pattern transforms are list comprehensions. Here they are
  functions, with closed forms for every turn and the rotation and mirror
  laws proved over them.
- The state that `run` updates on each pass of its `while True` loop is
  the class `LifeGame.Simulation`, and one pass is the method `Tick`. A
  ghost history of the live counts ties the stagnation counter to its
  meaning: the counter reaches N exactly when the last N + 1 recorded
  counts agree. Every method states how it changes that history, so the
  tie can be used by a caller of `Tick` (`LifeGame.StepThenCheck`).

Python's `%` floors and Dafny's is Euclidean. They agree for the positive
divisors of the torus branch (the row and column counts), so the wrap is
written with Dafny's `%`. Integers are unbounded on both sides.

`flip_pattern` mirrors about the largest column, so flipping twice
shifts every column left by the smallest one. `Geometry.FlipTwice` proves
this, and `Geometry.FlipInvolution` proves that flipping is an involution
on patterns whose smallest column is 0.

## Model

| member | source | states |
|---|---|---|
| Core.NextGeneration | core.py:6-30 | The nested loops build a board equal to `Next(board, torus)`: same row and column counts, each cell decided by `Rule` from the unchanged input's neighbour count. |
| Core.CountNeighbours | core.py:13-25 | The offset loops skip (0, 0) and count exactly `NeighbourCount`, the sum over the eight offsets in loop order; each visit wraps both indices modulo the board size on a torus, and skips a neighbour off the board otherwise. |
| Core.NeighbourAt | core.py:19-25 | One offset's contribution, 0 or 1: on a torus the neighbour at `((r + dr) mod rows, (c + dc) mod cols)`, otherwise the neighbour at `(r + dr, c + dc)` if it lies on the board. |
| Core.Rule | core.py:27-29 | B3/S23: a live cell survives with 2 or 3 live neighbours, a dead cell is born with exactly 3. |
| Core.Next | core.py:8-9 | The next board is well formed and has as many rows and columns as the input. |
| Core.NextCell | core.py:27-29 | A cell of the next board is alive iff it was alive with 2 or 3 live neighbours, or dead with exactly 3. |
| Core.NeighbourCountUnfolded | core.py:14-25 | The count is the explicit sum of the eight neighbour contributions. |
| Core.NeighbourCountAtMostEight | core.py:14-25 | A neighbour count lies in 0..8 in both modes. |
| Core.CountOverAtMost | core.py:14-25 | A count over k offsets is at most k. |
| Core.CountOverSnoc | core.py:14-25 | Visiting one more offset adds exactly that offset's contribution. |
| Core.CountOverZero | core.py:14-25 | Offsets that each contribute nothing give a count of 0. |
| Core.AllDeadStaysDead | core.py:27-29 | An all-dead board steps to an all-dead board, on a torus or not. |
| Core.LoneCellDies | core.py:24-29 | On the bounded board, a cell with no live on-board neighbour is dead in the next generation. |
| Core.IsolatedCellDies | core.py:19-29 | In either mode, torus included, a cell none of whose eight offsets reaches a live cell has count 0 and is dead in the next generation. |
| Core.OnBoard | core.py:24 | Exactly the given offsets whose neighbour lands inside `[0, rows) × [0, cols)` are kept: every kept offset is one of them, every such offset is kept, and there are no more of them than offsets given. |
| Core.BoundedCountSkipsOffBoard | core.py:24-25 | Without wrap-around the count over any offsets equals the count over the on-board ones alone. |
| Core.CornerCountAtMostThree | core.py:24-25 | The bounded corner cell (0, 0) has at most three live neighbours. |
| Core.InteriorCountOver | core.py:20-25 | Away from the edges, wrapping changes no offset's contribution. |
| Core.InteriorIgnoresTorus | core.py:20-29 | An interior cell has the same count and the same fate with and without wrap-around. |
| Core.OneByOneTorusCountsSelf | core.py:20-23 | On a 1x1 torus all eight offsets reach the cell itself: a lone live cell counts 8 and dies. |
| Core.OneByTwoCounts | core.py:20-25 | On a 1x2 torus the live cell counts itself twice and its dead neighbour counts it six times; on the bounded board the counts are 0 and 1. |
| Core.OneByTwoTorusKeepsLoneCell | core.py:20-29 | So on a 1x2 torus a lone live cell survives for ever, and on the bounded board it dies. |
| Core.CountOverFull | core.py:20-23 | On a full torus every offset contributes one. |
| Core.FullBoardDiesOnTorus | core.py:20-29 | A board with every cell alive dies completely in one torus step, whatever its size. |
| Core.BlockCounts | core.py:24-25 | Each cell of the 2x2 block has three live neighbours on the bounded board. |
| Core.BlockIsStillLife | core.py:24-29 | The 2x2 block is a still life on the bounded board. |
| Core.BlockDiesOnTorus | core.py:20-29 | The same block dies on a 2x2 torus. |
| Core.VerticalCount | core.py:24-25 | The bounded neighbour counts of the nine cells of the vertical blinker (three live cells down the middle of a 3x3 board). |
| Core.HorizontalCount | core.py:24-25 | The bounded neighbour counts of the nine cells of the horizontal blinker. |
| Core.NextOfThreeByThree | core.py:8-29 | A 3x3 board steps to a given board when each of its cells is the rule applied to the matching cell and its count. |
| Core.VerticalBlinkerTurns | core.py:24-29 | On the bounded board the vertical blinker becomes the horizontal one in one step. |
| Core.HorizontalBlinkerTurns | core.py:24-29 | And the horizontal blinker becomes the vertical one. |
| Core.BlinkerOscillates | core.py:24-29 | The blinker oscillates with period 2: it changes after one step and is back after two. |
| Core.IsCyclical | core.py:36-53 | The result is false for fewer than four values, and it is `Cyclical(s)`: the two loops with early exit find a period exactly when one exists. |
| Core.Cyclical | core.py:41-53 | What the detector decides: at least four values, and some k with 1 ≤ k ≤ n/2 with `s[i] == s[i - k]` for every i in [k, n). |
| Core.PeriodRepeatsPrefix | core.py:45-50 | Period k holds iff every value equals the one at its position modulo k: the list is its first k values repeated. |
| Core.PeriodGivesPrefix | core.py:45-50 | A period-k list repeats its first k values. |
| Core.PrefixGivesPeriod | core.py:45-50 | A list that repeats its first k values has period k. |
| Core.PeriodicAt | core.py:47-50 | Under period k, each value equals the one at its position modulo k. |
| Core.ConstantIsCyclical | core.py:41-53 | A constant list of four or more values is cyclical. |
| Core.CyclicalSamples | core.py:36-53 | `[1,2,1]` and `[1,2,3,4]` are not cyclical; `[5,5,5,5]`, `[1,2,1,2]` and `[1,2,3,1,2,3]` are. |
| Geometry.Min | utils.py:20-21 | `min` returns a member of the list no larger than any. |
| Geometry.Max | utils.py:29 | `max` returns a member of the list no smaller than any. |
| Geometry.ExtremesShift | utils.py:20-22 | Adding a constant to every value adds it to the minimum and the maximum. |
| Geometry.ExtremesMirror | utils.py:29-30 | Mirroring every value about a constant a swaps the extremes: the new minimum is a minus the old maximum. |
| Geometry.Normalize | utils.py:19-22 | Re-anchoring keeps the number and order of cells, shifts each by the minima, and leaves minimum row and column 0. |
| Geometry.Rotate | utils.py:4-22 | Rotation keeps the number of cells (an empty pattern stays empty). Any angle but 90, 180 and 270, 0 included, returns the pattern unchanged. A right angle gives a result with minimum row and column 0. |
| Geometry.Turned | utils.py:10-15 | The raw turn keeps the number of cells. |
| Geometry.RotateQuarter | utils.py:10-11 | A 90-degree turn sends cell i (r, c) to (c − minCol, maxRow − r), in the same order. |
| Geometry.RotateHalf | utils.py:12-13 | A 180-degree turn sends cell i (r, c) to (maxRow − r, maxCol − c). |
| Geometry.RotateThreeQuarters | utils.py:14-15 | A 270-degree turn sends cell i (r, c) to (maxCol − c, r − minRow). |
| Geometry.QuarterFromTurn | utils.py:11-22 | Anchoring the map (r, c) ↦ (c, −r) gives the quarter-turn closed form. |
| Geometry.HalfFromTurn | utils.py:13-22 | Anchoring (r, c) ↦ (−r, −c) gives the half-turn closed form. |
| Geometry.ThreeQuarterFromTurn | utils.py:15-22 | Anchoring (r, c) ↦ (−c, r) gives the three-quarter-turn closed form. |
| Geometry.QuarterExtents | utils.py:11-22 | A quarter turn is anchored and swaps the pattern's height and width. |
| Geometry.HalfExtents | utils.py:13-22 | A half turn is anchored and keeps height and width. |
| Geometry.ThreeQuarterExtents | utils.py:15-22 | A three-quarter turn is anchored and swaps height and width. |
| Geometry.QuarterThenQuarter | utils.py:11-22 | A quarter turn of a quarter turn is a half turn. |
| Geometry.HalfThenQuarter | utils.py:11-22 | A quarter turn of a half turn is a three-quarter turn. |
| Geometry.ThreeQuartersThenQuarter | utils.py:11-22 | A quarter turn of a three-quarter turn is the original pattern re-anchored. |
| Geometry.HalfTurnUnique | utils.py:13-22 | The half-turn closed form determines the pattern. |
| Geometry.ThreeQuarterTurnUnique | utils.py:15-22 | The three-quarter-turn closed form determines the pattern. |
| Geometry.AnchoringUnique | utils.py:19-22 | The anchoring closed form determines the pattern. |
| Geometry.HalfIsTwoQuarters | utils.py:10-22 | `rotate(p, 180) == rotate(rotate(p, 90), 90)` for every pattern. |
| Geometry.ThreeQuartersIsThreeQuarterTurns | utils.py:10-22 | `rotate(p, 270)` is three successive 90-degree turns, for every pattern. |
| Geometry.RotateFourQuarters | utils.py:11-22 | Four 90-degree turns give the pattern re-anchored at (0, 0). |
| Geometry.NormalizeAnchored | utils.py:19-22 | Re-anchoring an anchored pattern changes nothing. |
| Geometry.RotateCycle | utils.py:11-22 | For a pattern with minimum row and column 0, four 90-degree turns return the same list, cell for cell and in order. |
| Geometry.Flip | utils.py:25-30 | Flipping keeps the number of cells and every row offset, and mirrors each column about the largest one, so a column and its image sum to maxCol (an empty pattern stays empty). For a non-empty pattern the result has minimum column 0 and maximum column maxCol − minCol. |
| Geometry.FlipTwice | utils.py:29-30 | Flipping twice keeps every row and moves every column left by the smallest column offset. |
| Geometry.FlipInvolution | utils.py:29-30 | For a pattern whose minimum column is 0, `flip(flip(p)) == p`. |
| Geometry.FlipKeepsAnchored | utils.py:29-30 | Flipping an anchored pattern gives an anchored pattern. |
| LifeGame.NextGeneration | life_game.py:25-45 | The older copy's loops build exactly `Core.Next(board, false)`: same dimensions, same survive-on-2/3 and birth-on-3 rule, in agreement with core.py without wrap-around. |
| LifeGame.CountBoundedNeighbours | life_game.py:32-39 | The count skips (0, 0) and every cell outside the grid, and equals the bounded `NeighbourCount`. |
| LifeGame.RowPopulation | life_game.py:99 | A row's live count is at most the row's length. |
| LifeGame.RowPopulationZero | life_game.py:99 | A row's count is 0 iff none of its cells is alive. |
| LifeGame.Population | life_game.py:99 | `alive`: the live cells of the whole board, summed row by row. |
| LifeGame.PopulationZeroIffAllDead | life_game.py:99-107 | `alive == 0` iff every cell of the board is dead. |
| LifeGame.PopulationAtMostCells | life_game.py:99 | `alive` never exceeds rows × cols. |
| LifeGame.LimitFromArgument | life_game.py:182 | `--stagnate N` gives a limit exactly when N > 0, and that limit is N; 0 or less means no limit. |
| LifeGame.Stagnated | life_game.py:104-106 | `stagnated`: a limit is present, it is positive, and the counter has reached it. |
| LifeGame.IsDead | life_game.py:107 | The dead condition: no live cell, or stagnated. |
| LifeGame.StagnationFromArgument | life_game.py:104-106 | Given `--stagnate N`, the stagnation check fires iff N > 0 and the counter has reached N. |
| LifeGame.ReasonFor | life_game.py:117 | The exit reason is "all cells dead" iff the live count is 0, and "stagnation" otherwise. |
| LifeGame.TrailingRepeats | life_game.py:127-131 | The counter of consecutive equal counts is 0 for an empty history and less than the number of recorded counts otherwise. |
| LifeGame.TrailingRepeatsSnoc | life_game.py:127-131 | Recording a count adds one repeat if it equals the last recorded count; otherwise the repeats drop to 0. |
| LifeGame.TrailingRepeatsMeansSteady | life_game.py:104-131 | The counter is at least k iff the last k + 1 recorded counts are all equal. |
| LifeGame.StagnatedMeansSteady | life_game.py:104-131 | With a limit N > 0, the game stagnates iff the last N + 1 recorded counts agree: the count was unchanged over N consecutive generations. |
| LifeGame.StepKeepsGrid | life_game.py:27-28 | A step keeps the grid's shape. |
| LifeGame.Simulation.constructor | life_game.py:91-95 | Start state: game 1, generation 0, no last count, counter 0, the given board, and an empty history of live counts. |
| LifeGame.Simulation.Restart | life_game.py:108-115 | Restart: game number up by one, a fresh board, generation 0, no last count, counter 0, and the history of live counts cleared. |
| LifeGame.Simulation.Advance | life_game.py:122-131 | Live step: board := `Next(board, false)`, generation up by exactly one, counter up by one if the count repeats the last count and 0 otherwise, last count := the current one, which is appended to the history of live counts. |
| LifeGame.Simulation.Tick | life_game.py:98-131 | One loop pass. A game is dead when `alive == 0` or it stagnated (limit present, positive, counter ≥ limit). A dead game restarts when endless, and otherwise stops with its reason and unchanged state. A live game advances as in `Advance`. The history of live counts gains the current count on a step, is cleared on a restart, and is unchanged on a stop; the class invariant is kept. |
| LifeGame.StepThenCheck | life_game.py:104-131 | For a caller running the game with a positive limit: after a live pass the history has grown by one count, and the stagnation test on the new counter holds exactly when the last limit + 1 recorded counts agree. |

## Left out

- `create_board` (core.py:32-34, life_game.py:73-75) uses `random.random()` and a float density. The model takes its result as a parameter: the initial board of the constructor and the new board of `Tick`/`Restart`, required to have the requested shape.
- Negative row or column arguments are not modelled: rows and columns are `nat`, and a negative count would build the same empty board as 0.
- The `while True` loop of `run` is modelled one pass at a time by `Tick`; the loop itself, which may run for ever, is not. `time.sleep`, `clear_screen`, `render`, `print`, and the `KeyboardInterrupt` handler are I/O and are dropped.
- `main` in life_game.py (argparse, `--max` and `shutil.get_terminal_size`) is left out, except for the conversion of `--stagnate` into a limit (`LifeGame.LimitFromArgument`).
- rendering.py and input_handler.py are terminal output and platform key decoding, and are not part of this model.
- The interactive session controller, the pattern library and pattern persistence come from modules that are not part of this model (`patterns` is imported at utils.py:2). `Pattern` is modelled as `seq<(int, int)>`.
- The source never writes to its input board. In the model boards are values (`seq`), so this holds by construction, and the new board is built as a separate value.
- An empty board (`len(board[0])` raises `IndexError`) is excluded by `Core.WellFormed`. `run` never steps an empty board, because such a board has no live cell and the game is dead first; `Tick` proves the board is non-empty before it steps.
