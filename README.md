# Game of Life — a Dafny model of the simulation core

This project models the interactive Game of Life program `simulation.py`. The
window shows a 60 x 60 grid of 15-pixel cells. Below the grid is a 50-pixel
strip with a Start/Pause button on the left and an Instructions button on the
right-most 150 pixels. Left- and right-clicks draw and erase cells. Enter
advances one generation by hand. While the simulation runs, every pass of the
main loop advances one generation.

The model has five modules:

- `Grids` (`grids.dfy`): a grid as a value (`seq<seq<int>>`, 1 = alive, 0 = dead).
  `At` reads a cell and treats every position off the grid as dead. `SetCell`
  replaces one cell. `Cells` turns the `array2<int>` the program keeps into a
  grid value.
- `Life` (`life.dfy`): the generation step. `Neighbors` is the count as
  `update_grid` computes it: the sum of the 3 x 3 window clipped to
  `max(0, i-1) .. min(N, i+2)` in both directions, minus the cell itself.
  `Adjacent` is an independent reference count of the eight surrounding cells.
  `Rule` is the birth/survival rule and `Step` is the next generation as a
  value. `UpdateGrid` is the imperative step: nested `for` loops fill a freshly
  allocated, zero-initialised `array2<int>`, and the result is proved equal to
  `Step` of the old grid.
- `Patterns` (`patterns.dfy`): the 2 x 2 block is a still life, and the
  three-cell blinker turns on each step and has period two.
- `Controls` (`controls.dfy`): the screen geometry (GridSize 60, CellSize 15,
  window 900 x 1000, strip 50 high, Instructions button 150 wide), the events,
  and the main loop as a pure state machine over (grid, running,
  simulation running, instructions shown): `OnEvent`, `Tick`, `Frame`
  (one pass of the loop) and `Session` (the whole loop).
- `Simulation` (`simulation.dfy`): class `Game` holds the grid array and the
  three flags as fields that its methods update in place. Each of
  `HandleEvent`, `Tick`, `RunFrame` and `Run` is proved to take the state
  exactly where the `Controls` function of the same step takes it.

Pixel-to-cell mapping is `x // 15` in the source. Dafny's `/` is Euclidean, and
for a positive divisor it gives the same floor division for negative
coordinates too. The hit tests are kept exactly as written, including their
inclusive bounds: the Start button is `0 <= x < 750` and `900 <= y <= 950`; the
Instructions button is `750 <= x <= 900` and `900 <= y <= 950`; the grid is
`0 <= x // 15 < 60` and `0 <= y // 15 < 60`. No pixel satisfies two of these
tests, so the order in which the source checks them never decides the outcome.

The main loop reads the pointer position with a separate library call when a
mouse-down arrives. The model takes that position as part of the
`MouseButtonDown` event.

## Model

| member | source | states |
|---|---|---|
| Life.Neighbors | simulation.py:36-44 | definition of the neighbour count as the clipped window sum minus the cell; its meaning is stated by `Life.NeighborsMatchAdjacent` and its range by `Life.NeighborsRange` |
| Life.NeighborsMatchAdjacent | simulation.py:36-44 | the clipped-window sum minus the cell equals the number of live cells among the eight surrounding positions that lie on the grid: the cell itself is excluded and nothing wraps around |
| Life.WindowNine | simulation.py:37-42 | the clipped window sum equals the three-cell sums of rows i-1, i, i+1, with off-grid rows and columns counted as dead |
| Life.NeighborsRange | simulation.py:36-44 | on a 0/1 grid the neighbour count lies in 0..8 |
| Life.CornerNeighbors | simulation.py:39-40 | cell (0, 0) counts only (0, 1), (1, 0) and (1, 1), read as dead when off the grid; on a grid of at least 3 x 3 the opposite corner (N-1, N-1) is not among them |
| Life.NeighborsLocal | simulation.py:36-44 | two grids that agree on the eight cells around (i, j) give (i, j) the same count |
| Life.SetCellNeighbors | simulation.py:36-44 | changing one cell changes the count of no cell other than its up to eight grid neighbours |
| Life.Rule | simulation.py:45-52 | the next state of a cell is always 0 or 1 |
| Life.Step | simulation.py:32-53 | the next generation has the same N x N shape and every cell is 0 or 1, whatever the input values |
| Life.StepLocal | simulation.py:33-53 | a cell's next state depends only on the 3 x 3 window of the current generation, so the order of the loop does not matter |
| Life.StepLiveCell | simulation.py:45-49 | a live cell with fewer than 2 or more than 3 live neighbours becomes 0; with 2 or 3 it stays 1 |
| Life.StepDeadCell | simulation.py:50-52 | a dead cell becomes 1 exactly when it has 3 live neighbours and stays 0 otherwise |
| Life.StepZeros | simulation.py:33-53 | the all-dead grid maps to the all-dead grid |
| Life.SingleCellNeighbors | simulation.py:36-44 | on a grid with one live cell every count is at most 1 and the live cell's own count is 0 |
| Life.SingleCellDies | simulation.py:45-49 | a single live cell with no live neighbours is dead after one step, leaving the all-dead grid |
| Life.UpdateGrid | simulation.py:32-53 | returns a freshly allocated N x N array, holding the next generation of the old grid, which is only read |
| Patterns.BlockIsStill | simulation.py:32-53 | a 2 x 2 block anywhere on the grid, even against an edge, is unchanged by a step |
| Patterns.BlinkerTurns | simulation.py:32-53 | a horizontal blinker becomes vertical and a vertical one horizontal when its centre is at least one cell from every edge |
| Patterns.BlinkerPeriodTwo | simulation.py:32-53 | a blinker returns after two steps and differs after one |
| Grids.Zeros | simulation.py:22 | the all-dead N x N grid that start-up and each generation begin from (also simulation.py:33): square, 0/1, every cell 0 |
| Grids.SetCell | simulation.py:76-79 | the single-cell write as a value: the shape is kept, cell (r, c) holds the new value, every other cell is unchanged, and a 0/1 grid stays 0/1 |
| Controls.CellIndex | simulation.py:63-64 | the pixel lies in [15k, 15k + 15) for the returned cell index k, which is Python's floor division by 15 |
| Controls.OnStartButton | simulation.py:66-69 | definition of the Start/Pause hit test with its bounds as written; its relation to the other tests is stated by `Controls.RegionsDisjoint` |
| Controls.OnGrid | simulation.py:73 | definition of the grid-cell hit test on the two cell indices; its pixel meaning is stated by `Controls.OnGridArea` |
| Controls.OnInstructionsButton | simulation.py:80-83 | definition of the Instructions hit test with its inclusive bounds as written; stated disjoint from the others by `Controls.RegionsDisjoint` |
| Controls.MouseDown | simulation.py:61-86 | definition of the mouse-down dispatch, tests in the source's order; its effects are stated by `Controls.LeftClickDraws`, `Controls.RightClickErases`, `Controls.StartButtonToggles`, `Controls.InstructionsButtonToggles`, `Controls.OutsideClickIgnored` and `Controls.OtherButtonIgnored` |
| Controls.CellOfPixel | simulation.py:63-64 | a pixel maps to cell k exactly when it lies in [15k, 15k + 15), the square in which cell k is drawn |
| Controls.OnGridArea | simulation.py:63-73 | the grid-cell test holds exactly for pixels with 0 <= x < 900 and 0 <= y < 900 |
| Controls.RegionsDisjoint | simulation.py:66-86 | no pixel is on two of the Start button, the grid and the Instructions button |
| Controls.LeftClickDraws | simulation.py:73-76 | a left click inside the square of cell (row, col) sets exactly that cell to 1; every other cell and every flag stays |
| Controls.RightClickErases | simulation.py:73-79 | a right click inside the square of cell (row, col) sets exactly that cell to 0; every other cell and every flag stays |
| Controls.StartButtonToggles | simulation.py:66-72 | a click on the Start button flips the simulation flag exactly for buttons 1 and 3; the grid and the other flags are unchanged |
| Controls.InstructionsButtonToggles | simulation.py:80-86 | a click on the Instructions button flips the overlay flag exactly for buttons 1 and 3; the grid and the other flags are unchanged |
| Controls.OutsideClickIgnored | simulation.py:61-86 | a mouse-down outside the grid area and outside the button strip changes nothing |
| Controls.OtherButtonIgnored | simulation.py:61-86 | a mouse-down with a button other than 1 or 3 changes nothing |
| Controls.Initial | simulation.py:22-26 | the start-up state has a 60 x 60 grid of 0/1 cells |
| Controls.OnEvent | simulation.py:58-88 | every event keeps the grid 60 x 60 with 0/1 cells |
| Controls.OnEvents | simulation.py:58 | handling a frame's events in order keeps the grid 60 x 60 with 0/1 cells |
| Controls.Tick | simulation.py:96-97 | the tick keeps the grid 60 x 60 with 0/1 cells |
| Controls.Frame | simulation.py:58-97 | a pass of the main loop keeps the grid 60 x 60 with 0/1 cells |
| Controls.Session | simulation.py:56-97 | the whole main loop keeps the grid 60 x 60 with 0/1 cells |
| Controls.StoppedStaysStopped | simulation.py:59-60 | once the loop flag is cleared, no event sets it again |
| Controls.QuitStopsFrame | simulation.py:58-60 | a Quit anywhere in a frame's events leaves the loop flag cleared at the end of that frame |
| Controls.QuitEndsSession | simulation.py:56-60 | the main loop stops after the first frame whose events hold a Quit |
| Simulation.Game.constructor | simulation.py:22-26 | starts with a fresh all-zero 60 x 60 array, the loop running, the simulation paused and the overlay hidden |
| Simulation.Game.HandleEvent | simulation.py:59-88 | one event changes the fields exactly as `Controls.OnEvent`: Quit clears the loop flag, a mouse-down toggles a flag or writes one cell in place, Enter replaces the grid by `UpdateGrid` |
| Simulation.Game.WriteCell | simulation.py:76-79 | writes one cell of the grid array in place and changes no other cell or field |
| Simulation.Game.Tick | simulation.py:96-97 | while the simulation runs, replaces the grid by `UpdateGrid`; otherwise changes nothing |
| Simulation.Game.RunFrame | simulation.py:58-97 | handles every queued event in order and then ticks, exactly as `Controls.Frame` |
| Simulation.Game.Run | simulation.py:56-97 | runs one frame per event batch while the loop flag holds, exactly as `Controls.Session` |

## Left out

- Display set-up, grid-line, cell and button drawing, font rendering, the instructions overlay, `display.flip` and the 100 ms wait (simulation.py:5-18, 99-181): these are calls into the windowing library and have no effect on the modelled state.
- Frame capture and the GIF export at exit (simulation.py:176-177, 186): external image encoding and file output.
- The `drawing` branch (simulation.py:89-94): `drawing` starts False and nothing sets it, so the branch never runs.
- Event polling and the pointer-position read (simulation.py:58, 62): the model takes the event sequence and each mouse-down's pixel as inputs. If the pointer moved between the event and the read, the source would use the later position; the model does not capture that.
- numpy's fixed-width integers: cells only ever hold 0 or 1, a window sum is at most 9 and a neighbour count at most 8, so no overflow can occur, and the model uses unbounded `int`.
- `Controls.Session` and `Simulation.Game.Run` take a finite list of event batches, one per frame, and also stop when that list runs out; the source loop ends only through Quit.
- The key codes and button numbers come from the windowing library: Return is 13, and mouse buttons are 1 (left) and 3 (right).
