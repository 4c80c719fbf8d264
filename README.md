# Game of Life on a torus — evolution engine and cell toggle

This project models the core of a pygame Game of Life (`game_of_life.py`):

- the grid `lives`, a `height` by `width` integer matrix (1 alive, 0 dead);
- `near_sum`, which adds up the eight neighbours of a cell, each
  coordinate taken modulo `height` or `width`, so that the grid wraps round
  as a torus;
- `one_iteration`, which copies `lives` into `new_lives` and overwrites
  every cell of the copy by the B3/S23 rule read from `lives`;
- the toggle loop of the click handler, which flips 0 and 1 in place at
  every cell whose square `[sx, sx + rect_length]` by
  `[sy, sy + rect_length]` holds the clicked pixel. That square is one
  pixel wider than the drawn one, which fills `sx` to
  `sx + rect_length - 1` (game_of_life.py:76-78).

Layout:

- `grid.dfy` (module `Grid`) holds the value of a grid (`Cells`, a
  sequence of rows), the snapshot of an `array2<int>`, the click-toggle
  specification `Toggled` with its lemmas, and the in-place method
  `ToggleAt`.
- `evolution.dfy` (module `Evolution`) holds `NearSum`, the per-cell rule
  `NextCell`, the specification `Step` of one generation, and the method
  `OneIteration` over `array2<int>`, proved equal to `Step`. It also
  counts live neighbours independently (`AliveAmong` over the eight
  offsets) and proves that this count equals `NearSum` on 0/1 grids.
- `torus.dfy` (module `Torus`) proves that one generation commutes with
  moving the whole grid round the torus.
- `patterns.dfy` (module `Patterns`) holds the blinker, which has period
  two, and the block, which is a still life.
- `modular.dfy` (module `Modular`) holds facts about `%` with a positive
  divisor.

Dafny's `%` is Euclidean, and Python's `%` floors. For the positive
divisors used here (`height`, `width`) both give the remainder in
`[0, n)`, so `NearSum` writes the source's `%` directly.

Three behaviours of the code are kept exactly as written:
- A click outside every cell's square changes nothing. The toggle loop
  (game_of_life.py:200-210) tests each cell's square against the clicked
  pixel and has no error path.
- `one_iteration` treats every value other than 1 as dead (its `else`
  branch at game_of_life.py:49-53).
- The toggle flips only 0 and 1 and leaves any other value unchanged
  (game_of_life.py:207-210).

## Model

| member | source | states |
|---|---|---|
| Evolution.NearSum | game_of_life.py:27-33 | For a `height` by `width` grid and 0 ≤ i < height, 0 ≤ j < width, all eight wrapped reads are in bounds (the requires is all Dafny needs). If every cell is 0 or 1, the sum lies in [0, 8]. |
| Evolution.Step | game_of_life.py:37-54 | The next generation has the input's height and width, and every cell is 0 or 1. Survival: a cell holding 1 is 1 next iff its neighbour sum is 2 or 3. Birth: a cell holding any other value is 1 next iff its sum is exactly 3. |
| Evolution.OneIteration | game_of_life.py:37-54 | Returns a fresh array of the same dimensions whose contents are `Step` of the input's contents. The input array is unchanged: it is only read, and every write goes to the copy. |
| Evolution.AliveAmong | game_of_life.py:27-33 | Counting live cells over a list of neighbour offsets gives at most one per offset. |
| Evolution.NearSumCountsAlive | game_of_life.py:27-33 | On a grid of 0s and 1s, `near_sum` is the number of live cells among the eight toroidal neighbours. |
| Torus.NearSumShifted | game_of_life.py:27-33 | After moving the grid round the torus by (di, dj), the neighbour sum at (i, j) equals the original's at ((i+di) mod height, (j+dj) mod width). |
| Torus.StepShifted | game_of_life.py:37-54 | One generation commutes with moving the grid round the torus, so no cell is a border case. |
| Patterns.BlinkerTurns | game_of_life.py:37-54 | On a 5 by 5 grid, the three-cell line at i = 2 becomes the line at j = 2. |
| Patterns.BlinkerTurnsBack | game_of_life.py:37-54 | On a 5 by 5 grid, the line at j = 2 becomes the line at i = 2 again. |
| Patterns.BlinkerOscillates | game_of_life.py:37-54 | Wherever the blinker sits on the 5 by 5 torus, one step turns it and two steps restore it. |
| Patterns.BlockStill | game_of_life.py:37-54 | On a 4 by 4 grid a 2 by 2 block of live cells is unchanged by a step. |
| Patterns.CornersTouch | game_of_life.py:27-33 | On a 3 by 3 grid with only (0, 0) alive, the wrap in both directions makes (0, 0) count once among the neighbours of (2, 2). |
| Grid.Toggled | game_of_life.py:200-210 | After a click at (x, y), every cell whose square `[i*(rect_length+rect_interval), +rect_length]` by the same on j holds the point goes 0→1 or 1→0. Any other value, and every cell not hit, keeps its value. Shape is kept, and so is an all-0/1 grid. |
| Grid.ToggleAt | game_of_life.py:200-210 | The in-place nested loop leaves the array equal to `Toggled` of its old contents. |
| Grid.ToggleTwice | game_of_life.py:205-210 | Clicking the same point twice restores the grid. |
| Grid.HitUnique | game_of_life.py:203-206 | When the squares have a positive gap (`rect_interval > 0`, as with the constants 10 and 1 at lines 127-128), a point lies in at most one cell's square. |
| Grid.ClickChangesAtMostOneCell | game_of_life.py:200-210 | With a positive gap, one click changes at most one cell. |

## Left out

- `initialize` (game_of_life.py:7-14) draws each cell from `np.random.rand` and rounds it. Randomness is not modelled.
- `show` (game_of_life.py:16-25) prints to the console.
- `set_icon`, `draw_cells`, `draw_button` and `draw_buttons` (game_of_life.py:56-109) only call pygame drawing, font and image routines.
- The main loop (game_of_life.py:151-227) is left out: window setup, event polling, the `time.sleep` pacing, title image loading and `sys.exit`. It is I/O and event-loop plumbing.
- Button hit-testing and the start/stop flags (game_of_life.py:187-198, 223-226) are UI dispatch over module-level variables with float button coordinates. `ToggleAt` models only the branch taken when no button is hit. The clicked (x, y) becomes a parameter instead of being read from the mouse.
- Evolution.NearSum: sums exactly over unbounded integers. numpy's `int64` addition would wrap round for cell values near 2^63. This cannot happen on a grid of 0s and 1s, which is all the program creates.
- Evolution.OneIteration: reads the input's value once into a sequence before the loops, instead of passing the array itself to `near_sum` on every call. The array is never written, so the reads are the same.
