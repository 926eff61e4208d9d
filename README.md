# Game of Life engine in Dafny

A model of the simulation engine of a terminal Game of Life (rule B3/S23),
with proofs. A board is the set of live cells on a bounded `width × height`
grid. Each generation re-evaluates the classic rule on every grid point:

- a live cell survives with 2 or 3 live neighbours;
- a dead cell is born with exactly 3.

The grid does not wrap. A cell on the edge still has eight neighbour
coordinates. The ones off the grid are simply never live.

- `game_of_life.dfy`, module `GameOfLife`, covers the engine:
  - grid enumeration (`BoardPoints`, built like `itertools.product` of two `range`s);
  - the initial random board (`InitialConfig`);
  - the Moore neighbourhood (`Neighbors`);
  - the live-neighbour count (`LivingNeighbors`);
  - the rule (`Rules`);
  - the generation step (`Step`).
- `patterns.dfy`, module `Patterns`, covers consequences of the rule on
  small boards: the empty board, a lone cell, the block still life, the
  blinker oscillator, and the absence of wrap-around at a corner.

A coordinate is a pair `(int, int)`. Its component `.0` plays the role of
the source's index constant `X = 0` and `.1` that of `Y = 1`
(game_of_life.py:9). The grid dimensions are a pair (width, height) read
the same way.

Every core function is pure, so each one is a Dafny function or lemma.
`initial_config` is the exception. It draws at random, so it is a method
whose result is chosen nondeterministically (`:|`) among all boards
meeting its contract.

The live-neighbour count is `|Neighbors(p) * board|`, as in the source. It
is proved equal to `NeighborTally`, an independent count that tallies the
eight neighbours one by one. The rule is stated through that tally, and
the pattern lemmas use it.

The code accepts any integer dimensions. `range` of a negative number is
empty, so a negative dimension gives an empty grid (`Span`), and nothing in
the engine requires positive dimensions. The code has no error value of its
own: the driver asserts `width * height >= n` (game_of_life.py:115), and
`random.sample` raises `ValueError` on a count that is negative or larger
than the grid (game_of_life.py:19). The model makes the sampling condition a
precondition, `ValidConfig` (see Findings).

## Model

| member | source | states |
|---|---|---|
| GameOfLife.Elems | game_of_life.py:19 | `set(...)` of a list (also at lines 24 and 45): the points that occur in it |
| GameOfLife.Range | game_of_life.py:14 | Python's `range(n)`: 0, 1, ..., n - 1, empty when `n <= 0` |
| GameOfLife.RangeFacts | game_of_life.py:14 | `range(n)` has `max(n, 0)` entries, holds `k` exactly when `0 <= k < n`, and has no duplicates |
| GameOfLife.Product | game_of_life.py:14 | `itertools.product(xs, ys)`: a row of pairs for the first `x`, then the product of the remaining `xs` |
| GameOfLife.ProductLength | game_of_life.py:14 | `itertools.product(xs, ys)` yields `len(xs) * len(ys)` pairs |
| GameOfLife.ProductMembers | game_of_life.py:14 | a pair is produced exactly when its first component is in `xs` and its second in `ys` |
| GameOfLife.ProductDistinct | game_of_life.py:14 | the product of two duplicate-free lists has no duplicate pair |
| GameOfLife.BoardPoints | game_of_life.py:12-14 | the list contains `(x, y)` exactly when `0 <= x < width` and `0 <= y < height`; it has `width * height` entries (a negative dimension counts as 0), and none repeats |
| GameOfLife.ValidConfigIsSampleable | game_of_life.py:17-19 | the sampling precondition `0 <= n <= width * height` is exactly "no more points than the grid list holds" |
| GameOfLife.DriverAccepts | game_of_life.py:115 | the driver's start-up guard as written: `width * height >= n` |
| GameOfLife.DriverAcceptsEmptyGrid | game_of_life.py:115 | the driver's guard accepts dimensions (-2, -3) with one start point, although that grid has no points, so the sample cannot be drawn |
| GameOfLife.DriverAcceptsNegativeCount | game_of_life.py:115 | the driver's guard accepts `n = -1` on the default 100 x 30 grid, a count no sample can have |
| GameOfLife.DriverAgreesOnNaturalInputs | game_of_life.py:115 | for non-negative dimensions and counts, the driver's guard and the sampling precondition agree |
| GameOfLife.InitialConfig | game_of_life.py:17-19 | under the sampling precondition, the initial board has exactly `n` distinct points, all on the grid |
| GameOfLife.ShiftsMembers | game_of_life.py:26 | `itertools.product([1, 0, -1], repeat=2)` holds exactly the nine offsets with both coordinates in -1..1 |
| GameOfLife.Shifted | game_of_life.py:24-26 | the `map` of `lambda s: (p[X] + s[X], p[Y] + s[Y])` over the shifts, collected into a set |
| GameOfLife.ShiftedSound | game_of_life.py:24-26 | every point of the mapped shift set comes from one of the shifts |
| GameOfLife.ShiftedComplete | game_of_life.py:24-26 | every shift puts its shifted point into the set |
| GameOfLife.ShiftedBySquare | game_of_life.py:24-26 | shifting `p` by the nine offsets reaches exactly the cells at most 1 away from `p` on each axis |
| GameOfLife.Neighbors | game_of_life.py:22-28 | `q` is a neighbour of `p` exactly when `q != p` and `q` differs from `p` by at most 1 on each axis; nothing is clipped or wrapped |
| GameOfLife.NeighborListMembers | game_of_life.py:22-28 | the eight explicit coordinates are exactly the cells at most 1 away from `p` on each axis, other than `p` |
| GameOfLife.NeighborListIsNeighbors | game_of_life.py:22-28 | the eight explicit neighbour coordinates are distinct and form exactly the neighbour set |
| GameOfLife.NeighborsCount | game_of_life.py:22-28 | every point has exactly 8 neighbours, wherever it lies |
| GameOfLife.CountLive | game_of_life.py:31-33 | counting the live entries of a list gives at most its length |
| GameOfLife.CountLiveIsCard | game_of_life.py:31-33 | for a duplicate-free list, the entry-by-entry count equals the size of the intersection of its set with the board |
| GameOfLife.CountLiveNeighborList | game_of_life.py:31-33 | counting down the neighbour list gives the one-by-one tally of the eight neighbours |
| GameOfLife.LivingNeighbors | game_of_life.py:31-33 | `len(get_neighbors(p) & board)` equals the one-by-one tally of live neighbours and lies in 0..8 |
| GameOfLife.LivingNeighborsIsLocal | game_of_life.py:31-33 | two boards that agree on the cells touching `p` give `p` the same count |
| GameOfLife.Rules | game_of_life.py:36-40 | a live `p` stays alive exactly when its tally is 2 or 3; a dead `p` comes alive exactly when its tally is 3 |
| GameOfLife.LiveCellDies | game_of_life.py:36-38 | a live cell with fewer than 2 or more than 3 live neighbours dies |
| GameOfLife.DeadCellStaysDead | game_of_life.py:39-40 | a dead cell with any count but 3 stays dead |
| GameOfLife.RulesIsLocal | game_of_life.py:36-40 | the rule's verdict on `p` depends only on `p` and its eight neighbours |
| GameOfLife.Survivors | game_of_life.py:45 | `filter(lambda p: rules(p, board), points)`, order kept |
| GameOfLife.SurvivorsMembers | game_of_life.py:45 | `filter(rules, points)` keeps exactly the listed points that the rule keeps alive |
| GameOfLife.Step | game_of_life.py:43-46 | the next board contains `q` exactly when `q` is on the grid and the rule keeps or brings `q` alive; so every next board lies on the grid |
| GameOfLife.StepSize | game_of_life.py:43-46 | the next board never has more cells than the grid has points |
| Patterns.EmptyBoardStaysEmpty | game_of_life.py:36-46 | the empty board steps to the empty board on every grid |
| Patterns.LoneCellRule | game_of_life.py:36-40 | next to a single live cell, no point is alive after the rule: the cell has no neighbours and no other point has 3 |
| Patterns.LoneCellDies | game_of_life.py:36-46 | a board of one cell steps to the empty board on every grid |
| Patterns.BlockRule | game_of_life.py:36-40 | for the block {(1,1),(1,2),(2,1),(2,2)}, the rule keeps exactly the block's cells alive |
| Patterns.BlockIsStillLife | game_of_life.py:43-46 | the block is a fixed point of the step on every grid of at least 3 x 3 |
| Patterns.BlinkerAcrossRule | game_of_life.py:36-40 | for {(1,2),(2,2),(3,2)}, the rule keeps or brings alive exactly {(2,1),(2,2),(2,3)} |
| Patterns.BlinkerUprightRule | game_of_life.py:36-40 | for {(2,1),(2,2),(2,3)}, the rule keeps or brings alive exactly {(1,2),(2,2),(3,2)} |
| Patterns.BlinkerAcrossSteps | game_of_life.py:43-46 | on every grid of at least 3 x 4 the lying blinker steps to the upright one |
| Patterns.BlinkerUprightSteps | game_of_life.py:43-46 | on every grid of at least 4 x 3 the upright blinker steps to the lying one |
| Patterns.BlinkerOscillates | game_of_life.py:43-46 | on every grid of at least 4 x 4 the blinker changes after one step and is back after two: it oscillates with period 2 |
| Patterns.NoWrapAround | game_of_life.py:22-33 | on a grid of at least 3 x 3, corner (0, 0) has no live neighbour when only the three opposite corners are live, and it stays dead: the grid does not wrap |

## Left out

- Terminal drawing, `draw_board` and `draw_frame` (game_of_life.py:49-64): curses output only, with no state that the engine reads.
- The animation loop `main` (game_of_life.py:67-86): curses set-up, screen-size assertions, padding arithmetic, refresh, clear and `time.sleep`. Its effects on the engine are two calls. It calls `initial_config(dims, num_start_points)` once (game_of_life.py:71), modelled by `InitialConfig`. It calls `board = step(board, dims)` once per generation (game_of_life.py:85), modelled by `Step`, each of whose results lies on the grid, whatever board it is given. The loop that chains them is not modelled.
- Command-line parsing (game_of_life.py:89-117). The exception is its start-up guard at line 115, modelled as `DriverAccepts` (see Findings).
- GameOfLife.InitialConfig: does not model which points `random.sample` picks, nor their distribution. Randomness is foreign and nondeterministic. The method may return any `n`-point subset of the grid. The `ValueError` that `random.sample` raises for a negative count or one larger than the grid (game_of_life.py:19) is not modelled as an error result: it becomes the precondition `ValidConfig`.
- The order of the sampled list is not modelled, because the source turns it into a set at once.

## Findings

| source | as written | input that shows it | evidently intended | confidence | as-written member | corrected member |
|---|---|---|---|---|---|---|
| game_of_life.py:115 | the guard `dimensions[X] * dimensions[Y] >= num_start_points` compares against the plain product of the dimensions | `--dim -2 -3 --num-start-points 1`: the product is 6, but `range(-2)` is empty, so the grid list has no points and `random.sample` raises instead of the guard rejecting the input | start only when `0 <= n <=` the number of grid points | medium; not executed | GameOfLife.DriverAcceptsEmptyGrid | GameOfLife.ValidConfigIsSampleable |
| game_of_life.py:115 | the same guard places no lower bound on the number of start points | `--num-start-points -1` on the default 100 x 30 grid: 3000 >= -1 passes, and `random.sample` raises on the negative count | start only when `0 <= n <=` the number of grid points | medium; not executed | GameOfLife.DriverAcceptsNegativeCount | GameOfLife.ValidConfigIsSampleable |
