# Game of Life engine — a Dafny model

This project models the engine of a small Ruby Game of Life program. The engine has four parts:

- **`GolCell`** is one cell. It has fixed coordinates, an `alive` flag and a pending vote (`@next_state`).
  - `next_generation(neighbors)` computes the vote with Conway's B3/S23 rule.
  - `update_generation` commits the vote, clears it, and reports whether `alive` changed. It returns `nil` when there is no vote.
  - `alive=` does nothing when the value is unchanged.
- **`GolBoard`** is a row-major grid of cells.
  - `neighbor` and `neighbors` give the Moore neighbourhood, clipped at the edges.
  - `next_generation` takes one generation in two phases. Every cell votes, then every cell commits. It returns the number of cells that changed.
  - `random_start` reseeds every cell with the AND of two random bits.
- **`reaching_steady_state`** (gol_util.rb) is the period-2 detector. It looks at the history of change counts and returns `[slow_down, finished]`.
- **The driver loop** (gol.rb:182-200) holds a flag. It reseeds, then steps until a step changes nothing, then reseeds again.

gol.rb:55-174 repeats both classes with the same logic, so one Dafny member models both copies. Rows cite either copy. The driver rows cite gol.rb, the only file that contains the driver.

Files:

- `wrappers.dfy` (module `Wrappers`): `Option`, which stands for Ruby's `nil`. It also has `Keep`, the zero- or one-element sequence behind `push ... unless nil`.
- `life.dfy` (module `Life`): a reference semantics written independently of the cell and board code. It has grids of booleans, the B3/S23 `Rule`, the synchronous `LifeStep` with off-grid positions counted as dead, and `DiffCount`, the number of positions where two grids differ.
- `gol_cell.dfy` (module `GolCell`): the cell. A cell is an immutable value. An assignment to `alive` returns the new cell together with the visual event it fires (`Show` or `Hide`).
- `gol_board.dfy` (module `GolBoard`): the board as a datatype with a `Valid` predicate. `Valid` says the shape is right and cell `[r][c]` has coordinates `(r, c)`.
  - `ComputeVotes` and `ApplyVotes` are the two phases, written as loops over rows (`VoteRow`, `ApplyRow`).
  - `NextGeneration` composes them. It proves that the new alive grid is `LifeStep` of the old one and that the count is their `DiffCount`.
- `gol_util.dfy` (module `SteadyState`): the detector. It is a pure function of the history, `n` (`STEADY_STATE_ITERATIONS`) and `slow` (`SLOW_AFTER_STEADY_STATE_ITERATIONS`).
- `driver.dfy` (module `Driver`): the flag machine of the `update` block.

Three kinds of input become plain values:
- The random bits are a parameter: for each cell, the pair of bits `random_start` would draw.
- The two thresholds, which the code never defines, are parameters.
- The on-screen square is reduced to the event an assignment to `alive` would send to it.

Some points where the code's behaviour is easy to misread:

- `update_generation` without a pending vote does not fail. It returns `nil` and changes nothing (gol_cell.rb:27).
- The board constructor does not reject a zero dimension, and `Array.new(0)` builds an empty grid. Dimensions are therefore `nat` with no precondition.
- `random_start` assigns through `alive=`, which never touches `@next_state`. A pending vote therefore survives a reseed (`RandomStart` states this).
- The detector handles period 2 only, through `each_slice(2)`. It does not search a list of periods. It does not reject negative counts. No history is kept or cleared in the files modelled here, and the driver loop does not call the detector.
- With `n == 0` the Ruby slice `slice(-0, len)` starts at index 0, so the window is the whole history. The model keeps that case.

## Model

| member | source | states |
|---|---|---|
| GolCell.New | gol_cell.rb:5-11 | A new cell keeps the given row and column, is dead, and has no pending vote. |
| GolCell.CountAlive | gol_cell.rb:17 | The number of live neighbours never exceeds the number of neighbours. |
| GolCell.NextGeneration | gol_cell.rb:16-23 | The vote is B3/S23 applied to the cell's flag and its live-neighbour count. Coordinates and `alive` are untouched. |
| GolCell.VoteCases | gol.rb:85-92 | A live cell votes live iff it has 2 or 3 live neighbours. A dead cell votes live iff it has exactly 3. |
| GolCell.SetAlive | gol_cell.rb:36-50 | After the assignment `alive` is the new value and coordinates and vote are kept. Assigning the current value leaves the cell as it was and fires no event. A change fires Show exactly on dead-to-live and Hide exactly on live-to-dead. |
| GolCell.SetAliveTwice | gol.rb:67-68 | Assigning the same value a second time is a no-op with no visual event. |
| GolCell.UpdateGeneration | gol_cell.rb:26-33 | With no vote it returns `nil` and leaves the cell unchanged. With a vote, `alive` becomes the vote, the vote is cleared, and the result is true iff `alive` changed. A visual event fires iff the result is true. |
| GolCell.UpdateTwiceIsNoOp | gol.rb:95-102 | A commit leaves no vote, so committing again returns `nil` and changes nothing. |
| GolBoard.New | gol_board.rb:6-10 | The board has the given dimensions. Cell `[r][c]` sits at `(r, c)`, is dead, and has no vote. |
| GolBoard.Neighbor | gol_board.rb:46-55 | `nil` exactly for the zero offset or an off-board target. Otherwise it is the board's cell at `(row + dr, col + dc)`, with no wrap-around. |
| GolBoard.Neighbors | gol_board.rb:58-68 | At most eight cells are returned. |
| GolBoard.NeighborsAreAdjacent | gol_board.rb:58-68 | Every returned cell is an on-board cell at Chebyshev distance 1 from `(y, x)`. The cell itself is never returned. |
| GolBoard.AdjacentAreNeighbors | gol.rb:162-172 | Every on-board cell at Chebyshev distance 1 from `(y, x)` is returned. |
| GolBoard.NeighborCount | gol_board.rb:58-68 | The number returned is the clipped 3 x 3 block around `(y, x)` minus the cell itself. |
| GolBoard.NeighborCountCases | gol.rb:162-172 | When both dimensions are at least 2: 3 neighbours at a corner, 5 on another edge cell, 8 in the interior. |
| GolBoard.NeighborsCountLive | gol_board.rb:58-68 | The number of live cells among `neighbors(y, x)` equals the live count around `(y, x)` in the reference semantics. |
| GolBoard.VoteIsStep | gol_board.rb:17 | A cell's vote on the current board equals its entry in the Life step of the board's alive grid. |
| GolBoard.VoteRow | gol_board.rb:16-18 | After the inner phase-1 loop, every cell of row y holds the vote of the synchronous step of the grid before the tick. Flags and coordinates are unchanged. |
| GolBoard.ComputeVotes | gol_board.rb:15-19 | After phase 1 the board is valid, its alive grid is unchanged, and every vote is the cell's entry in the Life step of the grid before the tick. |
| GolBoard.ApplyRow | gol_board.rb:22-26 | After committing row y every cell holds its vote and has no pending vote. The count is the number of cells in the row whose flag flipped. |
| GolBoard.ApplyVotes | gol_board.rb:21-28 | After phase 2 no vote is pending and the alive grid is the committed grid. The count equals the number of cells whose flag differs. |
| GolBoard.NextGeneration | gol_board.rb:14-29 | The new alive grid is the synchronous Life step of the old one, and no vote is pending. The count is the number of differing cells and is at most rows x cols. It is 0 iff the grid did not change. |
| GolBoard.RandomStart | gol_board.rb:32-40 | Each cell is alive iff both of its bits are 1. Dimensions, coordinates and pending votes are unchanged. |
| Life.DiffCountBound | gol.rb:138-145 | Two grids of the same dimensions differ in at most rows x cols cells. |
| Life.DiffCountZeroIffEqual | gol.rb:131-146 | The change count is 0 iff the two grids are equal. |
| Life.FixedPointIsStable | gol_board.rb:12-29 | Once a step changes nothing, the grid is a fixed point and the next step also changes nothing. |
| Life.DeadGridIsFixed | gol.rb:13-15 | An all-dead grid of any size stays all dead. |
| Life.BlockIsStill | gol_cell.rb:13-15 | The 2 x 2 block is a still life. |
| Life.BlinkerOscillates | gol.rb:5-10 | The blinker alternates between its vertical and horizontal phases. |
| Life.BlinkerChangeCount | gol.rb:185-186 | The two blinker phases differ in 4 cells, so a blinker never reports 0 changes. |
| SteadyState.Reverse | gol_util.rb:14 | The result is the input read back to front. |
| SteadyState.Window | gol_util.rb:10-14 | The window holds the last n entries, most recent first, or the whole history when n is 0. The history itself is not changed. |
| SteadyState.Slices | gol_util.rb:27 | Pair k is (w[2k], w[2k+1]), with `nil` as the second element when w has odd length and k is the last pair. There are ceil(m/2) pairs for a window of length m. |
| SteadyState.LeadingMatches | gol_util.rb:35-38 | Counts the leading pairs equal to the base and stops at the first pair that differs. |
| SteadyState.NumFound | gol_util.rb:4-44 | 0 when the history is not longer than n. Otherwise at least 1 (the base pair), all counted pairs equal the base, and counting stops at the first mismatch. Never more than ceil(n/2). |
| SteadyState.ReachingSteadyState | gol_util.rb:46 | A short history gives `[0 >= slow/2, 0 >= n/2]`. When slow <= n, finished implies slow-down. |
| SteadyState.OddWindowBound | gol_util.rb:27-37 | For odd n >= 3 the trailing (x, nil) pair never matches the base pair, so num_found <= floor(n/2). |
| SteadyState.AlternatingFinishes | gol_util.rb:8-46 | A strictly period-2 history longer than n is reported as finished. |
| SteadyState.DecreasingIsNotSteady | gol_util.rb:29-41 | A strictly decreasing history gives num_found <= 1 and verdict (false, false) when n, slow >= 4. |
| Driver.Start | gol.rb:178-182 | The program starts with a valid 20 x 30 board without votes and with the reseed flag set. |
| Driver.Tick | gol.rb:187-199 | A reseeding tick sets each cell to the AND of its two bits, keeps votes, and clears the flag without stepping. A stepping tick replaces the grid by its Life step and raises the flag iff the step changed nothing. Both keep the dimensions, and neither leaves a vote behind that was not there before. |

## Left out

- Rendering is left out because it is presentation through a foreign graphics library. This covers `square_at`, `COLORS`, `Image`, `set`, `show`, the window setup, and the `add`/`remove` calls on the visual. An assignment to `alive` only reports a `Show` or `Hide` event.
- `SecureRandom` is replaced by the bits it would draw. The roughly 25% chance that a cell starts alive is statistical, so no contract states it.
- `sleep` pacing and `puts`/`p` logging are left out because they are I/O with no logic.
- `STEADY_STATE_ITERATIONS` and `SLOW_AFTER_STEADY_STATE_ITERATIONS` are not defined in the modelled files. They are parameters: `n` is a `nat` and `slow` an `int`. A negative `n` is not modelled.
- Negative board dimensions are not modelled, because Ruby's `Array.new` raises on them. Dimensions are `nat`.
- The unused local `count` (gol_util.rb:9), the commented-out loop (gol_util.rb:17-21) and the nil assignments to `a`/`b` after the base pair (gol_util.rb:33-34) affect no result.
- ruby2d's `update` callback is taken as given. `Driver.Tick` models one call of its body; the frame loop that calls it is left out.
- GolBoard.Neighbors: its own contract only bounds the length at eight. Which cells it returns and how many are stated by `NeighborsAreAdjacent`, `AdjacentAreNeighbors`, `NeighborCount` and `NeighborCountCases`.
- GolCell.CountAlive: its own contract only bounds the count. What the count adds up to is stated by `GolBoard.NeighborsCountLive`.
