# Game of Life engine: a verified Dafny model

This project models the simulation engine of the `game-of-life` repository,
`gameoflife/gol.py`. The engine has three parts:

- `get_neigh_coordinates` enumerates the on-board cells of the Moore
  neighbourhood (the up to eight cells around a cell).
- `count_neighs` counts how many of those cells are alive.
- `play_game_of_life` advances a boolean board by `n_iters` generations
  under Conway's B3/S23 rule.

In `play_game_of_life`, each generation is computed by a sparse pass. The
pass copies the board. It visits every live cell and writes that cell's next
state from the `is_alive` table. For each dead neighbour not visited before,
it writes the next state from the `revives` table. The loop stops early on an
all-dead board. It also keeps a record of the boards seen so far. When a
board repeats, the loop either returns (a fixed point) or looks up the
answer in the record.

The model has four modules:

- `Matrix`: coordinates, boards as sequences of rows, `array2<bool>` boards
  and their cell view `Cells`, copy, reshape, `argwhere` and `any`.
- `Neighbourhood`: the neighbour enumeration, in the comprehension's own
  order, and the live-neighbour count. `IsNeighbour` is the reference
  definition they are proved against.
- `Rules`: the two lookup tables and the reference rule, the dense step
  `Step` (the rule applied to every cell), `Iterate` (generation n), and
  the facts about fixed points and cycles the engine relies on.
- `Gol`: the sparse pass as an in-place method over arrays, proved to
  compute `Step`, and the generation loop with its record and repeat
  shortcut.

The loop is the method `Simulate`. Two engines share it:
- `PlayGameOfLife` does the lookup as written at line 81.
- `PlayGameOfLifeCorrected` uses the evidently intended period, and is
  proved to return generation `n_iters` in every case.

Two edge cases of the code, as the model reads them:

- A negative `n_iters` makes `range(n_iters)` empty, so the engine returns
  a copy of its input. The model does the same: it returns generation
  `max(n_iters, 0)`.
- When generation `state_index + 1` repeats recorded generation
  `seen_state_index`, the evident period is `state_index + 1 -
  seen_state_index`. The code divides by `state_index - seen_state_index`.
  The model transcribes the code, and the difference is logged under
  Findings.

## Model

| member | source | states |
|---|---|---|
| Neighbourhood.GetNeighCoordinates | gameoflife/gol.py:3-20 | At most 8 coordinates are returned, and every one is a neighbour of the point inside the board |
| Neighbourhood.NeighbourIff | gameoflife/gol.py:17-20 | A cell is in the list exactly when it is a neighbour of the point: different from it, at most one row and one column away, and inside the board |
| Neighbourhood.NeighbourSymmetric | gameoflife/gol.py:17-20 | q is listed as a neighbour of p exactly when p is listed as a neighbour of q |
| Neighbourhood.NeighboursDistinct | gameoflife/gol.py:17-20 | No coordinate is listed twice |
| Neighbourhood.InteriorHasEight | gameoflife/gol.py:17-20 | A cell with a cell on every side gets exactly 8 neighbours |
| Neighbourhood.CountLive | gameoflife/gol.py:33 | The sum of the cells at a list of coordinates is at most the length of the list |
| Neighbourhood.CountNeighs | gameoflife/gol.py:22-33 | The live-neighbour count is at most 8 |
| Neighbourhood.CountByRows | gameoflife/gol.py:33 | The count is the sum of the counts over the row above, the point's own row and the row below |
| Neighbourhood.CountNeighsZero | gameoflife/gol.py:33 | The count is 0 exactly when no neighbour is alive |
| Neighbourhood.CountIsLiveNeighbours | gameoflife/gol.py:33 | The count equals the number of live cells in the clipped Moore neighbourhood |
| Matrix.AnyAlive | gameoflife/gol.py:71 | `m.any()` holds exactly when the board is not all dead |
| Matrix.LiveCoords | gameoflife/gol.py:58 | `argwhere` lists exactly the live cells, each once |
| Matrix.CopyArray | gameoflife/gol.py:51 | The copy is a fresh array with the same shape and cells |
| Matrix.FromGrid | gameoflife/gol.py:82 | The reshaped recorded board is a fresh array with the given shape holding exactly that board |
| Rules.TablesFollowRule | gameoflife/gol.py:48-49 | For every count 0..8, `is_alive` says survive exactly on 2 or 3 and `revives` says born exactly on 3 |
| Rules.IsolatedDeadStaysDead | gameoflife/gol.py:49 | A dead cell with no live neighbour is dead in the next generation, which is why the pass can skip such cells |
| Rules.StepAllDead | gameoflife/gol.py:71-72 | The all-dead board is its own next generation |
| Rules.IterateAllDead | gameoflife/gol.py:71-72 | An all-dead board stays all dead for any number of generations |
| Rules.DeadFromThenOn | gameoflife/gol.py:71-72 | Once generation k is all dead, every generation n >= k equals it, so the early break returns generation n_iters |
| Rules.FixedFromThenOn | gameoflife/gol.py:79-80 | Once generation k is a fixed point of the step, every later generation equals it |
| Rules.IterateAdd | gameoflife/gol.py:55 | Running a generations and then b more gives generation a + b |
| Rules.WholePeriods | gameoflife/gol.py:81 | If generation s + p repeats generation s, so does generation s + t*p for every t |
| Rules.IterateInCycle | gameoflife/gol.py:81 | If generation s + p repeats generation s, generation n >= s is generation s + (n - s) mod p |
| Rules.StepIs | gameoflife/gol.py:56-69 | A board of the same shape that holds the rule's verdict in every cell is the next generation |
| Rules.BlinkerTurns | gameoflife/gol.py:60-68 | The horizontal blinker becomes the vertical one in one generation |
| Rules.BlinkerTurnsBack | gameoflife/gol.py:60-68 | The vertical blinker becomes the horizontal one in one generation |
| Rules.BlinkerOscillates | gameoflife/gol.py:60-68 | The blinker has period 2 and is not a fixed point |
| Gol.DeadUnvisited | gameoflife/gol.py:63-64 | `dead_neighs` holds exactly the listed neighbours that are dead and not yet visited, and has no repeats when the neighbour list has none |
| Gol.WriteNext | gameoflife/gol.py:61-67 | Writing a cell's next state extends the set of cells of the new board that already hold their next state |
| Gol.SparseStep | gameoflife/gol.py:56-69 | The sparse pass over a copy of the board produces exactly the dense next generation. The cells it writes are exactly the live cells and the dead cells with a live neighbour, so a dead cell with no live neighbour is never written |
| Gol.OnlyNearLifeExtend | gameoflife/gol.py:60-68 | Visiting one live cell writes only that cell and dead cells that have it as a live neighbour |
| Gol.WrittenIsNearLife | gameoflife/gol.py:56-69 | After the pass, a cell has been written exactly when it is alive or dead with a live neighbour |
| Gol.VisitLiveCell | gameoflife/gol.py:60-68 | After one live cell is visited, that cell and all its dead neighbours hold their next state. `visited_coords` grows by exactly `dead_neighs`, the cell's dead neighbours not visited before. The cells written are exactly the live cell and those neighbours, and no other cell changes |
| Gol.ReviveDead | gameoflife/gol.py:66-68 | Every listed dead cell gets its next state, and `visited_coords` grows by exactly the listed cells, in order. The cells written are exactly the listed ones, and no other cell changes |
| Gol.ClosedExtend | gameoflife/gol.py:60-68 | A live cell that is done, with its neighbours written, stays so as more cells are written |
| Gol.LiveCellWritten | gameoflife/gol.py:60-61 | After the pass every live cell of the old board holds its next state |
| Gol.BorderCellWritten | gameoflife/gol.py:63-68 | After the pass every dead cell next to a live cell holds its next state |
| Gol.UnwrittenCell | gameoflife/gol.py:56-68 | A cell the pass never writes is dead with a live-neighbour count of 0, so its copied value is already its next state |
| Gol.ClosedIsStep | gameoflife/gol.py:56-69 | Once every live cell is processed, the new board is the next generation |
| Gol.IndexOf | gameoflife/gol.py:78 | `list.index` gives the first position holding the value |
| Gol.RecordDistinct | gameoflife/gol.py:83-84 | A record of generations 0..n with no repeated board shows that those generations are pairwise different |
| Gol.RecordSnoc | gameoflife/gol.py:83-84 | Appending generation n + 1 to a record of generations 0..n gives a record of generations 0..n + 1 |
| Gol.CycleIndexAsWritten | gameoflife/gol.py:81 | The lookup index as written always names an entry of the record between seen and state_index - 1 |
| Gol.CycleIndex | gameoflife/gol.py:81 | The corrected lookup index always names an entry of the record between seen and state_index |
| Gol.CycleIndexIsGenerationN | gameoflife/gol.py:81 | If generation at + 1 repeats generation seen, the entry the corrected lookup picks is generation n |
| Gol.AsWrittenMissesPeriodTwo | gameoflife/gol.py:79-82 | On any board of period 2 with n_iters = 3, the lookup as written picks generation 0, which differs from generation 3; the corrected lookup picks generation 1, which equals generation 3 |
| Gol.Simulate | gameoflife/gol.py:51-86 | The loop keeps an ordered record of generations 0..k. If it finishes, its board is generation n_iters, and that board is all dead, a fixed point, or the last of the n_iters + 1 pairwise-different generations 0..n_iters. If it stops on a repeat, generation at + 1 equals recorded generation seen, with seen < at < n_iters |
| Gol.PlayGameOfLife | gameoflife/gol.py:35-86 | The result is a fresh array of the input's shape. Without a repeat it is generation n_iters. With a repeat at (seen, at) it is the generation the line-81 formula names |
| Gol.PlayGameOfLifeCorrected | gameoflife/gol.py:35-86 | With the intended period the result is always generation n_iters of the input (the input itself when n_iters <= 0) |
| Gol.BlinkerGenerations | gameoflife/gol.py:79-82 | Generations 0..3 of the blinker alternate between its two phases, and the turned phase is neither all dead nor fixed |
| Gol.BlinkerRunOutcome | gameoflife/gol.py:79-82 | On the blinker with n_iters = 3 the engine's only possible outcome is a repeat at seen 0, state_index 1, answered with the blinker itself, which is not generation 3 |
| Gol.BlinkerAsWritten | gameoflife/gol.py:81-82 | Running the engine as written on the blinker for 3 generations returns the horizontal blinker, not generation 3 |

## Left out

- `app.py` (the window, mouse editing, drawing and flag parsing) is not part of this model. It only calls the engine.
- The `print` of the loop-detected message (line 76) is output only and is not modelled.
- The coercion `np.array(matrix).astype(bool)` (line 46) is not modelled. The model takes a rectangular boolean array, so ragged or non-boolean inputs are out of scope.
- The flattening of boards into tuples (lines 54 and 74) is not modelled: boards are compared as values. The final reshape is `Matrix.FromGrid`.
- The record of seen boards is an ordered sequence in generation order (lines 53-54, 77-78). In the code it is a Python `set`, and `list(states)` has hash order, not insertion order, so `seen_state_index` need not be a generation number there. The model gives the code its evidently intended ordered reading, and the Findings row is stated under that reading.
- Gol.PlayGameOfLife: in the repeat branch, the contract does not promise generation `n_iters`, because the code as written does not deliver it (see Findings). `Gol.PlayGameOfLifeCorrected` carries that promise.
- Gol.PlayGameOfLife: `cycle`, `seen` and `at` are returned only as a ghost `Outcome`, because the code returns only the board.
- Gol.SparseStep: `visited_coords` is a `seq` searched by `in`, as in the code. Its linear-time lookups are not modelled, and neither is the fact that it holds no repeats.
- Python integers are unbounded, as Dafny's `int` is, so no width is modelled.

## Findings

| source | as written | input that shows it | evidently intended | confidence | as-written member | corrected member |
|---|---|---|---|---|---|---|
| gameoflife/gol.py:81 | The period of the detected cycle is taken as `state_index - seen_state_index`. Generation `state_index + 1` repeats generation `seen_state_index`, so the true period is one more. | The 3x3 horizontal blinker with `n_iters = 3`. Generation 2 repeats generation 0, so `seen_state_index = 0` and `state_index = 1`. The divisor is 1, the lookup index is `3 % 1 + 0 = 0`, and the horizontal blinker is returned. Generation 3 is the vertical blinker. | Period `state_index + 1 - seen_state_index`, giving index `(3 - 0) % 2 + 0 = 1`, the vertical blinker | not executed | Gol.BlinkerAsWritten | Gol.PlayGameOfLifeCorrected |
