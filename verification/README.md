# Conway's Game of Life: the rule engine, in Dafny

A model of the deterministic core of `Python/life.py`, a tkinter Game of
Life. The program has three strategies: sequential, one thread per cell,
and persistent workers behind a barrier. All three share the same core:

- `update_neighbors` counts the live cells around a cell, clipped at the
  grid's edges. It writes the count into the buffer `voisins`.
- A list comprehension then applies Conway's rule to the population and
  the finished buffer.
- `initialize_population` places a named pattern into the top-left corner
  of an n-by-n grid.
- `init_simulation` picks the grid dimension from the user's entry.

The model has eight modules, one per file:

| module | file | models |
|---|---|---|
| `Grids` | grids.dfy | n-by-n integer matrices (`seq<seq<int>>`), the zero grid, one-entry updates |
| `Neighbours` | neighbours.dfy | `update_neighbors` as a loop method, with the count's partners: the eight neighbour terms and the set of live neighbours |
| `Generation` | generation.dfy | the rule, the next-generation comprehension, one step, `k` steps |
| `Schedulers` | schedulers.dfy | count-buffer writes in any order; the sequential and burst-parallel ticks |
| `Barrier` | barrier.dfy | the barrier strategy: with the handoff done before recounting, and as the source schedules it |
| `Patterns` | patterns.dfy | pattern resizing, the small catalogue patterns, the starting population |
| `Setup` | setup.dfy | dimension clamping and the state `init_simulation` leaves behind |
| `Examples` | examples.dfy | the blinker and the glider on grids of every size; the stale-count interleaving |

The count loop of `update_neighbors` (life.py:136-142) appears a second
time, statement for statement, in the worker loop of the barrier strategy
(life.py:151-157). So `Neighbours.UpdateNeighbors` models both. The rule
comprehension at life.py:171-173 appears unchanged at 201-203 and 232-234,
and `Generation.NextGeneration` models all three.

The source compares population values literally (`== 1`, `== 0`). So a
cell that holds anything other than 0 or 1 dies in the next generation.
`Generation.Rule` says so, and the model never assumes that a grid is 0/1
unless a contract asks for it.

## Model

| member | source | states |
|---|---|---|
| Grids.Zeros | Python/life.py:107 | the fresh count buffer is an n-by-n grid whose every entry is 0 |
| Grids.Put | Python/life.py:142 | writing `voisins[x][y]` sets that entry and leaves every other entry of the grid unchanged |
| Neighbours.WindowSum | Python/life.py:137-140 | on a 0/1 grid, the sum after `i + 1` rows of the window lies between 0 and `3 * (i + 1)` |
| Neighbours.Count | Python/life.py:136-141 | on a 0/1 grid, the neighbour count lies in [0, 8] |
| Neighbours.LiveInWindow | Python/life.py:137-140 | the window scan visits exactly the live, in-grid cells of the rows covered so far, and on a 0/1 grid their number is the running sum |
| Neighbours.LiveNeighboursAreWindowWithoutCentre | Python/life.py:141 | subtracting the centre leaves exactly the live cells of the window other than the cell itself |
| Neighbours.CountIsLiveNeighbours | Python/life.py:136-142 | on a 0/1 grid, the count is the number of live cells among the (up to) eight neighbours, never including the cell itself |
| Neighbours.CountIsMooreSum | Python/life.py:137-141 | the clipped window sum minus the centre equals the sum of the eight neighbour terms, where off-grid terms are 0 |
| Neighbours.CountSeesOnlyNeighbours | Python/life.py:137-140 | two grids that agree on the neighbours of a cell give it the same count, whatever the cell and the rest of the grid hold |
| Neighbours.CountSeesEachNeighbour | Python/life.py:139-140 | bringing any one dead neighbour to life raises the count by exactly one |
| Neighbours.CornerDoesNotWrap | Python/life.py:139-140 | no wrap-around: whatever the corner (0, 0) holds never changes the count of a cell on the last row or the last column when n >= 3 |
| Neighbours.UpdateNeighbors | Python/life.py:131-142 | the two offset loops write the eight-term neighbour sum into `voisins[x][y]`, equal to the number of live neighbours on a 0/1 grid, and change no other entry |
| Generation.Rule | Python/life.py:171-172 | the next state is 0 or 1; for a 0/1 cell it is 1 exactly when the count is 3, or the cell is alive and the count is 2; any other cell value gives 0 |
| Generation.NextGeneration | Python/life.py:171-173 | the comprehension keeps the population's shape, yields only 0 and 1, and applies the rule to each cell and its own entry of the count buffer |
| Generation.CountGrid | Python/life.py:168-170 | once every cell has been counted, the buffer is an n-by-n grid holding each cell's neighbour count |
| Generation.Step | Python/life.py:167-173 | one generation is an n-by-n grid of zeros and ones |
| Generation.StepIsConway | Python/life.py:171-173 | on a 0/1 population, a cell is alive next exactly when it has three live neighbours, or it is alive and has two; three live neighbours always give a live cell |
| Generation.StepIsLocal | Python/life.py:171-173 | a cell's next state depends only on the cell and its eight neighbours |
| Generation.Generations | Python/life.py:167-177 | repeated generations stay n-by-n, and are 0/1 after at least one step |
| Generation.EmptyStaysEmpty | Python/life.py:171-173 | the empty population stays empty for any number of generations |
| Schedulers.Fill | Python/life.py:191-198 | after per-cell writes in any order, each written cell holds its count and every other cell keeps its old value |
| Schedulers.AnyOrderFillsCounts | Python/life.py:191-198 | writes that cover every cell, in any order, repeated or not, leave the complete count grid, whatever the buffer held before |
| Schedulers.FanOutTick | Python/life.py:188-203 | the one-thread-per-cell tick gives the same next population as one generation, for every completion order of the threads |
| Schedulers.SequentialTick | Python/life.py:167-173 | the row-by-row double loop leaves the complete count grid in the buffer and yields one generation |
| Schedulers.SequentialRun | Python/life.py:167-180 | `k` timer-driven ticks of the sequential strategy produce the `k`-th generation |
| Barrier.BarrierCycle | Python/life.py:228-234 | a cycle in which every worker counted the installed population (the first cycle, or any cycle once the handoff precedes the recount) leaves the complete count grid in the buffer and yields one generation, for any interleaving of the writes; later cycles as the source schedules them are `Barrier.StaleBarrierTick` |
| Barrier.BarrierRun | Python/life.py:211-239 | with the new population installed before the workers count again and the count buffer carried from cycle to cycle, `k` barrier cycles give the `k`-th generation, whatever the interleavings |
| Barrier.StaleCounts | Python/life.py:150-158 | a worker that counts before the handoff records the previous population's count for its cell; every other worker records the current one |
| Barrier.StaleBarrierTick | Python/life.py:228-234 | the barrier cycle as scheduled agrees with one generation when no worker counted early, or when the population did not change |
| Patterns.Resize | Python/life.py:361-367 | the resized pattern is n-by-n, equal to the pattern wherever the pattern has an entry and the grid has room, 0 everywhere else, and 0/1 when the pattern is |
| Patterns.ResizePattern | Python/life.py:361-367 | the copy loop gives an n-by-n grid equal to the pattern wherever the pattern has an entry and the grid has room, and 0 everywhere else |
| Patterns.ResizeKeepsFittingGrid | Python/life.py:361-367 | a pattern that is already an n-by-n grid comes out unchanged |
| Patterns.ResizeIdempotent | Python/life.py:361-367 | resizing a resized pattern changes nothing |
| Patterns.ResizeThroughLarger | Python/life.py:363-365 | truncating to a larger grid first and then to a smaller one equals truncating to the smaller one directly |
| Patterns.Catalogue | Python/life.py:249-253 | every pattern of the catalogue holds only zeros and ones |
| Patterns.InitializePopulation | Python/life.py:241-369 | "Random" gives a 0/1 grid following the coin; a catalogue name gives that pattern resized; any other name gives the empty n-by-n grid |
| Setup.DigitsValue | Python/life.py:93 | `int` of a string of `k` digits is below 10^k, and a single digit reads as its own value |
| Setup.DecimalRoundTrip | Python/life.py:92-93 | every number's decimal spelling passes the digit test and `int` reads the same number back |
| Setup.Dimension | Python/life.py:92-99 | the dimension lies in [25, 100] and in [50, 100] for "Glider Gun" and "Loafer Synth"; a non-digit entry gives 25 (or 50); an entry already in range is kept |
| Setup.DimensionMonotone | Python/life.py:92-99 | a larger entered number never gives a smaller grid |
| Setup.DimensionHonoursEntry | Python/life.py:92-99 | typing any number from 25 to 100 (from 50 for the two large patterns) gives exactly that dimension |
| Setup.InitSimulation | Python/life.py:80-107 | start-up uses the dimension the entry and pattern give, a starting population of that size as the pattern prescribes (each "Random" cell following the coin, a catalogue name resized, anything else empty), and an all-zero count buffer |
| Examples.BlinkerIsBarAcross | Python/life.py:251 | the catalogue's blinker, resized to any n >= 3, is a horizontal bar of three cells |
| Examples.BarTurnsUpright | Python/life.py:171-173 | on any grid of size at least 3, the horizontal bar becomes the vertical bar in one generation |
| Examples.BarTurnsAcross | Python/life.py:171-173 | on any grid of size at least 3, the vertical bar becomes the horizontal bar in one generation |
| Examples.BlinkerHasPeriodTwo | Python/life.py:251 | the catalogue's blinker differs from itself after one generation and is back after two, on every grid it fits in |
| Examples.StartedBlinkerHasPeriodTwo | Python/life.py:241-251 | choosing "Blinker" at start-up, with the catalogue table, gives the horizontal bar on every grid of size at least 3, which is back after two generations |
| Examples.GliderIsPhase0 | Python/life.py:250 | the catalogue's glider, resized to any n >= 4, is the glider's first phase at offset (0, 0) |
| Examples.GliderMovesDiagonally | Python/life.py:171-173 | a glider with room below and to its right reappears one cell down and one cell right after four generations |
| Examples.CatalogueGliderMoves | Python/life.py:250 | the catalogue's glider, on any grid of size at least 5, has moved by (1, 1) after four generations |
| Examples.StaleWorkerBreaksBarrierTick | Python/life.py:150-158 | one worker counting before the handoff makes the barrier cycle differ from the true next generation of the blinker |

## Left out

- The `Barriere` class (life.py:8-21), the thread creation and joins, and the wake-ups are left out. Only their sequential meaning is modelled: an arbitrary completion order of the per-cell writes, and the barrier as the point where all writes are done.
- The menu, canvas drawing, `display_population` and the `canvas.after` timers are left out: they are user interface. A run of `k` timer ticks is a loop of `k` steps.
- `cell_size = size / n` (life.py:100) is left out: floating-point arithmetic used only for drawing.
- `random.choice` (life.py:247) is not modelled as randomness. The caller supplies the coin, a function from cell to bool; true is a live cell.
- The cell values of "Glider Gun" and "Loafer Synth" (life.py:254-354) are left out. `InitializePopulation` takes the pattern table as a parameter. `Catalogue` holds the four small patterns.
- `Setup.Dimension` models `str.isdigit` as "non-empty and ASCII digits only". Python also accepts other Unicode digit characters, which `int` may reject; that case is not modelled.
- Setup.Dimension: a digit string longer than Python's integer-string limit (`sys.get_int_max_str_digits()`, 4300 by default) passes `isdigit` at life.py:92 but makes `int` raise `ValueError` at life.py:93, after the menu frame has been destroyed, so no simulation starts; the model clamps such an entry to 100 instead, and `Setup.InitSimulation` inherits this through `s.n == Dimension(entry, pattern)`. The limit depends on the interpreter version and its settings.
- `Barrier.StaleCounts` lets a worker count wholly from the previous or wholly from the current population. In the source, a worker that is mid-count when the population is replaced may mix the two; that is not modelled.
- The worker threads' infinite loop and the coordinator's re-arming timer are not modelled as non-terminating processes; `Barrier.BarrierRun` covers any finite number of cycles.

## Findings

| source | as written | input that shows it | evidently intended | confidence | as-written member | corrected member |
|---|---|---|---|---|---|---|
| Python/life.py:150-158, 228-234 | each worker loops straight back to counting after `barrier.wait()` returns. The coordinator installs the new population only after its comprehension has finished. A worker can therefore count the previous population, and the next cycle applies the rule to the new population with that stale count | the blinker on any grid n >= 3: after the first cycle makes it vertical, the worker for cell (1, 0) counts the horizontal bar (one live neighbour instead of three), so the cell that should be born stays dead | every cycle's counts are taken from the population the coordinator installed in the previous cycle | not executed; the interleaving needs only one worker to count before the coordinator's assignment | Barrier.StaleBarrierTick, Examples.StaleWorkerBreaksBarrierTick | Barrier.BarrierRun |
