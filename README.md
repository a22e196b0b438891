# Game of Life generation stepper

A model of the cellular-automaton engine of `automata.c`: a Y×Y grid of
integer cells held in two buffers, `map` and `map_out`, advanced X
generations under Conway's rule with a clipped (non-wrapping) boundary.
Generation `gen` reads `map` and writes `map_out` when `gen` is even, and the
other way round when it is odd; afterwards the parity of X says which buffer
holds the result.

The project has three modules:

- `Life` (`life.dfy`): the pure specification. A `Grid` is a `seq<seq<int>>`.
  `CountAlive(g, r, c)` sums the values at the eight neighbour positions of
  `(r, c)`, and a position outside the grid adds nothing. `Rule` is the
  transition rule, `Next(g)` is one synchronous generation and `Iterate(g, n)`
  is n of them. Lemmas cover the count's bounds, the corner, edge and interior
  cases, the rule, 0/1 preservation and the algebra of `Iterate`.
- `Stepper` (`stepper.dfy`): the program's loops over two `array2<int>`
  buffers. `CountNeighbours` has the program's hand-unrolled bounds tests.
  `Step` is the `i`/`j` double loop of one generation. `RunAsWritten` is the
  `gen` loop with the parity-based role swap, followed by the parity-based
  choice of the result buffer, for any integer X. `Run` is the same for
  X ≥ 0. The buffer roles are also modelled as values (`Buffer`,
  `ReadBuffer`, `WriteBuffer`, `Holder`). `map` is a Dafny keyword, so the
  program's `map` is called `mapIn` here.
- `Patterns` (`patterns.dfy`): concrete grids. A 2×2 block on a 6×6 grid is a
  still life. A 3-cell blinker oscillates with period 2. A lone corner cell
  on a 3×3 grid dies.

Main results:

- `Stepper.Step`: after one pass the destination buffer equals
  `Next(source)`, and the source buffer is not modified. The loop invariants
  say that every cell already visited holds `NextCell` of the source grid
  and every cell not yet visited still holds its old value. Since the source
  never changes, the result does not depend on the order in which cells are
  visited.
- `Stepper.Run`: the buffer chosen by the parity of X is `map_out` when X is
  odd and `map` when X is even, and it equals `Iterate(initial, X)`. The
  other buffer holds `Iterate(initial, X - 1)` when X > 0. For X = 0 neither
  buffer changes and the result is `map`. If the initial grid is all 0/1, so
  is the result.

The program has no parallel code: `omp.h` is included but no pragma is used,
the thread count `Z` is parsed but never read, and no rows are partitioned
among threads. The engine is therefore modelled as sequential.

## Model

| member | source | states |
|---|---|---|
| `Life.NeighbourPositions` | automata.c:74-79 | there are eight pairwise distinct neighbour positions, none of them the cell itself, all within one row and one column of it |
| `Life.CountAlive` | automata.c:94-148 | the count of a cell sums its in-grid neighbours; with 0/1 cells it lies between 0 and the number of in-grid neighbour positions |
| `Life.SumAtBounds` | automata.c:94-148 | with 0/1 cells, a sum over positions lies between 0 and the number of those positions inside the grid |
| `Life.CountAliveExpanded` | automata.c:94-148 | the count is the sum of the clipped values at the eight neighbours |
| `Life.SlotsExpanded` | automata.c:94-148 | the number of counted positions is the number of the eight neighbours that lie inside the grid |
| `Life.CountAliveBounds` | automata.c:94-148 | with 0/1 cells the count lies between 0 and the cell's number of in-grid neighbours, which is at most 8 |
| `Life.CornerSlots` | automata.c:94-148 | a corner cell (Y ≥ 2) has exactly 3 in-grid neighbour positions |
| `Life.EdgeSlots` | automata.c:94-148 | a non-corner edge cell (Y ≥ 3) has exactly 5 in-grid neighbour positions |
| `Life.InteriorSlots` | automata.c:94-148 | an interior cell has all 8 neighbour positions |
| `Life.BoundaryCountBounds` | automata.c:94-148 | with 0/1 cells a corner cell counts at most 3 alive neighbours and an edge cell at most 5 |
| `Life.CornerCountNoWrap` | automata.c:94-148 | the count of cell (0, 0) is `g[0][1] + g[1][0] + g[1][1]`, with nothing taken from the opposite edges |
| `Life.TopRowIgnoresBottomRow` | automata.c:94-148 | clipped, not wrapped: the count of a top-row cell is the same in two grids that differ only in the bottom row |
| `Life.LeftColumnIgnoresRightColumn` | automata.c:94-148 | clipped, not wrapped: the count of a left-column cell is the same in two grids that differ only in the right column |
| `Life.CountAliveLocal` | automata.c:94-148 | the count depends only on the 3×3 neighbourhood of the cell |
| `Life.Rule` | automata.c:151-160 | the next state is 1 exactly on a count of 3, or a count of 2 with current value 1; a 0/1 cell gives 0 or 1 |
| `Life.NextCell` | automata.c:85-165 | the state of cell (r, c) in the next generation: the rule applied to its value and count in the previous grid |
| `Life.RuleIsB3S23` | automata.c:151-160 | on 0/1 cells: a dead cell becomes alive exactly on a count of 3, a live cell stays alive exactly on 2 or 3, and the result is 0 or 1 |
| `Life.NextAt` | automata.c:85-165 | cell (r, c) of the next generation is the rule applied to the cell's value and its count, both taken from the previous generation |
| `Life.NextByCount` | automata.c:151-160 | next state: 1 on a count of 3 whatever the state, the current value on a count of 2, 0 otherwise |
| `Life.Next` | automata.c:69-167 | one generation keeps the side length of the grid |
| `Life.Iterate` | automata.c:65-168 | any number of generations keeps the side length of the grid |
| `Life.NextBinary` | automata.c:151-165 | one generation keeps every cell 0 or 1 |
| `Life.IterateBinary` | automata.c:65-168 | a grid of 0/1 cells stays 0/1 after any number of generations |
| `Life.IterateZero` | automata.c:65 | zero generations leave the grid unchanged |
| `Life.IterateAdd` | automata.c:65-168 | a generations followed by b generations are a + b generations |
| `Life.IterateFront` | automata.c:65-168 | n > 0 generations are one generation followed by n - 1 more |
| `Life.StillLifeForever` | automata.c:65-168 | a grid with `Next(g) == g` stays the same after any number of generations |
| `Life.Period2Forever` | automata.c:65-168 | a grid with `Next(Next(g)) == g` returns after every even number of generations and is `Next(g)` after every odd number |
| `Stepper.Snapshot` | automata.c:34-35 | the grid read from a buffer has the buffer's dimensions |
| `Stepper.ReadBuffer` | automata.c:86-89 | generation 0 reads `map`, and each generation reads the other buffer from the one before |
| `Stepper.WriteBuffer` | automata.c:86-165 | the buffer a generation writes (lines 162-165) is never the one it reads (lines 86-89) |
| `Stepper.Holder` | automata.c:162-191 | the buffer holding the latest grid after x generations (`map` at first, then the one written last) is the buffer generation x reads |
| `Stepper.Pick` | automata.c:34-35 | a buffer name stands for one of the two arrays, and distinct names stand for distinct arrays |
| `Stepper.CRem2` | automata.c:170 | C's `x % 2` differs from x by a multiple of 2, is 0 or 1 for x ≥ 0, and is 0 or -1 for x < 0 |
| `Stepper.SelectedBuffer` | automata.c:170-191 | the parity test prints `map_out` exactly when X is odd, negative X included |
| `Stepper.SelectedIsHolder` | automata.c:170-191 | for X ≥ 0 the parity test selects exactly the buffer that holds the grid after X generations |
| `Stepper.NegativeOddSelectsUnwritten` | automata.c:65-191 | for every negative odd X the loop makes no pass and `map` holds the grid, but the parity test selects `map_out` |
| `Stepper.CountNeighbours` | automata.c:91-148 | the program's nested bounds tests compute exactly `CountAlive` of the source buffer at (i, j) |
| `Stepper.Step` | automata.c:69-167 | after one pass the destination buffer holds `Next` of the source buffer, and the source buffer is unchanged |
| `Stepper.RunAsWritten` | automata.c:63-191 | for any integer X the loop makes `Passes(X)` passes (X, or none when X < 0), the result is the buffer the C parity test selects, the buffer holding the latest grid equals `Iterate(initial, passes)`, the other holds the generation before, and with no pass neither buffer changes |
| `Stepper.Run` | automata.c:63-191 | after X ≥ 0 generations the result is `map_out` for odd X and `map` for even X; it equals `Iterate(initial, X)`; the other buffer holds `Iterate(initial, X - 1)` for X > 0; for X = 0 neither buffer changes; 0/1 cells stay 0/1 |
| `Patterns.VerticalTurnsHorizontal` | automata.c:69-167 | the vertical 3×3 blinker becomes `[[0,0,0],[1,1,1],[0,0,0]]` after one generation |
| `Patterns.HorizontalTurnsVertical` | automata.c:69-167 | the horizontal 3×3 blinker becomes vertical after one generation |
| `Patterns.BlinkerOscillates` | automata.c:65-168 | the blinker is vertical after every even number of generations and horizontal after every odd number |
| `Patterns.BlockIsStill` | automata.c:65-168 | a 2×2 block at rows 2-3, columns 2-3 of a 6×6 grid is unchanged after any number of generations |
| `Patterns.LoneCornerCount` | automata.c:94-148 | on a 3×3 grid the corner (0, 0) has 3 counted positions and, when it is the only live cell, a count of 0 |
| `Patterns.LoneCornerDies` | automata.c:69-167 | a lone live corner cell on a 3×3 grid leaves every cell dead after one generation |

## Left out

- Argument parsing (`argc` check, `atoi`, lines 17-32): this is command-line plumbing. X arrives as an `int` parameter of `RunAsWritten` (a `nat` one of `Run`), and Y is the side length of the buffers.
- File handling (`fopen`, `strcpy`/`strcat` of the output name, `fclose`, lines 37-47 and 193-194): this is I/O.
- The `fscanf`/`feof` input loop (lines 49-61): this is I/O. It also has no bounds check, so a trailing failed read can store past the grid. The model starts from whatever `mapIn` holds. The 0/1 guarantee is stated only for 0/1 initial grids.
- The output loops that `fprintf` the chosen buffer (lines 176-178 and 187-189): the model says which buffer is chosen and what it holds, not how it is printed.
- Parallelism and the thread count `Z` (lines 7, 25, 32): the program runs sequentially, so there is nothing to model.
- 32-bit `int` overflow: cells are unbounded integers. With 0/1 cells a count is at most 8, so in the program's intended use nothing overflows.
- A side length Y ≤ 0 (a variable-length array of no size): `array2` sizes are natural numbers, and for Y = 0 every loop is empty.

## Findings

| source | as written | input that shows it | evidently intended | confidence | as-written member | corrected member |
|---|---|---|---|---|---|---|
| automata.c:65-191 | the loop `for (gen = 0; gen < X; gen++)` is followed by `if (X % 2 != 0)` print `map_out` else `map`, with X taken from `atoi` and never checked | X = -1: the loop makes no pass, so `map` holds the input, but `-1 % 2` is -1 in C and the program prints `map_out`, which was never written | a negative generation count is rejected, or the result is taken from the buffer holding the latest grid (`map` when no pass ran) | not executed; the C semantics of `%` are certain, the practical impact is low | `Stepper.RunAsWritten` | `Stepper.Run` |

`RunAsWritten` models the loop and the test for any integer X: with no pass
both buffers keep their old contents, and the result is the buffer
`SelectedBuffer(X)` names. `NegativeOddSelectsUnwritten` shows that for every
negative odd X that buffer is `map_out`, while `map` holds the grid. `Run`
takes X as a `nat`, and its result is `Holder(X)`, the buffer holding the
latest grid. `SelectedIsHolder` shows that the parity test agrees with
`Holder` for every X ≥ 0.
