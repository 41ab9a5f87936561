# Game of Life on a 6 x 6 torus: the evolution engine

This project models the engine of a Game of Life variant played on a 6 x 6
board whose edges wrap around:

- `Cell` (src/Cell.java) is a mutable cell. It holds a liveness flag `viva` and
  an age `edad`.
- `Board` (src/Board.java) owns a 6 x 6 array of cells. It builds an all-dead
  board, seeds single cells alive or dead, counts the live neighbours of a
  position with wrap-around, counts the live cells, and computes the next
  generation.

The variant rule: a dead cell with exactly 3 live neighbours is born. A live
cell with 2, 3 or 4 live neighbours survives. After that, every cell's state
may be flipped at random.

The model has three modules:

- `Cells` (Cell.dfy) has the value `CellState` of a cell and the functions that
  give its new value under each mutator. It also has the class `Cell`, whose
  methods update the fields `viva` and `edad` in place and are specified by
  those functions.
- `Life` (Life.dfy) has the board as a value (`Grid`) and the specification
  functions:
  - `NeighbourCount` follows the order of the two offset loops of
    `contarVecinos`. It is proved equal to the size of an independent
    definition, the set of live torus neighbours.
  - `LiveCount` follows the loops of `obtenerCantidadVivas`. It is proved equal
    to the size of the set of live positions.
  - `Step` gives the next generation.
  - The lemmas state the counting bounds, locality, the wrap-around, the rule
    cases and the age bookkeeping.
- `Boards` (Board.dfy) has the class `Board`:
  - Its field `cuadricula` is an `array2<Cell?>`.
  - The ghost field `Contents` is the grid value the cells hold.
  - `Valid()` ties each array position to a distinct `Cell` object holding
    that position's value.
  - Every method is proved against the `Life` functions. For example,
    `ProximaGeneracion` ensures `Contents == Step(old(Contents), flip)`.

The random draw `Math.random() < 0.1` is an input. `flip(fila, columna)` says
whether the cell at that position is flipped in this generation.

Where the source's own comments and its code disagree, the model follows the code:

- A surviving cell's age grows by 2 per generation, although the comment at
  src/Board.java:131 says the age is incremented. The new cell is built alive,
  so its age is 1, and `incrementarEdad` is then called `edadActual + 1` times
  (src/Board.java:127-135).
- A seeded cell is alive at age 0, although the comment at src/Cell.java:69
  says a cell's age is 1 when it is born. The board is filled with `new Cell(false)`,
  and `establecerViva` only sets the flag (src/Board.java:23, src/Board.java:44).
  So a seeded board does not satisfy "alive implies age at least 1" until the
  next generation. `Life.StepIsAgeConsistent` proves that generation restores it.
- `contarVecinos` works only for `fila, columna >= -5`. Below that, the Java
  remainder of a negative number gives a negative index.
  `Boards.Board.ContarVecinos` requires exactly that range. Within it, Java's `%`
  and Dafny's `%` agree.

## Model

| member | source | states |
|---|---|---|
| Cells.Born | src/Cell.java:21-24 | `Cell(v)` gives liveness `v`, age 1 when alive and 0 when dead, within the age bookkeeping |
| Cells.WithAlive | src/Cell.java:46-48 | `setViva(v)` sets the liveness and leaves the age as it was |
| Cells.Incremented | src/Cell.java:54-58 | `incrementarEdad` adds exactly 1 to a live cell's age and changes nothing on a dead cell |
| Cells.AgeReset | src/Cell.java:72-74 | `reiniciarEdad` keeps the liveness and sets the age a newborn (or dead) cell has |
| Cells.Glyph | src/Cell.java:80-82 | the display character is '1' exactly when the cell is alive and '0' exactly when it is dead |
| Cells.IncrementedTimes | src/Board.java:133-135 | repeated increments never change the liveness and never lower the age |
| Cells.IncrementedTimesAge | src/Board.java:133-135 | `k` increments add `k` to a live cell's age and leave a dead cell unchanged |
| Cells.AgeNeverNegative | src/Cell.java:12-74 | no sequence of the mutators makes a non-negative age negative |
| Cells.ConstructedAgeNeverNegative | src/Cell.java:12-24 | a cell from either constructor keeps a non-negative age under any sequence of mutators |
| Cells.ApplyKeepsAgeConsistent | src/Cell.java:46-74 | each mutator keeps "dead implies age 0, alive implies age at least 1", except a `setViva` that changes the liveness; setting a dead cell alive gives age 0 |
| Cells.Cell.constructor | src/Cell.java:12-15 | `Cell()` is dead with age 0 |
| Cells.Cell.FromLiveness | src/Cell.java:21-24 | `Cell(viva)` holds `Born(viva)` |
| Cells.Cell.EstaViva | src/Cell.java:30-32 | returns the cell's liveness |
| Cells.Cell.GetEdad | src/Cell.java:38-40 | returns the cell's age |
| Cells.Cell.SetViva | src/Cell.java:46-48 | the new value is `WithAlive` of the old one |
| Cells.Cell.IncrementarEdad | src/Cell.java:54-58 | the new value is `Incremented` of the old one |
| Cells.Cell.Reiniciar | src/Cell.java:63-66 | the cell becomes dead with age 0 |
| Cells.Cell.ReiniciarEdad | src/Cell.java:72-74 | the new value is `AgeReset` of the old one |
| Cells.Cell.ACaracter | src/Cell.java:80-82 | returns `Glyph` of the cell: '1' exactly when `viva` |
| Life.AllDead | src/Board.java:20-26 | the initial grid is 6 x 6 with every cell dead at age 0 |
| Life.WithLiveness | src/Board.java:43-54 | seeding sets the liveness of the addressed cell, keeps its age and leaves every other cell unchanged |
| Life.SeededCellStartsAtAgeZero | src/Board.java:43-45 | a cell seeded alive on a fresh board is alive at age 0, outside the age bookkeeping |
| Life.Wrap | src/Board.java:76-77 | the wrapped index is in 0..5 for every index the loops produce |
| Life.Contribution | src/Board.java:69-83 | one offset contributes 0 or 1, and the centre offset contributes 0 |
| Life.RowContributions | src/Board.java:69-83 | one pass of the inner loop counts at most one per offset, and the centre row counts at most 2 |
| Life.Contributions | src/Board.java:68-84 | after each outer pass the count is at most 3 per row, less one once the centre has been skipped |
| Life.NeighbourCount | src/Board.java:63-87 | the neighbour count is between 0 and 8 |
| Life.WrapInjective | src/Board.java:76-77 | distinct offsets in -1..1 reach distinct wrapped indices |
| Life.RowContributionsCount | src/Board.java:68-83 | the loop count so far is the number of distinct live positions the offsets visited so far |
| Life.LiveNeighboursAreCounted | src/Board.java:68-83 | the positions the eight offsets reach and find alive are exactly the live torus neighbours |
| Life.NeighbourCountIsLiveNeighbours | src/Board.java:63-87 | the count equals the number of live cells touching the position on the torus, each counted once |
| Life.LiveNeighboursAfterSeeding | src/Board.java:43-54 | seeding one cell alive adds it to a position's live neighbours exactly when it is a neighbour |
| Life.NeighbourCountLocality | src/Board.java:63-87 | one cell alive rather than dead raises a position's count by 1 exactly when it is a neighbour, by 0 otherwise |
| Life.NeighbourCountIgnoresSelf | src/Board.java:71-73 | a cell's own liveness never changes its own count |
| Life.CornerWrapsAround | src/Board.java:76-77 | a live (0, 0) counts toward (5, 5), (5, 0) and (0, 5) |
| Life.NeighbourCountAllDead | src/Board.java:63-87 | every count is 0 on an all-dead board |
| Life.NeighbourCountAllAlive | src/Board.java:63-87 | every count is 8 on an all-alive board |
| Life.RowLive | src/Board.java:159-163 | the live cells among the first `k` of a row number at most `k` |
| Life.RowsLive | src/Board.java:158-164 | the live cells of the first `k` rows number at most 6k |
| Life.LiveCount | src/Board.java:156-166 | the live count is between 0 and 36 |
| Life.LiveBeforeCount | src/Board.java:158-164 | the loop count so far is the number of live positions visited so far |
| Life.LiveCountIsLiveCells | src/Board.java:156-166 | the live count equals the number of live positions |
| Life.LiveCountAfterSeeding | src/Board.java:43-54 | seeding a dead cell alive adds 1 to the live count, seeding a live cell dead removes 1, and otherwise the count is unchanged |
| Life.RuleAlive | src/Board.java:107-119 | the rule value is `n == 3` for a dead cell and `2 <= n <= 4` for a live one |
| Life.NextCell | src/Board.java:107-142 | the next liveness is the rule value XOR the flip |
| Life.Step | src/Board.java:97-150 | the next generation is again a 6 x 6 grid |
| Life.NextCellAge | src/Board.java:126-142 | a cell that ends dead has age 0, one born has age 1, a survivor of non-negative age has its old age plus 2, and the result keeps the age bookkeeping |
| Life.StepCell | src/Board.java:104-142 | on the next generation each cell's liveness is the variant rule on the old count XOR its flip, and its age follows the three cases |
| Life.StepIsAgeConsistent | src/Board.java:126-144 | after any generation every cell is dead with age 0 or alive with age at least 1, whatever the grid before |
| Boards.NuevaCelula | src/Board.java:107-142 | the cell built for one position holds `NextCell` of the old value, its neighbour count and its flip |
| Boards.Board.constructor | src/Board.java:12-15 | a new board is valid and holds the all-dead grid |
| Boards.Board.InicializarTablero | src/Board.java:20-26 | fills every position with its own fresh dead cell of age 0 |
| Boards.Board.ObtenerCelula | src/Board.java:34-36 | returns the cell at the position, which holds that position's value |
| Boards.Board.EstablecerViva | src/Board.java:43-45 | the board holds `WithLiveness(old, fila, columna, true)` and stays valid |
| Boards.Board.EstablecerMuerta | src/Board.java:52-54 | the board holds `WithLiveness(old, fila, columna, false)` and stays valid |
| Boards.Board.ContarVecinos | src/Board.java:63-87 | returns `NeighbourCount` of the board at the position |
| Boards.Board.ActualizarPosicion | src/Board.java:104-144 | stores a fresh cell holding the next value of one position in the new array |
| Boards.Board.ActualizarFila | src/Board.java:103-145 | the new array holds the next generation up to the end of the row |
| Boards.Board.ProximaGeneracion | src/Board.java:97-150 | the board holds `Step(old, flip)`, in fresh cells, and stays valid |
| Boards.Board.ObtenerCantidadVivas | src/Board.java:156-166 | returns `LiveCount` of the board |
| Boards.Board.ObtenerTamano | src/Board.java:186-188 | returns the number of rows, which is also the number of columns |

## Left out

- src/Menu.java and src/MainGame.java are not part of this model. They are
  console input, screen clearing, pacing and the menu loop. The pattern builders
  there are only fixed sequences of `establecerViva` calls.
- `mostrar` and `mostrarRegistroCeldas` (src/Board.java:173-210) only print, so
  they are not modelled.
- The random draw `Math.random() < 0.1` becomes the input `flip`. Probabilities
  are not modelled.
- Boards.Board.ObtenerCelula: the returned `Cell` is treated as read-only. A
  caller that mutates it through the reference would change the board behind
  `Contents`, and the model does not capture that aliasing.
- Cells.Cell.IncrementarEdad, Life.NextCell, Boards.NuevaCelula: ages are
  unbounded integers. The 32-bit wrap-around of `edad++` after 2^31 - 1
  increments is not modelled, nor the overflow of `edadActual + 1` at
  src/Board.java:133: at the largest `int` the Java loop runs zero times and
  leaves age 1, where the model gives the old age plus 2.
- Boards.Board.ObtenerCelula, Boards.Board.EstablecerViva,
  Boards.Board.EstablecerMuerta, Boards.Board.ContarVecinos: coordinates
  outside the board, for which Java throws `ArrayIndexOutOfBoundsException`
  (src/Board.java:35, 44, 53, 80), are excluded by their preconditions rather
  than modelled as an error result.
- Boards.Board.ContarVecinos: 32-bit overflow of `fila + n + TAMAÑO` for indices
  near the largest `int` is not modelled.
- Boards.Board.ActualizarPosicion and Boards.Board.ActualizarFila: in the source
  these are the body of the nested loops of `proximaGeneracion`, written inline.
  The model splits them out as methods. The order of the steps and the
  arithmetic are unchanged.
- Life.Step: its own contract states only the shape. The content of each cell is
  stated by `Life.StepAt` and `Life.StepCell`.
