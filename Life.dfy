/**
  The board as a value (src/Board.java): a 6 x 6 toroidal grid of cell values,
  the neighbour count, the live-cell count and the generation step, with the
  properties they have.
 */
module Life {
  import opened Cells

  /** The side of the square board (`TAMAÑO`). */
  const Size := 6

  /** A grid value: rows of cell values, indexed `[fila][columna]`. */
  type Grid = seq<seq<CellState>>

  /** The random flip drawn for each cell in one generation (`Math.random() < 0.1`), given as an input. */
  type Flips = (int, int) -> bool

  predicate IsGrid(g: Grid) {
    |g| == Size && forall i | 0 <= i < Size :: |g[i]| == Size
  }

  predicate InRange(r: int, c: int) {
    0 <= r < Size && 0 <= c < Size
  }

  /** Every cell dead with age 0. */
  ghost predicate IsAllDead(g: Grid)
    requires IsGrid(g)
  {
    forall i, j | 0 <= i < Size && 0 <= j < Size :: g[i][j] == DeadCell
  }

  /** A freshly built board: every cell as `new Cell(false)` leaves it. */
  function AllDead(): (g: Grid)
    ensures IsGrid(g) && IsAllDead(g)
  {
    seq(Size, i => seq(Size, j => Born(false)))
  }

  /** Every cell alive. */
  ghost predicate IsAllAlive(g: Grid)
    requires IsGrid(g)
  {
    forall i, j | 0 <= i < Size && 0 <= j < Size :: g[i][j].alive
  }

  // ---------------------------------------------------------------------------
  // Seeding a single cell (establecerViva / establecerMuerta)
  // ---------------------------------------------------------------------------

  /** The grid after `setViva(v)` on the cell at (r, c); nothing else changes. */
  function WithLiveness(g: Grid, r: int, c: int, v: bool): (g': Grid)
    requires IsGrid(g) && InRange(r, c)
    ensures IsGrid(g')
    ensures g'[r][c] == CellState(v, g[r][c].age)
    ensures forall i, j | 0 <= i < Size && 0 <= j < Size && (i != r || j != c) :: g'[i][j] == g[i][j]
  {
    g[r := g[r][c := WithAlive(g[r][c], v)]]
  }

  /** A cell seeded on a fresh board is alive at age 0, outside the age bookkeeping of the evolution. */
  lemma SeededCellStartsAtAgeZero(r: int, c: int)
    requires InRange(r, c)
    ensures WithLiveness(AllDead(), r, c, true)[r][c] == CellState(true, 0)
    ensures !AgeConsistent(WithLiveness(AllDead(), r, c, true)[r][c])
  {
  }

  // ---------------------------------------------------------------------------
  // Neighbour count (contarVecinos)
  // ---------------------------------------------------------------------------

  /** The wrapped index `(x + TAMAÑO) % TAMAÑO`, for an `x` the source never lets go below -TAMAÑO. */
  function Wrap(x: int): (w: int)
    requires x >= -Size
    ensures 0 <= w < Size
  {
    (x + Size) % Size
  }

  /** The contribution of offset (dr, dc) from (r, c): 1 if that wrapped neighbour lives; the centre counts 0. */
  function Contribution(g: Grid, r: int, c: int, dr: int, dc: int): (n: nat)
    requires IsGrid(g) && r >= 1 - Size && c >= 1 - Size
    requires -1 <= dr <= 1 && -1 <= dc <= 1
    ensures n <= 1
    ensures dr == 0 && dc == 0 ==> n == 0
  {
    if dr == 0 && dc == 0 then 0
    else if g[Wrap(r + dr)][Wrap(c + dc)].alive then 1
    else 0
  }

  /** The contributions of the offsets (dr, -1) .. (dr, k - 1): one pass of the inner loop. */
  function RowContributions(g: Grid, r: int, c: int, dr: int, k: int): (n: nat)
    requires IsGrid(g) && r >= 1 - Size && c >= 1 - Size
    requires -1 <= dr <= 1 && -1 <= k <= 2
    ensures n <= k + 1
    ensures dr == 0 && k >= 1 ==> n <= k
    decreases k + 1
  {
    if k == -1 then 0
    else RowContributions(g, r, c, dr, k - 1) + Contribution(g, r, c, dr, k - 1)
  }

  /** The contributions of the rows of offsets -1 .. k - 1: the outer loop after k + 1 passes. */
  function Contributions(g: Grid, r: int, c: int, k: int): (n: nat)
    requires IsGrid(g) && r >= 1 - Size && c >= 1 - Size
    requires -1 <= k <= 2
    ensures n <= 3 * (k + 1) - (if k >= 1 then 1 else 0)
    decreases k + 1
  {
    if k == -1 then 0
    else Contributions(g, r, c, k - 1) + RowContributions(g, r, c, k - 1, 2)
  }

  /** The number of live cells among the 8 wrapped neighbours of (r, c); between 0 and 8. */
  function NeighbourCount(g: Grid, r: int, c: int): (n: nat)
    requires IsGrid(g) && r >= 1 - Size && c >= 1 - Size
    ensures n <= 8
  {
    Contributions(g, r, c, 2)
  }

  /** Two indices at most one step apart on the ring of Size positions. */
  predicate Near(a: int, b: int) {
    (a - b) % Size == 0 || (a - b) % Size == 1 || (a - b) % Size == Size - 1
  }

  /** (i, j) touches (r, c) on the torus, in a row, a column or a diagonal, and is not (r, c) itself. */
  predicate IsNeighbour(r: int, c: int, i: int, j: int) {
    Near(r, i) && Near(c, j) && (r != i || c != j)
  }

  /** The positions of the live neighbours of (r, c). */
  ghost function LiveNeighbours(g: Grid, r: int, c: int): set<(int, int)>
    requires IsGrid(g)
  {
    set i, j | 0 <= i < Size && 0 <= j < Size && IsNeighbour(r, c, i, j) && g[i][j].alive :: (i, j)
  }

  /** The positions counted by the offsets in rows -1 .. k - 1 (and columns -1 .. m - 1 of row k). */
  ghost function Counted(g: Grid, r: int, c: int, k: int, m: int): set<(int, int)>
    requires IsGrid(g) && r >= 1 - Size && c >= 1 - Size
  {
    set dr, dc | -1 <= dr <= 1 && -1 <= dc <= 1 && (dr < k || (dr == k && dc < m))
                 && Contribution(g, r, c, dr, dc) == 1 :: (Wrap(r + dr), Wrap(c + dc))
  }

  /** Distinct offsets in -1 .. 1 land on distinct wrapped indices. */
  lemma WrapInjective(x: int, d1: int, d2: int)
    requires x >= 1 - Size && -1 <= d1 <= 1 && -1 <= d2 <= 1
    requires Wrap(x + d1) == Wrap(x + d2)
    ensures d1 == d2
  {
  }

  /** Adding offset (k, m) to the counted positions adds its contribution to the count. */
  lemma CountedStep(g: Grid, r: int, c: int, k: int, m: int)
    requires IsGrid(g) && r >= 1 - Size && c >= 1 - Size
    requires -1 <= k <= 1 && -1 <= m <= 1
    ensures Counted(g, r, c, k, m + 1) ==
            Counted(g, r, c, k, m) + (if Contribution(g, r, c, k, m) == 1 then {(Wrap(r + k), Wrap(c + m))} else {})
  {
  }

  /** The position offset (k, m) reaches has not been counted by the offsets before it. */
  lemma CountedFresh(g: Grid, r: int, c: int, k: int, m: int)
    requires IsGrid(g) && r >= 1 - Size && c >= 1 - Size
    requires -1 <= k <= 1 && -1 <= m <= 1
    ensures (Wrap(r + k), Wrap(c + m)) !in Counted(g, r, c, k, m)
  {
    var p := (Wrap(r + k), Wrap(c + m));
    if p in Counted(g, r, c, k, m) {
      var dr, dc :| -1 <= dr <= 1 && -1 <= dc <= 1 && (dr < k || (dr == k && dc < m))
                    && Contribution(g, r, c, dr, dc) == 1 && p == (Wrap(r + dr), Wrap(c + dc));
      WrapInjective(r, dr, k);
      WrapInjective(c, dc, m);
      assert false;
    }
  }

  /** ... and so adds its contribution to the number of counted positions. */
  lemma CountedStepSize(g: Grid, r: int, c: int, k: int, m: int)
    requires IsGrid(g) && r >= 1 - Size && c >= 1 - Size
    requires -1 <= k <= 1 && -1 <= m <= 1
    ensures |Counted(g, r, c, k, m + 1)| == |Counted(g, r, c, k, m)| + Contribution(g, r, c, k, m)
  {
    CountedStep(g, r, c, k, m);
    CountedFresh(g, r, c, k, m);
  }

  lemma CountedEmpty(g: Grid, r: int, c: int)
    requires IsGrid(g) && r >= 1 - Size && c >= 1 - Size
    ensures Counted(g, r, c, -1, -1) == {}
  {
    forall p | p in Counted(g, r, c, -1, -1) ensures false {
    }
  }

  lemma CountedNextRow(g: Grid, r: int, c: int, k: int)
    requires IsGrid(g) && r >= 1 - Size && c >= 1 - Size
    ensures Counted(g, r, c, k, -1) == Counted(g, r, c, k - 1, 2)
  {
  }

  /** The row boundary and the start count nothing new. */
  lemma CountedBoundarySize(g: Grid, r: int, c: int, k: int)
    requires IsGrid(g) && r >= 1 - Size && c >= 1 - Size
    ensures |Counted(g, r, c, k, -1)| == |Counted(g, r, c, k - 1, 2)|
    ensures k == -1 ==> |Counted(g, r, c, k, -1)| == 0
  {
    CountedNextRow(g, r, c, k);
    if k == -1 {
      CountedEmpty(g, r, c);
    }
  }

  /** The inner loop's count is the number of positions it has counted. */
  lemma {:induction false} RowContributionsCount(g: Grid, r: int, c: int, k: int, m: int)
    requires IsGrid(g) && r >= 1 - Size && c >= 1 - Size
    requires -1 <= k <= 1 && -1 <= m <= 2
    ensures |Counted(g, r, c, k, m)| == Contributions(g, r, c, k) + RowContributions(g, r, c, k, m)
    decreases k + 1, m + 1
  {
    if m == -1 {
      CountedBoundarySize(g, r, c, k);
      if k > -1 {
        RowContributionsCount(g, r, c, k - 1, 2);
      }
    } else {
      RowContributionsCount(g, r, c, k, m - 1);
      CountedStepSize(g, r, c, k, m - 1);
    }
  }

  /** For an in-range centre, the wrapped offset that reaches a near index. */
  function OffsetTo(r: int, i: int): (d: int)
    requires 0 <= r < Size && 0 <= i < Size && Near(r, i)
    ensures -1 <= d <= 1 && Wrap(r + d) == i
  {
    if i == r then 0 else if i == Wrap(r + 1) then 1 else -1
  }

  /** Every wrapped offset from an in-range centre is near it. */
  lemma WrapIsNear(r: int, d: int)
    requires 0 <= r < Size && -1 <= d <= 1
    ensures Near(r, Wrap(r + d))
    ensures Wrap(r + d) == r <==> d == 0
  {
  }

  /** The live neighbours are exactly the positions the eight offsets reach and find alive. */
  lemma LiveNeighboursAreCounted(g: Grid, r: int, c: int)
    requires IsGrid(g) && InRange(r, c)
    ensures LiveNeighbours(g, r, c) == Counted(g, r, c, 2, -1)
  {
    forall p | p in Counted(g, r, c, 2, -1)
      ensures p in LiveNeighbours(g, r, c)
    {
      var dr, dc :| -1 <= dr <= 1 && -1 <= dc <= 1 && Contribution(g, r, c, dr, dc) == 1
                    && p == (Wrap(r + dr), Wrap(c + dc));
      WrapIsNear(r, dr);
      WrapIsNear(c, dc);
    }
    forall p | p in LiveNeighbours(g, r, c)
      ensures p in Counted(g, r, c, 2, -1)
    {
      var dr, dc := OffsetTo(r, p.0), OffsetTo(c, p.1);
      WrapIsNear(r, dr);
      WrapIsNear(c, dc);
      assert Contribution(g, r, c, dr, dc) == 1;
    }
  }

  /**
    The neighbour count is the number of live cells that touch (r, c) on the torus:
    each of the eight wrapped neighbours is counted once, and the cell itself never.
   */
  lemma NeighbourCountIsLiveNeighbours(g: Grid, r: int, c: int)
    requires IsGrid(g) && InRange(r, c)
    ensures NeighbourCount(g, r, c) == |LiveNeighbours(g, r, c)|
  {
    RowContributionsCount(g, r, c, 1, 2);
    LiveNeighboursAreCounted(g, r, c);
    CountedNextRow(g, r, c, 2);
  }

  /** Setting one cell alive adds it to the live neighbours of (r, c) exactly when it is a neighbour. */
  lemma LiveNeighboursAfterSeeding(g: Grid, r: int, c: int, i: int, j: int)
    requires IsGrid(g) && InRange(i, j)
    ensures LiveNeighbours(WithLiveness(g, i, j, true), r, c)
            == LiveNeighbours(WithLiveness(g, i, j, false), r, c) + (if IsNeighbour(r, c, i, j) then {(i, j)} else {})
  {
    var on: Grid, off: Grid := WithLiveness(g, i, j, true), WithLiveness(g, i, j, false);
    forall a, b | 0 <= a < Size && 0 <= b < Size
      ensures on[a][b].alive == (off[a][b].alive || (a == i && b == j))
    {
    }
  }

  /** Changing one cell changes the count of (r, c) by one exactly when that cell is a neighbour of (r, c). */
  lemma NeighbourCountLocality(g: Grid, r: int, c: int, i: int, j: int)
    requires IsGrid(g) && InRange(r, c) && InRange(i, j)
    ensures NeighbourCount(WithLiveness(g, i, j, true), r, c)
            == NeighbourCount(WithLiveness(g, i, j, false), r, c) + (if IsNeighbour(r, c, i, j) then 1 else 0)
  {
    var on, off := WithLiveness(g, i, j, true), WithLiveness(g, i, j, false);
    NeighbourCountIsLiveNeighbours(on, r, c);
    NeighbourCountIsLiveNeighbours(off, r, c);
    LiveNeighboursAfterSeeding(g, r, c, i, j);
    assert (i, j) !in LiveNeighbours(off, r, c);
  }

  /** A cell is never its own neighbour: its liveness does not change its own count. */
  lemma NeighbourCountIgnoresSelf(g: Grid, r: int, c: int)
    requires IsGrid(g) && InRange(r, c)
    ensures NeighbourCount(WithLiveness(g, r, c, true), r, c) == NeighbourCount(WithLiveness(g, r, c, false), r, c)
  {
    NeighbourCountLocality(g, r, c, r, c);
  }

  /** The wrap-around: a live (0, 0) counts toward the opposite corners (5, 5), (5, 0) and (0, 5). */
  lemma CornerWrapsAround(g: Grid)
    requires IsGrid(g)
    ensures NeighbourCount(WithLiveness(g, 0, 0, true), 5, 5) == NeighbourCount(WithLiveness(g, 0, 0, false), 5, 5) + 1
    ensures NeighbourCount(WithLiveness(g, 0, 0, true), 5, 0) == NeighbourCount(WithLiveness(g, 0, 0, false), 5, 0) + 1
    ensures NeighbourCount(WithLiveness(g, 0, 0, true), 0, 5) == NeighbourCount(WithLiveness(g, 0, 0, false), 0, 5) + 1
  {
    NeighbourCountLocality(g, 5, 5, 0, 0);
    NeighbourCountLocality(g, 5, 0, 0, 0);
    NeighbourCountLocality(g, 0, 5, 0, 0);
  }

  /** On an all-dead board every count is 0. */
  lemma NeighbourCountAllDead(g: Grid, r: int, c: int)
    requires IsGrid(g) && IsAllDead(g) && InRange(r, c)
    ensures NeighbourCount(g, r, c) == 0
  {
    NeighbourCountIsLiveNeighbours(g, r, c);
    assert LiveNeighbours(g, r, c) == {};
  }

  /** On an all-alive board every count is 8. */
  lemma NeighbourCountAllAlive(g: Grid, r: int, c: int)
    requires IsGrid(g) && IsAllAlive(g) && InRange(r, c)
    ensures NeighbourCount(g, r, c) == 8
  {
    assert g[Wrap(r - 1)][Wrap(c - 1)].alive && g[Wrap(r - 1)][Wrap(c)].alive && g[Wrap(r - 1)][Wrap(c + 1)].alive;
    assert g[Wrap(r)][Wrap(c - 1)].alive && g[Wrap(r)][Wrap(c + 1)].alive;
    assert g[Wrap(r + 1)][Wrap(c - 1)].alive && g[Wrap(r + 1)][Wrap(c)].alive && g[Wrap(r + 1)][Wrap(c + 1)].alive;
  }

  // ---------------------------------------------------------------------------
  // Live-cell count (obtenerCantidadVivas)
  // ---------------------------------------------------------------------------

  /** The live cells among the first k cells of a row. */
  function RowLive(row: seq<CellState>, k: int): (n: nat)
    requires 0 <= k <= |row|
    ensures n <= k
  {
    if k == 0 then 0 else RowLive(row, k - 1) + (if row[k - 1].alive then 1 else 0)
  }

  /** The live cells in the first k rows. */
  function RowsLive(g: Grid, k: int): (n: nat)
    requires IsGrid(g) && 0 <= k <= Size
    ensures n <= Size * k
  {
    if k == 0 then 0 else RowsLive(g, k - 1) + RowLive(g[k - 1], Size)
  }

  /** The number of live cells on the board, between 0 and 36. */
  function LiveCount(g: Grid): (n: nat)
    requires IsGrid(g)
    ensures n <= Size * Size
  {
    RowsLive(g, Size)
  }

  /** The positions of the live cells. */
  ghost function LiveCells(g: Grid): set<(int, int)>
    requires IsGrid(g)
  {
    set i, j | 0 <= i < Size && 0 <= j < Size && g[i][j].alive :: (i, j)
  }

  /** The live positions among the first k cells of row i and the rows before it. */
  ghost function LiveBefore(g: Grid, i: int, k: int): set<(int, int)>
    requires IsGrid(g)
  {
    set a, b | 0 <= a < Size && 0 <= b < Size && (a < i || (a == i && b < k)) && g[a][b].alive :: (a, b)
  }

  lemma {:induction false} LiveBeforeCount(g: Grid, i: int, k: int)
    requires IsGrid(g) && 0 <= i < Size && 0 <= k <= Size
    ensures |LiveBefore(g, i, k)| == RowsLive(g, i) + RowLive(g[i], k)
    decreases i, k
  {
    if k == 0 {
      if i == 0 {
        assert LiveBefore(g, i, k) == {};
      } else {
        LiveBeforeCount(g, i - 1, Size);
        assert LiveBefore(g, i, k) == LiveBefore(g, i - 1, Size);
      }
    } else {
      LiveBeforeCount(g, i, k - 1);
      assert (i, k - 1) !in LiveBefore(g, i, k - 1);
      assert LiveBefore(g, i, k) ==
             LiveBefore(g, i, k - 1) + (if g[i][k - 1].alive then {(i, k - 1)} else {});
    }
  }

  /** The live count is the number of live positions. */
  lemma LiveCountIsLiveCells(g: Grid)
    requires IsGrid(g)
    ensures LiveCount(g) == |LiveCells(g)|
  {
    LiveBeforeCount(g, Size - 1, Size);
    assert LiveCells(g) == LiveBefore(g, Size - 1, Size);
  }

  /** Setting a cell alive adds one to the live count unless it was already alive; setting it dead removes one unless it was already dead. */
  lemma LiveCountAfterSeeding(g: Grid, r: int, c: int, v: bool)
    requires IsGrid(g) && InRange(r, c)
    ensures LiveCount(WithLiveness(g, r, c, v)) ==
            LiveCount(g) + (if v && !g[r][c].alive then 1 else 0) - (if !v && g[r][c].alive then 1 else 0)
  {
    var g' := WithLiveness(g, r, c, v);
    LiveCountIsLiveCells(g);
    LiveCountIsLiveCells(g');
    if v {
      assert LiveCells(g') == LiveCells(g) + {(r, c)};
    } else {
      assert LiveCells(g') == LiveCells(g) - {(r, c)};
    }
  }

  // ---------------------------------------------------------------------------
  // One generation (proximaGeneracion)
  // ---------------------------------------------------------------------------

  /** The rule value before the flip, taken branch by branch as the source does. */
  function RuleAlive(alive: bool, n: int): (b: bool)
    ensures b <==> if alive then 2 <= n <= 4 else n == 3
  {
    if !alive && n == 3 then true
    else if alive then (if n < 2 || n > 4 then false else alive)
    else alive
  }

  /** How many times the source calls `incrementarEdad` on a survivor of age `age`. */
  function SurvivorIncrements(age: int): nat {
    if age + 1 > 0 then age + 1 else 0
  }

  /**
    The next value of one cell: the rule value XOR the flip gives the liveness;
    the new cell starts as `new Cell(nuevoEstado)`, gets `setViva`, and a survivor
    is incremented `edadActual + 1` times.
   */
  function NextCell(s: CellState, n: int, flip: bool): (s': CellState)
    ensures s'.alive == (RuleAlive(s.alive, n) != flip)
  {
    var alive := RuleAlive(s.alive, n) != flip;
    var built := Born(alive);
    if alive && s.alive then IncrementedTimes(WithAlive(built, true), SurvivorIncrements(s.age))
    else if alive then WithAlive(built, true)
    else WithAlive(built, false)
  }

  /** The next generation: every cell computed from the old grid and its flip. */
  function Step(g: Grid, flip: Flips): (g': Grid)
    requires IsGrid(g)
    ensures IsGrid(g')
  {
    seq(Size, i requires 0 <= i < Size =>
      seq(Size, j requires 0 <= j < Size => NextCell(g[i][j], NeighbourCount(g, i, j), flip(i, j))))
  }

  /** One cell of the next generation is the next value of the same cell of the old grid. */
  lemma StepAt(g: Grid, flip: Flips, i: int, j: int)
    requires IsGrid(g) && InRange(i, j)
    ensures Step(g, flip)[i][j] == NextCell(g[i][j], NeighbourCount(g, i, j), flip(i, j))
  {
  }

  /** The three age cases: a dead cell has age 0, a newborn age 1, a survivor its old age plus 2. */
  lemma NextCellAge(s: CellState, n: int, flip: bool)
    ensures NextCell(s, n, flip).alive == (RuleAlive(s.alive, n) != flip)
    ensures !NextCell(s, n, flip).alive ==> NextCell(s, n, flip).age == 0
    ensures NextCell(s, n, flip).alive && !s.alive ==> NextCell(s, n, flip).age == 1
    ensures NextCell(s, n, flip).alive && s.alive && s.age >= 0 ==> NextCell(s, n, flip).age == s.age + 2
    ensures AgeConsistent(NextCell(s, n, flip))
  {
    var alive := RuleAlive(s.alive, n) != flip;
    if alive && s.alive {
      IncrementedTimesAge(WithAlive(Born(alive), true), SurvivorIncrements(s.age));
    }
  }

  /**
    Each cell of the next generation: liveness is the rule value on the old grid
    XOR the flip, and the age follows the three cases.
   */
  lemma StepCell(g: Grid, flip: Flips, i: int, j: int)
    requires IsGrid(g) && InRange(i, j)
    ensures var n := NeighbourCount(g, i, j);
            Step(g, flip)[i][j].alive == ((if g[i][j].alive then 2 <= n <= 4 else n == 3) != flip(i, j))
    ensures !Step(g, flip)[i][j].alive ==> Step(g, flip)[i][j].age == 0
    ensures Step(g, flip)[i][j].alive && !g[i][j].alive ==> Step(g, flip)[i][j].age == 1
    ensures Step(g, flip)[i][j].alive && g[i][j].alive && g[i][j].age >= 0 ==>
            Step(g, flip)[i][j].age == g[i][j].age + 2
  {
    NextCellAge(g[i][j], NeighbourCount(g, i, j), flip(i, j));
  }

  /** After any generation, whatever the grid before (seeded cells of age 0 included), every cell keeps the age bookkeeping. */
  lemma StepIsAgeConsistent(g: Grid, flip: Flips)
    requires IsGrid(g)
    ensures forall i, j | 0 <= i < Size && 0 <= j < Size :: AgeConsistent(Step(g, flip)[i][j])
  {
    forall i, j | 0 <= i < Size && 0 <= j < Size
      ensures AgeConsistent(Step(g, flip)[i][j])
    {
      NextCellAge(g[i][j], NeighbourCount(g, i, j), flip(i, j));
    }
  }
}
