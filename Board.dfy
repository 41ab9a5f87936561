/**
  The board object (src/Board.java): a 6 x 6 array of Cell objects, seeded one
  cell at a time and replaced wholesale by each generation. Its ghost field
  Contents is the grid value the cells hold; every method is specified by the
  functions of module Life on that value.
 */
module Boards {
  import opened Cells
  import opened Life

  /**
    The cells of `a` in row-major order before (fila, columna) are present, belong
    to `cells`, hold the values of `target`, and are pairwise distinct objects:
    `where` maps each of them back to its own position.
   */
  ghost predicate FilledBefore(a: array2<Cell?>, cells: set<object>, where: map<object, (int, int)>,
                               target: Grid, fila: int, columna: int)
    reads a, cells
    requires a.Length0 == Size && a.Length1 == Size && IsGrid(target)
  {
    forall i, j {:trigger a[i, j]} | 0 <= i < Size && 0 <= j < Size && (i < fila || (i == fila && j < columna)) ::
      && a[i, j] != null && a[i, j] in cells && a[i, j].State() == target[i][j]
      && a[i, j] in where && where[a[i, j]] == (i, j)
  }

  /**
    One cell of the next generation, as the body of the loops of `proximaGeneracion`
    builds it from the old cell's liveness and age, its neighbour count and its flip.
   */
  method NuevaCelula(estadoActual: bool, edadActual: int, vecinos: int, flipped: bool) returns (nuevaCelula: Cell)
    ensures fresh(nuevaCelula)
    ensures nuevaCelula.State() == NextCell(CellState(estadoActual, edadActual), vecinos, flipped)
  {
    var nuevoEstado := estadoActual;
    if !estadoActual && vecinos == 3 {
      nuevoEstado := true;
    } else if estadoActual {
      if vecinos < 2 || vecinos > 4 {
        nuevoEstado := false;
      }
    }
    if flipped {
      nuevoEstado := !nuevoEstado;
    }
    nuevaCelula := new Cell.FromLiveness(nuevoEstado);
    if nuevoEstado && estadoActual {
      nuevaCelula.SetViva(true);
      var i := 0;
      while i < edadActual + 1
        invariant 0 <= i <= SurvivorIncrements(edadActual)
        invariant nuevaCelula.State() == IncrementedTimes(CellState(true, 1), i)
      {
        nuevaCelula.IncrementarEdad();
        i := i + 1;
      }
    } else if nuevoEstado && !estadoActual {
      nuevaCelula.SetViva(true);
    } else {
      nuevaCelula.SetViva(false);
    }
  }

  class Board {
    var cuadricula: array2<Cell?>
    ghost var Contents: Grid
    ghost var Repr: set<object>
    /** The position of each cell of the array; it shows that no Cell object is shared by two positions. */
    ghost var Where: map<object, (int, int)>

    /** The array is 6 x 6, every position holds its own Cell, and the cells hold Contents, ages never negative. */
    ghost predicate Valid()
      reads this, Repr
    {
      && cuadricula in Repr
      && cuadricula.Length0 == Size && cuadricula.Length1 == Size
      && IsGrid(Contents)
      && FilledBefore(cuadricula, Repr, Where, Contents, Size, 0)
      && (forall i, j | 0 <= i < Size && 0 <= j < Size :: Contents[i][j].age >= 0)
    }

    /** `new Board()`: every cell dead with age 0. */
    constructor ()
      ensures Valid() && fresh(Repr)
      ensures Contents == AllDead()
    {
      cuadricula := new Cell?[Size, Size];
      Contents := [];
      Repr := {};
      Where := map[];
      new;
      InicializarTablero();
    }

    /** Fills the array with fresh dead cells. */
    method InicializarTablero()
      requires cuadricula.Length0 == Size && cuadricula.Length1 == Size
      modifies this, cuadricula
      ensures cuadricula == old(cuadricula)
      ensures Valid() && fresh(Repr - {cuadricula})
      ensures Contents == AllDead()
    {
      ghost var target := AllDead();
      ghost var built: set<object> := {cuadricula};
      ghost var where: map<object, (int, int)> := map[];
      for fila := 0 to Size
        modifies cuadricula
        invariant cuadricula in built && fresh(built - {cuadricula})
        invariant FilledBefore(cuadricula, built, where, target, fila, 0)
      {
        for columna := 0 to Size
          modifies cuadricula
          invariant cuadricula in built && fresh(built - {cuadricula})
          invariant FilledBefore(cuadricula, built, where, target, fila, columna)
        {
          var celula := new Cell.FromLiveness(false);
          cuadricula[fila, columna] := celula;
          built := built + {celula};
          where := where[celula := (fila, columna)];
        }
      }
      Contents := target;
      Repr := built;
      Where := where;
    }

    method ObtenerCelula(fila: int, columna: int) returns (celula: Cell)
      requires Valid() && InRange(fila, columna)
      ensures celula == cuadricula[fila, columna]
      ensures celula.State() == Contents[fila][columna]
    {
      celula := cuadricula[fila, columna];
    }

    method EstablecerViva(fila: int, columna: int)
      requires Valid() && InRange(fila, columna)
      modifies this, cuadricula[fila, columna]
      ensures Valid() && Repr == old(Repr) && Where == old(Where)
      ensures Contents == WithLiveness(old(Contents), fila, columna, true)
    {
      cuadricula[fila, columna].SetViva(true);
      Contents := WithLiveness(Contents, fila, columna, true);
    }

    method EstablecerMuerta(fila: int, columna: int)
      requires Valid() && InRange(fila, columna)
      modifies this, cuadricula[fila, columna]
      ensures Valid() && Repr == old(Repr) && Where == old(Where)
      ensures Contents == WithLiveness(old(Contents), fila, columna, false)
    {
      cuadricula[fila, columna].SetViva(false);
      Contents := WithLiveness(Contents, fila, columna, false);
    }

    /** Counts the live cells among the eight wrapped neighbours, offset by offset. */
    method ContarVecinos(fila: int, columna: int) returns (cantidad: int)
      requires Valid() && fila >= 1 - Size && columna >= 1 - Size
      ensures cantidad == NeighbourCount(Contents, fila, columna)
    {
      cantidad := 0;
      for n := -1 to 2
        invariant cantidad == Contributions(Contents, fila, columna, n)
      {
        for y := -1 to 2
          invariant cantidad == Contributions(Contents, fila, columna, n) + RowContributions(Contents, fila, columna, n, y)
        {
          if n == 0 && y == 0 {
            continue;
          }
          var filaVecino := (fila + n + Size) % Size;
          var columnaVecino := (columna + y + Size) % Size;
          if cuadricula[filaVecino, columnaVecino].EstaViva() {
            cantidad := cantidad + 1;
          }
        }
      }
    }

    /**
      The body of the loops of `proximaGeneracion` for one position: count the
      neighbours of (fila, columna) on the current grid, build the cell of the next
      generation and store it at that position of the new array, which then holds
      the next generation up to and including that position.
     */
    method ActualizarPosicion(nuevaCuadricula: array2<Cell?>, fila: int, columna: int, flip: Flips,
                              ghost target: Grid, ghost built: set<object>, ghost where: map<object, (int, int)>)
      returns (nuevaCelula: Cell)
      requires Valid() && InRange(fila, columna)
      requires nuevaCuadricula.Length0 == Size && nuevaCuadricula.Length1 == Size
      requires nuevaCuadricula !in Repr
      requires IsGrid(target)
      requires target[fila][columna] == NextCell(Contents[fila][columna], NeighbourCount(Contents, fila, columna), flip(fila, columna))
      requires FilledBefore(nuevaCuadricula, built, where, target, fila, columna)
      modifies nuevaCuadricula
      ensures fresh(nuevaCelula)
      ensures FilledBefore(nuevaCuadricula, built + {nuevaCelula}, where[nuevaCelula := (fila, columna)],
                           target, fila, columna + 1)
    {
      var vecinos := ContarVecinos(fila, columna);
      var estadoActual := cuadricula[fila, columna].EstaViva();
      var edadActual := cuadricula[fila, columna].GetEdad();
      nuevaCelula := NuevaCelula(estadoActual, edadActual, vecinos, flip(fila, columna));
      nuevaCuadricula[fila, columna] := nuevaCelula;
    }

    /**
      One pass of the inner loop of `proximaGeneracion`: every position of row `fila`,
      left to right. `built` and `where` collect the fresh cells and their positions.
     */
    method ActualizarFila(nuevaCuadricula: array2<Cell?>, fila: int, flip: Flips, ghost target: Grid,
                          ghost built0: set<object>, ghost where0: map<object, (int, int)>)
      returns (ghost built: set<object>, ghost where: map<object, (int, int)>)
      requires Valid() && 0 <= fila < Size
      requires nuevaCuadricula.Length0 == Size && nuevaCuadricula.Length1 == Size
      requires nuevaCuadricula !in Repr
      requires IsGrid(target)
      requires forall j | 0 <= j < Size ::
                 target[fila][j] == NextCell(Contents[fila][j], NeighbourCount(Contents, fila, j), flip(fila, j))
      requires FilledBefore(nuevaCuadricula, built0, where0, target, fila, 0)
      modifies nuevaCuadricula
      ensures built0 <= built && fresh(built - built0)
      ensures FilledBefore(nuevaCuadricula, built, where, target, fila + 1, 0)
    {
      built, where := built0, where0;
      for columna := 0 to Size
        modifies nuevaCuadricula
        invariant built0 <= built && fresh(built - built0)
        invariant FilledBefore(nuevaCuadricula, built, where, target, fila, columna)
      {
        var nuevaCelula := ActualizarPosicion(nuevaCuadricula, fila, columna, flip, target, built, where);
        built := built + {nuevaCelula};
        where := where[nuevaCelula := (fila, columna)];
      }
    }

    /** Builds the next generation in a new array from the current one, then swaps it in. */
    method ProximaGeneracion(flip: Flips)
      requires Valid()
      modifies this
      ensures Valid() && fresh(Repr)
      ensures Contents == Step(old(Contents), flip)
    {
      ghost var target := Step(Contents, flip);
      var nuevaCuadricula: array2<Cell?> := new Cell?[Size, Size];
      ghost var built: set<object> := {nuevaCuadricula};
      ghost var where: map<object, (int, int)> := map[];
      for fila := 0 to Size
        modifies nuevaCuadricula
        invariant Valid() && Contents == old(Contents)
        invariant fresh(built) && nuevaCuadricula in built
        invariant FilledBefore(nuevaCuadricula, built, where, target, fila, 0)
      {
        forall j | 0 <= j < Size
          ensures target[fila][j] == NextCell(Contents[fila][j], NeighbourCount(Contents, fila, j), flip(fila, j))
        {
          StepAt(Contents, flip, fila, j);
        }
        built, where := ActualizarFila(nuevaCuadricula, fila, flip, target, built, where);
      }
      StepIsAgeConsistent(Contents, flip);
      assert this !in built;
      cuadricula := nuevaCuadricula;
      Contents := target;
      Repr := built;
      Where := where;
    }

    /** Counts the live cells, row by row. */
    method ObtenerCantidadVivas() returns (cantidad: int)
      requires Valid()
      ensures cantidad == LiveCount(Contents)
    {
      cantidad := 0;
      for fila := 0 to Size
        invariant cantidad == RowsLive(Contents, fila)
      {
        for columna := 0 to Size
          invariant cantidad == RowsLive(Contents, fila) + RowLive(Contents[fila], columna)
        {
          if cuadricula[fila, columna].EstaViva() {
            cantidad := cantidad + 1;
          }
        }
      }
    }

    /** The side of the board: the number of rows and of columns. */
    function ObtenerTamano(): (t: int)
      reads this, Repr
      requires Valid()
      ensures t == cuadricula.Length0 == cuadricula.Length1 == |Contents|
      ensures forall i | 0 <= i < t :: |Contents[i]| == t
    {
      Size
    }
  }
}
