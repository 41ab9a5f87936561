/**
  A single cell of the Game of Life board (src/Cell.java): whether it is alive
  (`viva`) and how many generations old it is (`edad`).

  The value a cell holds is the datatype CellState; each mutator of the class
  Cell is specified by the function on CellState that gives its new value.
 */
module Cells {

  /** The value held by a Cell object: its liveness and its age. */
  datatype CellState = CellState(alive: bool, age: int)

  /** The bookkeeping the evolution keeps: a dead cell has age 0, a live one at least 1. */
  predicate AgeConsistent(s: CellState) {
    (!s.alive ==> s.age == 0) && (s.alive ==> s.age >= 1)
  }

  /** The value the no-argument constructor gives: dead, age 0. */
  const DeadCell := CellState(false, 0)

  /** The value `Cell(v)` gives: liveness `v`, age 1 when alive and 0 otherwise. */
  function Born(v: bool): (s: CellState)
    ensures s.alive == v && AgeConsistent(s)
    ensures s.age <= 1
  {
    CellState(v, if v then 1 else 0)
  }

  /** `setViva(v)`: only the liveness changes. */
  function WithAlive(s: CellState, v: bool): (r: CellState)
    ensures r.alive == v && r.age == s.age
  {
    s.(alive := v)
  }

  /** `incrementarEdad`: a live cell grows one generation older, a dead one is left alone. */
  function Incremented(s: CellState): (r: CellState)
    ensures r.alive == s.alive
    ensures r.age - s.age == if s.alive then 1 else 0
  {
    if s.alive then s.(age := s.age + 1) else s
  }

  /** `reiniciarEdad`: the age is set back to what a newborn (or a dead) cell has. */
  function AgeReset(s: CellState): (r: CellState)
    ensures r.alive == s.alive && AgeConsistent(r)
    ensures r == Born(s.alive)
  {
    s.(age := if s.alive then 1 else 0)
  }

  /** `aCaracter`: the character the board display uses for a cell. */
  function Glyph(s: CellState): (ch: char)
    ensures ch == '1' <==> s.alive
    ensures ch == '0' <==> !s.alive
  {
    if s.alive then '1' else '0'
  }

  /** `incrementarEdad` called `k` times in a row. */
  function IncrementedTimes(s: CellState, k: nat): (r: CellState)
    ensures r.alive == s.alive
    ensures r.age >= s.age
  {
    if k == 0 then s else Incremented(IncrementedTimes(s, k - 1))
  }

  /** Repeated increments add their number to a live cell's age and leave a dead cell as it is. */
  lemma {:induction false} IncrementedTimesAge(s: CellState, k: nat)
    ensures IncrementedTimes(s, k) == if s.alive then CellState(true, s.age + k) else s
  {
    if k > 0 {
      IncrementedTimesAge(s, k - 1);
    }
  }

  /** The operations Cell offers that change a cell. */
  datatype CellOp = SetAlive(v: bool) | IncrementAge | Reset | ResetAge

  /** The value a cell holds after one operation. */
  function Apply(s: CellState, op: CellOp): CellState
  {
    match op
    case SetAlive(v) => WithAlive(s, v)
    case IncrementAge => Incremented(s)
    case Reset => DeadCell
    case ResetAge => AgeReset(s)
  }

  /** The value a cell holds after a sequence of operations, first to last. */
  function ApplyAll(s: CellState, ops: seq<CellOp>): CellState
    decreases ops
  {
    if ops == [] then s else ApplyAll(Apply(s, ops[0]), ops[1..])
  }

  /** No sequence of operations makes a cell's age negative once it starts non-negative. */
  lemma {:induction false} AgeNeverNegative(s: CellState, ops: seq<CellOp>)
    requires s.age >= 0
    ensures ApplyAll(s, ops).age >= 0
    decreases ops
  {
    if ops != [] {
      AgeNeverNegative(Apply(s, ops[0]), ops[1..]);
    }
  }

  /** Either constructor, followed by any operations, leaves a non-negative age. */
  lemma ConstructedAgeNeverNegative(v: bool, ops: seq<CellOp>)
    ensures ApplyAll(DeadCell, ops).age >= 0
    ensures ApplyAll(Born(v), ops).age >= 0
  {
    AgeNeverNegative(DeadCell, ops);
    AgeNeverNegative(Born(v), ops);
  }

  /**
    Which operations keep the age bookkeeping: every one except a `setViva` that
    changes the liveness, which leaves the old age behind (a dead cell set alive
    keeps age 0, a live cell set dead keeps its positive age).
   */
  lemma ApplyKeepsAgeConsistent(s: CellState, op: CellOp)
    requires AgeConsistent(s)
    ensures AgeConsistent(Apply(s, op)) <==> !(op.SetAlive? && op.v != s.alive)
    ensures op.SetAlive? && op.v && !s.alive ==> Apply(s, op) == CellState(true, 0)
  {
  }

  /** A cell object, mutated in place by the board and its users. */
  class Cell {
    var viva: bool
    var edad: int

    /** The value this object holds. */
    function State(): CellState
      reads this
    {
      CellState(viva, edad)
    }

    /** `Cell()`: a dead cell of age 0. */
    constructor ()
      ensures State() == DeadCell
    {
      viva := false;
      edad := 0;
    }

    /** `Cell(boolean viva)`: liveness as given, age 1 when alive. */
    constructor FromLiveness(viva: bool)
      ensures State() == Born(viva)
    {
      this.viva := viva;
      edad := if viva then 1 else 0;
    }

    function EstaViva(): (r: bool)
      reads this
      ensures r == State().alive
    {
      viva
    }

    function GetEdad(): (r: int)
      reads this
      ensures r == State().age
    {
      edad
    }

    method SetViva(viva: bool)
      modifies this
      ensures State() == Apply(old(State()), SetAlive(viva))
    {
      this.viva := viva;
    }

    method IncrementarEdad()
      modifies this
      ensures State() == Apply(old(State()), IncrementAge)
    {
      if viva {
        edad := edad + 1;
      }
    }

    method Reiniciar()
      modifies this
      ensures State() == Apply(old(State()), Reset)
    {
      viva := false;
      edad := 0;
    }

    method ReiniciarEdad()
      modifies this
      ensures State() == Apply(old(State()), ResetAge)
    {
      edad := if viva then 1 else 0;
    }

    function ACaracter(): (ch: char)
      reads this
      ensures ch == Glyph(State())
      ensures ch == '1' <==> viva
    {
      if viva then '1' else '0'
    }
  }
}
