/** A grid position's player-marked state and the Cell that holds it (model/CellState.java, model/Cell.java). */
module Cells {

  /** The three states a player can give a cell. */
  datatype CellState = Unknown | Filled | Marked

  /** The click cycle of Cell.cycleState: Unknown -> Filled -> Marked -> Unknown. */
  function Next(s: CellState): (r: CellState)
    ensures r != s
    ensures r == Filled <==> s == Unknown
    ensures r == Marked <==> s == Filled
    ensures r == Unknown <==> s == Marked
  {
    match s
    case Unknown => Filled
    case Filled => Marked
    case Marked => Unknown
  }

  /** Three clicks bring every state back to itself. */
  lemma NextThreeTimes(s: CellState)
    ensures Next(Next(Next(s))) == s
    ensures Next(s) != s && Next(Next(s)) != s
  {
  }

  /** Whether a cell in state `s` agrees with the solution bit `actual`. */
  predicate Correct(s: CellState, actual: bool): (r: bool)
    ensures r ==> s != Unknown
    ensures s != Unknown ==> (r <==> ((s == Filled) == actual))
  {
    match s
    case Unknown => false
    case Filled => actual
    case Marked => !actual
  }

  /** The case analysis of Cell.isCorrect, stated as an equivalence. */
  lemma CorrectCases(s: CellState, actual: bool)
    ensures Correct(s, actual) <==> (s == Filled && actual) || (s == Marked && !actual)
    ensures s == Unknown ==> !Correct(s, actual)
  {
  }

  /** One cell of the board: immutable coordinates and solution bit, mutable player state. */
  class Cell {
    const row: int
    const col: int
    const actualValue: bool
    var state: CellState

    constructor (row: int, col: int, actualValue: bool)
      ensures this.row == row && this.col == col && this.actualValue == actualValue
      ensures state == Unknown
      ensures !IsCorrect()
    {
      this.row := row;
      this.col := col;
      this.actualValue := actualValue;
      state := Unknown;
    }

    /** Cell.isCorrect: the player's state agrees with the solution bit. */
    predicate IsCorrect(): (r: bool)
      reads this
      ensures r ==> state != Unknown
      ensures state != Unknown ==> (r <==> ((state == Filled) == actualValue))
    {
      Correct(state, actualValue)
    }

    /** Cell.setState (called setCurrentState by GameState). */
    method SetState(newState: CellState)
      modifies this
      ensures state == newState
    {
      state := newState;
    }

    /** Cell.cycleState. */
    method CycleState()
      modifies this
      ensures state == Next(old(state))
    {
      match state
      case Unknown => state := Filled;
      case Filled => state := Marked;
      case Marked => state := Unknown;
    }

    /** Cell.reset. */
    method Reset()
      modifies this
      ensures state == Unknown
      ensures !IsCorrect()
    {
      state := Unknown;
    }
  }
}
