/** One logged player action (model/Move.java). */
module Moves {
  import opened Positions
  import opened Cells

  /** A state change at one position; the wall-clock timestamp is not modelled. */
  datatype Move = Move(position: CellPosition, oldState: CellState, newState: CellState)

  /** Move.getReverse: same position, old and new states swapped. */
  function Reverse(m: Move): (r: Move)
    ensures r.position == m.position
    ensures r.oldState == m.newState && r.newState == m.oldState
  {
    Move(m.position, m.newState, m.oldState)
  }

  /** Reversing twice gives the original move back. */
  lemma ReverseTwice(m: Move)
    ensures Reverse(Reverse(m)) == m
  {
  }
}
