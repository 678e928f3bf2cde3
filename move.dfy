/** A change made to one cell: `Move(row, col, oldValue, newValue)`. Both drivers use the
    same immutable record; a datatype value cannot change after construction. */
module Moves {

  datatype Move = Move(row: int, col: int, oldValue: int, newValue: int)

  /** The moves the solvers and heuristics record: a digit written into an empty cell. */
  predicate IsPlacement(m: Move)
  {
    m.oldValue == 0 && m.newValue != 0
  }
}
