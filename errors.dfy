/** The exceptions the solver throws, as values. */
module Errors {

  datatype Error =
    | InvalidInput    // InvalidInputException: bad board size or input string
    | InvalidBoard    // InvalidBoardException: a row, column or block repeats a digit
    | NotImplemented  // NotImplementedException: a heuristic without an implementation

  datatype Outcome<T> = Ok(value: T) | Err(error: Error)
}
