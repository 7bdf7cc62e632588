/** Option and an outcome type standing for a value or a raised exception. */
module Wrappers {

  /** A value that may be absent (Python's `None`). */
  datatype Option<+T> = None | Some(value: T)

  /** The two exceptions the game engine raises. */
  datatype GameError =
    | InvalidAction   // 'Invalid Action': the move is not one of the empty cells
    | NotTerminal     // 'The game has not ended': utility asked of a running game

  /** Either the value a call returns or the exception it raises. */
  datatype Outcome<+T> = Ok(value: T) | Fail(error: GameError)
}
