/** Failure-carrying datatypes shared by the grid and the validator. */
module Wrappers {

  /** A value that may be absent; models a Java reference that may be null. */
  datatype Option<+T> = None | Some(value: T)

  /** Either a successful value or the exception an operation throws. */
  datatype Result<+T, +E> = Ok(value: T) | Err(error: E)
}

/** The exception kinds the grid operations can throw. */
module Exceptions {

  datatype Exception =
    | InvalidGridSize           // non-positive row or column limit
    | EmptyStack                // no row in the grid, or no letter in the row
    | InvalidStackOperation     // mutating a locked row, or locking an empty one
    | WordStackOverflow         // a row or the grid has no room left
    | NullPointer               // a missing word cache was passed
}
