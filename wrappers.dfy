/** Optional values (Java's null) and the outcomes of calls that may throw. */
module Wrappers {
  datatype Option<T> = None | Some(value: T)

  /**
   * The unchecked exceptions the library throws, by kind, and the
   * StackOverflowError of a recursion that never reaches its base case.
   */
  datatype Failure =
    | NullPointer
    | IllegalArgument
    | IllegalState
    | ConcurrentModification
    | StackOverflow

  datatype Result<T> = Ok(value: T) | Err(error: Failure)

  /** The outcome of a call that returns nothing. */
  datatype Outcome = Pass | Fail(error: Failure)
}
