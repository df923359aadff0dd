/** Optional values, and results that are either a value or a raised error. */
module Outcomes {

  datatype Option<+T> = None | Some(value: T)

  /** A Python function that returns a value or raises. */
  datatype Result<+T, +E> = Ok(value: T) | Err(error: E) {
    predicate IsFailure() {
      Err?
    }

    function PropagateFailure<U>(): Result<U, E>
      requires Err?
    {
      Err(error)
    }

    function Extract(): T
      requires Ok?
    {
      value
    }
  }
}
