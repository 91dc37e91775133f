/** Option and Result, the failure-compatible wrappers used by every stage. */
module Wrappers {

  datatype Option<+T> = None | Some(value: T)

  /** The result of one stage: `Ok` with a value, or `Err` with the stage's error. */
  datatype Result<+T, +E> = Ok(value: T) | Err(error: E) {

    predicate IsFailure() {
      Err?
    }

    function PropagateFailure<U>(): Result<U, E>
      requires Err?
    {
      Err(error)
    }

    function Extract(): T
      requires Ok?
    {
      value
    }
  }
}
