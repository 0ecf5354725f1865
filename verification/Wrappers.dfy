/** Optional values and the outcomes of operations that can raise. */
module Wrappers {
  datatype Option<+T> = None | Some(value: T)

  /** The failure-compatible members let `:-` propagate errors. */
  datatype Result<+T, +E> = Ok(value: T) | Err(error: E) {
    predicate IsFailure() {
      Err?
    }

    function PropagateFailure<U>(): Result<U, E>
      requires Err?
    {
      Err(error)
    }

    function Extract(): T
      requires Ok?
    {
      value
    }
  }
}
