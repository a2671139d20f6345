/** Failure-compatible wrappers shared by every stage of the pipeline. */
module Wrappers {

  /** An optional value: a cell that may be absent, a bound that may be unset. */
  datatype Option<+T> = None | Some(value: T)

  /** The outcome of a stage: its value, or the fault that ends the run. */
  datatype Result<+T, +E> = Success(value: T) | Failure(error: E) {

    predicate IsFailure() {
      Failure?
    }

    function PropagateFailure<U>(): Result<U, E>
      requires Failure?
    {
      Failure(error)
    }

    function Extract(): T
      requires Success?
    {
      value
    }
  }
}
