/** Failure-compatible wrappers used by every stage of the pipeline. */
module Results {

  /** A value that may be missing, as a Java `null` or a Kotlin `?`. */
  datatype Option<+T> = None | Some(value: T)

  /** The outcome of a step that can throw: the value, or the error that aborts the run. */
  datatype Result<+T, +E> = Ok(value: T) | Err(error: E) {

    predicate IsFailure() {
      Err?
    }

    function PropagateFailure<U>(): Result<U, E>
      requires Err?
    {
      Err(error)
    }

    function Extract(): T
      requires Ok?
    {
      value
    }
  }
}
