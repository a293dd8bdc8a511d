/** Failure-compatible wrappers standing in for Python's exceptions and optional arguments. */
module Results {

  datatype Option<+T> = None | Some(value: T)

  /** The outcome of an operation that either returns a value or raises `error`. */
  datatype Result<+T, +E> = Ok(value: T) | Err(error: E) {
    predicate IsFailure() { Err? }

    function PropagateFailure<U>(): Result<U, E>
      requires Err?
    {
      Err(error)
    }

    function Extract(): T
      requires Ok?
    {
      value
    }
  }
}
