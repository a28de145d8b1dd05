/** Failure-compatible result types shared by the other modules. */
module Results {

  datatype Option<+T> = None | Some(value: T)

  /** The outcome of an operation that the Python code lets raise an exception. */
  datatype Result<+T, +E> = Ok(value: T) | Err(error: E) {

    predicate IsFailure() {
      Err?
    }

    function PropagateFailure<U>(): Result<U, E>
      requires Err?
    {
      Err(error)
    }

    function Extract(): T
      requires Ok?
    {
      value
    }
  }
}
