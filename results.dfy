/** Outcomes of operations that can raise a Python exception. */
module Results {

  /** The Python exception classes the modelled code can raise. */
  datatype PyError = IndexError | ValueError | AssertionError

  datatype Result<T> = Ok(value: T) | Err(error: PyError) {
    predicate IsFailure() { Err? }

    function PropagateFailure<U>(): Result<U>
      requires Err?
    {
      Err(error)
    }

    function Extract(): T
      requires Ok?
    {
      value
    }
  }

  datatype Option<T> = None | Some(value: T)
}
