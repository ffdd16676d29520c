/** Failure-carrying values used where the Python half of the system raises. */
module Results {

  /** The Python exceptions the modelled code can raise. */
  datatype Error =
    | RuntimeError
    | ValueError
    | IndexError
    | KeyError
    | ZeroDivisionError
    | NetworkXError

  datatype Result<+T> = Ok(value: T) | Err(error: Error) {
    predicate IsFailure() {
      Err?
    }

    function PropagateFailure<U>(): Result<U>
      requires Err?
    {
      Err(error)
    }

    function Extract(): T
      requires Ok?
    {
      value
    }
  }

  datatype Option<+T> = None | Some(value: T)
}
