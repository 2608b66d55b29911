/** The Python exceptions the modelled code can raise, and the value of an
    operation that either returns normally or raises one of them. */
module Results {

  /** Exception classes raised by the modelled functions. */
  datatype PyError = IndexError | KeyError | ValueError | TypeError

  /** Python's `None` or a value. */
  datatype Option<+T> = None | Some(value: T)

  /** A normal return, or the exception that was raised instead. */
  datatype Result<+T> = Ok(value: T) | Err(error: PyError) {

    predicate IsFailure() {
      Err?
    }

    function PropagateFailure<U>(): Result<U>
      requires Err?
    {
      Err(error)
    }

    function Extract(): T
      requires Ok?
    {
      value
    }
  }
}
