/** Failure-carrying values shared by every module of the model.
    Python raises exceptions; the model returns them as `Err` values instead. */
module Results {

  /** Python's `None` or a present value. */
  datatype Option<T> = None | Some(value: T)

  /** The Python exceptions the modelled code can raise or let escape. */
  datatype PyError =
    | IndexError          // list index out of range
    | ValueError          // `int()` of a non-numeric string, `json.loads` of bad JSON, bad unpacking
    | UnboundLocalError   // reading a local that was never assigned
    | UnicodeDecodeError  // `str.decode()` of a non-ASCII byte (Python 2 default codec)
    | RuntimeError        // the client's receive timeout

  /** Either the value a Python function returns or the exception it raises. */
  datatype Result<T> = Ok(value: T) | Err(error: PyError) {

    predicate IsFailure() {
      Err?
    }

    function PropagateFailure<U>(): Result<U>
      requires Err?
    {
      Err(error)
    }

    function Extract(): T
      requires Ok?
    {
      value
    }
  }
}
