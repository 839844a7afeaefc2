/** Option and Result values, and bytes, shared by every module of the model. */
module Results {

  datatype Option<T> = None | Some(value: T)

  /** The outcome of an operation that the program can abort with an exception. */
  datatype Result<T> = Ok(value: T) | Err(error: string) {
    predicate IsFailure() { Err? }

    function PropagateFailure<U>(): Result<U>
      requires Err?
    {
      Err(error)
    }

    function Extract(): T
      requires Ok?
    {
      value
    }
  }

  /** One octet, as held in Python's `bytes` and `bytearray`. */
  newtype byte = x: int | 0 <= x < 256
}
