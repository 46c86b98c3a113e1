/** Failure-compatible wrappers for the error returns of the Go code.
    A Go `error` is opaque to the model, so a failure carries only a message. */
module Results {

  /** An optional value: a nil value in Go, or a missing element. */
  datatype Option<+T> = None | Some(value: T)

  /** Go's `(value, error)` pair: exactly one of the two is meaningful. */
  datatype Result<+T> = Ok(value: T) | Err(msg: string) {

    predicate IsFailure() {
      Err?
    }

    function PropagateFailure<U>(): Result<U>
      requires Err?
    {
      Err(msg)
    }

    function Extract(): T
      requires Ok?
    {
      value
    }
  }
}
