/** Failure-carrying result types shared by every module of the model. */
module Wrappers {

  /** A value that may be absent: C#'s nullable reference or `T?`. */
  datatype Option<+T> = None | Some(value: T)

  /** Either a value or the error that the C# code would throw instead. */
  datatype Result<+T, +E> = Ok(value: T) | Err(error: E) {
    predicate IsFailure() { Err? }

    function PropagateFailure<U>(): Result<U, E>
      requires Err?
    {
      Err(error)
    }

    function Extract(): T
      requires Ok?
    {
      value
    }
  }
}
