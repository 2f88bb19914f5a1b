/** Failure-compatible Option and Result types used throughout the model. */
module Wrappers {

  /** An optional value; `None` also stands for a null reference. */
  datatype Option<+T> = None | Some(value: T) {

    predicate IsFailure() {
      None?
    }

    function PropagateFailure<U>(): Option<U>
      requires None?
    {
      None
    }

    function Extract(): T
      requires Some?
    {
      value
    }
  }

  /** Either a value or the exception the modelled .NET code would throw. */
  datatype Result<+T, +E> = Success(value: T) | Failure(error: E) {

    predicate IsFailure() {
      Failure?
    }

    function PropagateFailure<U>(): Result<U, E>
      requires Failure?
    {
      Failure(error)
    }

    function Extract(): T
      requires Success?
    {
      value
    }
  }
}

/** The .NET exceptions the decimal128 code can raise. */
module Errors {

  datatype Exception =
    /** `ArgumentNullException(paramName)` */
    | ArgumentNull(paramName: string)
    /** `ArgumentException(message, paramName)` */
    | Argument(message: string, paramName: string)
    /** `IndexOutOfRangeException`, raised by an array read past the last slot */
    | IndexOutOfRange
}
