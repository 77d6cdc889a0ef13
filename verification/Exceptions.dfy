/** The exceptions of the C++ code, as results. */
module Exceptions {

  datatype Result<+T> = Ok(value: T) | InvalidArgument | LogicError | RuntimeError {
    predicate IsFailure() { !Ok? }

    function PropagateFailure<U>(): Result<U>
      requires !Ok?
    {
      match this
      case InvalidArgument => InvalidArgument
      case LogicError => LogicError
      case RuntimeError => RuntimeError
    }

    function Extract(): T
      requires Ok?
    {
      value
    }
  }
}
