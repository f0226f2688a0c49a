/** Failure-carrying values shared by every module of the model.

    The C++ sources signal failure by throwing a standard exception or by
    holding a null pointer; here a null pointer is `None` and a thrown
    exception is a `Failure` carrying the exception's kind. */
module Wrappers {

  /** A value that may be absent: the model of a raw pointer that may be null. */
  datatype Option<+T> = None | Some(value: T)

  /** Either the result of an operation or the exception it throws. */
  datatype Result<+T, +E> = Success(value: T) | Failure(error: E)

  /** The standard exception classes thrown by the modelled code. */
  datatype StdError =
    | InvalidArgument   // std::invalid_argument
    | OutOfRange        // std::out_of_range
    | OverflowError     // std::overflow_error
    | UnderflowError    // std::underflow_error
    | DomainError       // std::domain_error
    | LogicError        // std::logic_error
}
