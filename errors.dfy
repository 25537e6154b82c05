/** The two exceptions the matrix library throws, as values. */
module Errors {

  /** `std::out_of_range` from an element access, and the `std::runtime_error`
      that `add` throws when the two operands do not have the same size. */
  datatype Error = OutOfRange | SizeMismatch

  /** A value, or the exception thrown instead of returning it. */
  datatype Result<T> = Success(value: T) | Failure(error: Error)

  /** The outcome of an operation that returns nothing on success. */
  datatype Outcome = Done | Fail(error: Error)
}
