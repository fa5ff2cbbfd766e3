/** The success-or-error value every post operation returns. */
module Wrappers {

  datatype Result<+T, +E> = Success(value: T) | Failure(error: E)
}
