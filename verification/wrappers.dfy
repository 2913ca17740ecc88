/** The failure-carrying result type used where the Rust code aborts on bad input. */
module Wrappers {

  datatype Result<+T, +E> = Success(value: T) | Failure(error: E)
}
