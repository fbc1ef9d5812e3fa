/** The result of an operation of the program that can fail with an error of type `E`. */
module Outcomes {
  datatype Result<T, E> = Success(value: T) | Failure(error: E)
}
