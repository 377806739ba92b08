/** Value wrappers shared by the model: a nullable Java reference and the
    outcome of a call that either returns a value or throws. */
module Common {

  /** A Java reference that may be null. */
  datatype Option<+T> = None | Some(value: T)

  /** The outcome of a service call: a value, or the exception it throws. */
  datatype Result<+T, +E> = Success(value: T) | Failure(error: E)
}
