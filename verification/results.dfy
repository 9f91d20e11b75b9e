/** Failure-carrying results for the operations that throw in the modelled code. */
module Results {

  /** Either the value an operation produced or the error it raised. */
  datatype Result<+T, +E> = Success(value: T) | Failure(error: E)

  /** An optional value, for decoders that may reject their input. */
  datatype Option<+T> = None | Some(value: T)
}
