/** The crate's error kinds and its `MLResult` type (src/base/error.rs, src/lib.rs).
    An error is modelled by its kind only: the boxed message is not part of the model. */
module Base {

  /** `ErrorKind`: the five kinds of failure the crate reports. */
  datatype ErrorKind = InvalidParameters | InvalidData | InvalidState | UntrainedModel | LinAlgError

  datatype Option<+T> = None | Some(value: T)

  /** `MLResult<T>`: a value or the kind of the error that stopped the operation. */
  datatype Result<+T> = Success(value: T) | Failure(error: ErrorKind)
}
