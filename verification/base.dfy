/** Values shared by every part of the model: bytes as delivered by the
    network stream, and the usual optional and failure-carrying wrappers. */
module Base {

  /** One element of a JavaScript Uint8Array. */
  newtype byte = x: int | 0 <= x < 256

  datatype Option<+T> = None | Some(value: T)

  /** A settled promise: resolved with a value or rejected with an error. */
  datatype Result<+T, +E> = Success(value: T) | Failure(error: E)
}
