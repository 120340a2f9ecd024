/** Option and Result, used where the converter's inputs may be absent or its
    collaborators may fail. */
module Wrappers {

  datatype Option<+T> = None | Some(value: T)

  datatype Result<+T, +E> = Success(value: T) | Failure(error: E)

  /** Octets, as the image encoder returns them. */
  newtype Byte = x: int | 0 <= x < 256
}
