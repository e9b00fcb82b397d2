/** Types shared by the encoding, compression and restore-status modules. */
module Prelude {

  /** Go's byte (uint8). */
  type byte = x: int | 0 <= x < 256

  /** A value that may be absent. */
  datatype Option<+T> = None | Some(value: T)

  /** A value or the error that prevented computing it. */
  datatype Result<+T, +E> = Success(value: T) | Failure(error: E)
}
