/** Failure-carrying datatypes and the byte type shared by the modules of this project. */
module Wrappers {

  /** A value that may be missing; `None` stands for an error reported by a foreign library. */
  datatype Option<+T> = None | Some(value: T)

  /** Either a complete result or an error; a failure never carries a partial value. */
  datatype Result<+R, +E> = Success(value: R) | Failure(error: E)

  /** Go's `byte`: an unsigned 8-bit value. */
  type byte = x: int | 0 <= x < 256
}
