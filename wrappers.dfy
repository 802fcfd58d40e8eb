/** Option and Result types shared by every module of the model.
    `None` stands for a Java `null` result; `Failure` for a thrown exception. */
module Wrappers {

  datatype Option<+T> = None | Some(value: T)

  datatype Result<+R, +E> = Success(value: R) | Failure(error: E)

  /** The Java `int` range, used wherever the source depends on it. */
  const INT_MAX: int := 0x7fff_ffff
  const INT_MIN: int := -0x8000_0000
}
