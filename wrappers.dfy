/** Option and Result, used where the SDK returns `Option<_>` or `Result<_, _>`. */
module Wrappers {

  datatype Option<+T> = None | Some(value: T)

  /** `Success`/`Failure` rather than `Ok`/`Err`: `Ok` is already a status word. */
  datatype Result<+R, +E> = Success(value: R) | Failure(error: E)
}
