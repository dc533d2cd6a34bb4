/** The two failure-carrying shapes the engine needs: a value that may be
    absent (`null` / `undefined` in the engine) and a value or an error. */
module Wrappers {

  /** `None` stands for the engine's `null` or `undefined`. */
  datatype Option<+T> = None | Some(value: T)

  /** `Failure` stands for a thrown `Error`. */
  datatype Result<+R, +E> = Success(value: R) | Failure(error: E)
}
