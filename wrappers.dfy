/** Optional values and tagged outcomes shared by every module of the model. */
module Wrappers {

  /** `None` stands for JavaScript's `null` / `undefined` where the source returns or passes one. */
  datatype Option<+T> = None | Some(value: T)

  /** A computation that either produced a value or failed with an error (a thrown `Error`). */
  datatype Result<+T, +E> = Ok(value: T) | Err(error: E)
}
