/** Absent values and failures, as the JavaScript code signals them
    (`undefined`, `null`, a thrown TypeError). */
module Wrappers {

  /** `None` stands for JavaScript's `undefined` or `null`. */
  datatype Option<+T> = None | Some(value: T)

  /** The outcome of a call that either returns a value or throws. */
  datatype Result<+T, +E> = Success(value: T) | Failure(error: E)
}
