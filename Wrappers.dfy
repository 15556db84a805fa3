/** Optional values and results, as the account-identity model uses them. */
module Wrappers {

  /** An optional value: `None` stands for JavaScript's `undefined`/`null` or `NaN`. */
  datatype Option<+T> = None | Some(value: T)

  /** The outcome of an operation that the source either returns from or throws out of. */
  datatype Result<+R, +E> = Success(value: R) | Failure(error: E)
}
