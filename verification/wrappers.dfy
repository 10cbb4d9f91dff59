/** Optional values (the source's nullable references and `Nullable<T>`) and
    results that either carry a value or one of the service's exceptions. */
module Wrappers {

  /** `None` plays the part of C#'s `null`. */
  datatype Option<+T> = None | Some(value: T)

  /** `Failure` stands for an exception thrown before anything was saved. */
  datatype Result<+T, +E> = Success(value: T) | Failure(error: E)
}
