/** Optional values and pass/fail outcomes for operations of the imaging stage that can throw. */
module Wrappers {

  datatype Option<T> = None | Some(value: T)

  datatype Outcome<E> = Pass | Fail(error: E)

  datatype Result<T, E> = Success(value: T) | Failure(error: E)
}
