/** Failure-carrying result types shared by every module of the model. */
module Wrappers {

  datatype Option<+T> = None | Some(value: T)

  /** Success or the first error raised (a Django ValidationError, a Python ValueError). */
  datatype Outcome<+E> = Pass | Fail(error: E)

  datatype Result<+R, +E> = Ok(value: R) | Err(error: E)

  /** The first of two searches that found something. */
  function OrElse<T>(a: Option<T>, b: Option<T>): Option<T>
  {
    if a.Some? then a else b
  }
}
