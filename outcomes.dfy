/** Optional values, and results that carry either a value or the exception the source throws. */
module Outcomes {

  datatype Option<T> = None | Some(value: T)

  datatype Result<T, E> = Ok(value: T) | Err(error: E)

  /** The result of an operation that returns nothing but may throw. */
  datatype Outcome<E> = Pass | Fail(error: E)
}
