/** Optional values and error outcomes, standing in for Java's `null` returns and thrown exceptions. */
module Wrappers {

  /** `None` plays the part of a Java `null` result. */
  datatype Option<+T> = None | Some(value: T)

  /** `Err` plays the part of a thrown exception. */
  datatype Result<+T, +E> = Ok(value: T) | Err(error: E)
}
