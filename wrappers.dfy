/** Optional values and results shared by every module of the model. */
module Wrappers {

  /** A value that may be absent: an optional field of a request body or record. */
  datatype Option<T> = None | Some(value: T)

  /** The outcome of an operation that either produces a value or fails with an error. */
  datatype Result<T, E> = Ok(value: T) | Err(error: E)
}

/** The identifiers and timestamps every stored document carries. */
module Documents {

  /** A document's `_id`, kept opaque. */
  type Id = string

  /** A `Date`, as milliseconds since the epoch (`getTime()`). */
  type Millis = int
}
