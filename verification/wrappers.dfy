/** Optional values and outcomes shared by the menu modules. */
module Wrappers {

  /** A value that may be absent: Python's `None` or a present value. */
  datatype Option<+T> = None | Some(value: T)

  /** An optional primary key: Python's `None` or an integer id. Kept
      monomorphic so that map lookups by the id need no boxing. */
  datatype MaybeId = NoId | Id(id: int)

  /** The outcome of an operation that can raise. */
  datatype Result<+R, +E> = Success(value: R) | Failure(error: E)
}
