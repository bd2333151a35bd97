/** Optional values and the two exceptions the symbol table throws. */
module Wrappers {

  /** A value that may be absent; `None` stands for Java's `null`. */
  datatype Option<+T> = None | Some(value: T)

  /** IllegalArgumentException and NoSuchElementException. */
  datatype Error = IllegalArgument | NoSuchElement

  /** The result of a query that may throw. */
  datatype Result<+T> = Ok(value: T) | Err(error: Error)

  /** The result of a mutator that may throw. */
  datatype Outcome = Pass | Fail(error: Error)
}
