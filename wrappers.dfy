/** Option and Result: the model's stand-ins for Java's null returns and thrown exceptions. */
module Wrappers {

  datatype Option<+T> = None | Some(value: T)

  datatype Result<+T, +E> = Ok(value: T) | Err(error: E)

  /** The outcome of a void Java method: it returned, or it threw `error`. */
  datatype Outcome<+E> = Pass | Fail(error: E)
}
