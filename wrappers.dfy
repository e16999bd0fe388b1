/** Optional values and pass/fail outcomes shared by the other modules. */
module Wrappers {

  /** A value that may be absent: JavaScript's `null` / `undefined`. */
  datatype Option<+T> = None | Some(value: T)

  /** The result of an operation that may throw instead of returning. */
  datatype Outcome<+E> = Pass | Fail(error: E)
}
