/** Optional values and pass/fail outcomes shared by the other modules. */
module Wrappers {

  /** A value that may be absent: Python's `None` versus a present value. */
  datatype Option<+T> = None | Some(value: T)

  /** The outcome of a task that either completes or raises an error. */
  datatype Outcome<+E> = Pass | Fail(error: E)
}
