/** Failure-carrying results used where the modelled code throws. */
module Wrappers {

  datatype Option<+T> = None | Some(value: T)

  /** Pass, or Fail with the reason the operation was refused. */
  datatype Outcome<+E> = Pass | Fail(error: E)
}
