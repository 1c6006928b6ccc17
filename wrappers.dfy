/** Failure-carrying return values used in place of the host's fatal
    `error->all` / `error->fix_error` aborts. */
module Wrappers {

  datatype Option<+T> = None | Some(value: T)

  datatype Result<+R, +E> = Success(value: R) | Failure(error: E)

  /** A pass/fail outcome for operations that only change state. */
  datatype Outcome<+E> = Pass | Fail(error: E)
}
