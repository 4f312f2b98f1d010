/** Failure-carrying results shared by the utility and repository modules. */
module Outcomes {

  /** A call that either completes normally or throws an error carrying a message. */
  datatype Outcome<+E> = Pass | Fail(error: E)

  /** A call that either returns a value or throws an error carrying a message. */
  datatype Result<+T, +E> = Ok(value: T) | Err(error: E)

  /** A value that may be absent; `None` also stands for a Java null. */
  datatype Option<+T> = None | Some(value: T)
}
