/** The two shapes a JavaScript value takes in this backend: a value that may be
    absent (`undefined`/`null`), and a call that either returns or throws. */
module Outcomes {

  datatype Option<+T> = None | Some(value: T)

  /** The outcome of a call: it returned `value`, or it threw. Every exception in
      the backend is collapsed into one generic failure, so the error carries nothing. */
  datatype Outcome<+T> = Ok(value: T) | Threw
}
