/** Small result types shared by the explorer's operations. */
module Outcomes {

  /** A value that may be absent (a JavaScript `null`/`undefined`). */
  datatype Option<+T> = None | Some(value: T)

  /** The next state of a component together with the message, if any,
      that the operation hands to the error banner (`showError`). */
  datatype Update<+S> = Update(next: S, error: Option<string>)
}
