/** Option and Outcome, for the "no object" and "thrown exception" results of the model. */
module Wrappers {
  datatype Option<+T> = None | Some(value: T)

  datatype Outcome<+E> = Pass | Fail(error: E)
}
