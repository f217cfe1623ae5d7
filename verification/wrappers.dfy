/** Option and Outcome: values that may be missing, and checks that may fail with an error. */
module Wrappers {

  /** A value that may be absent (JavaScript `undefined`, `null` or a rejected promise). */
  datatype Option<+T> = None | Some(value: T)

  /** The result of a check that either passes or fails with an error (a thrown `Error`). */
  datatype Outcome<+E> = Pass | Fail(error: E)
}
