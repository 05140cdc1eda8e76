/** Option and Result values: the model's stand-in for JavaScript's `undefined`
    and for the error exits of the command-line tool. */
module Wrappers {

  /** A value that may be absent (a missing object property, `undefined`). */
  datatype Option<+T> = None | Some(value: T)

  /** The outcome of a command: a value, or the error the tool reports before exiting. */
  datatype Result<+R, +E> = Ok(value: R) | Err(error: E)
}
