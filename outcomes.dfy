/** Results of operations that may fail, in the shapes the JavaScript code
    produces: a missing value (`null`/`undefined`), a thrown error, or a
    rejected promise carrying an error. */
module Outcomes {

  datatype Option<T> = None | Some(value: T)

  /** The errors that leave the modelled code. `TypeError` is what JavaScript
      throws on a property access through `null` or `undefined`; `External`
      carries the error of a Bower command (prune, install, list). */
  datatype Error = TypeError | External(message: string)

  /** A step that either completes or fails with an error. */
  datatype Outcome = Pass | Fail(error: Error)

  /** A step that either yields a value or fails with an error. */
  datatype Result<T> = Success(value: T) | Failure(error: Error)
}
