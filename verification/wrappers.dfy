/** Failure-compatible Option and Result, and the exception classes the engine raises or records. */
module Wrappers {

  datatype Option<+T> = None | Some(value: T)

  /** A value or the error that replaced it; usable with `:-`. */
  datatype Result<+R, +E> = Success(value: R) | Failure(error: E) {

    predicate IsFailure() {
      Failure?
    }

    function PropagateFailure<U>(): Result<U, E>
      requires Failure?
    {
      Failure(error)
    }

    function Extract(): R
      requires Success?
    {
      value
    }
  }
}

/** The Python exception classes that reach a caller or an error map. As `sys.exc_info()[0]`
    does, the model keeps only the class, not the message. */
module Exceptions {

  datatype Exception =
    | AssertionError      // an invalid `sim_metric` or `method` selector
    | ValueError          // a key that does not split into two parts, or a part that is not an integer
    | KeyError            // an identifier missing from the catalog
    | IndexError          // an index past the end of the user or item list
    | TypeError           // arithmetic on a `None` mean
    | ColdStartException  // a user with no rating record
}
