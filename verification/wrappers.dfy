/** Option, Result and Outcome values used across the model. */
module Wrappers {

  /** An optional value: an unset many-to-one field, a walk that found nothing. */
  datatype Option<+T> = None | Some(value: T)

  /** A computed value, or the error the computation raised. */
  datatype Result<+R, +E> = Ok(value: R) | Err(error: E)

  /** A check that either passes or fails with an error. */
  datatype Outcome<+E> = Pass | Fail(error: E)
}
