/** Option and Result values standing for C#'s null references and exceptions. */
module Wrappers {

  datatype Option<+T> = None | Some(value: T)

  /** The exceptions the modelled code can raise. */
  datatype Error =
    | NullReference   // System.NullReferenceException: a member access on null
    | ArgumentNull    // System.ArgumentNullException: Dictionary.Add with a null key

  /** A computation that either returns a value or throws. */
  datatype Result<+T> = Ok(value: T) | Err(error: Error)
}
