/** Option and Result: the model's stand-ins for C#'s null and for thrown exceptions. */
module Wrappers {

  /** `None` plays the part of a C# `null` (an absent string, an empty nullable). */
  datatype Option<+T> = None | Some(value: T)

  /** `Err` plays the part of an exception that ends the current call. */
  datatype Result<+T, +E> = Ok(value: T) | Err(error: E)
}
