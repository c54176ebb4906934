/** Option and Result, used for the nullable values and thrown errors of the modelled code. */
module Wrappers {

  /** A value that may be absent (`null` / `undefined` in the modelled code). */
  datatype Option<+T> = None | Some(value: T)

  /** The outcome of an operation that can throw: a value, or the thrown error. */
  datatype Result<+T, +E> = Ok(value: T) | Err(error: E)

  /**
   * What a JavaScript `throw` carries: an `Error` instance with its message,
   * or any other value (which `e instanceof Error` rejects).
   */
  datatype Thrown = ErrorObject(message: string) | NonErrorValue
}
