/** Small value types shared by the other modules. */
module Basics {

  /** An octet, as held by a Node `Buffer`. */
  type byte = x: int | 0 <= x < 256

  /** A value or nothing; for the source's `T | null` and `T | undefined`. */
  datatype Option<T> = None | Some(value: T)

  /** What a JavaScript `throw` carries: an `Error` object with its message, or any other value. */
  datatype Thrown = ErrorObject(message: string) | OtherValue

  /** The outcome of an awaited call: its value, or what it threw. */
  datatype Attempt<T> = Done(value: T) | Throws(thrown: Thrown)

  /** The outcome of a helper that fails loudly: its value, or the message of the `Error` it throws. */
  datatype Result<T> = Ok(value: T) | Fail(message: string)
}
