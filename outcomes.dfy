/** Value wrappers shared by the other modules. */
module Outcomes {

  /** A value that may be absent (`undefined` / `null` in the service). */
  datatype Option<+T> = None | Some(value: T)

  /** The result of code that may throw: `Thrown` carries the error's message.
      This unifies the two error channels of the service: a helper that throws
      and a validator that returns a sentinel string. */
  datatype Outcome<+T> = Ok(value: T) | Thrown(message: string)
}
