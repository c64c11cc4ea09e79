/** Results that may be missing, and calls that may raise. */
module Outcomes {

  datatype Option<+T> = None | Some(value: T)

  /** The exceptions the modelled code raises. */
  datatype Error =
    | AssertionError
    | IndexError
    | ValueError
    | OverflowError
    | Misaligned // "Size and address must be aligned to 64!"
    | Unsupported // an opcode or value the code refuses by name

  datatype Outcome<+T> = Returned(value: T) | Raised(error: Error)
}
