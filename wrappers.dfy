/** Optional values for the source's nullable references, and the outcome of
    a call that may throw. */
module Wrappers {

  /** A nullable reference: `None` stands for `null`. */
  datatype Option<+T> = None | Some(value: T)

  /** The exceptions the modelled library calls can raise. */
  datatype Exception =
    | ArgumentOutOfRange   // String.Substring, new string(c, n), PadRight
    | NullReference        // a member used on a null reference
    | DivideByZero         // integer % with a zero divisor

  /** The outcome of a call: it returns a value or throws. */
  datatype Outcome<+T> = Returns(value: T) | Throws(exception: Exception)
}
