/** The two ways a call of the modelled Java code can end besides a plain value. */
module Outcomes {

  /** A value that may be absent; `None` stands for Java's `null` result. */
  datatype Option<+T> = None | Some(value: T)

  /** A call that either returns normally or stops by dereferencing `null`. */
  datatype Throws<+T> = Returns(value: T) | NullPointerException
}
