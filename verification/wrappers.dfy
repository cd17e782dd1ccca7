/** The Option datatype used where the page reads an array slot that may not exist. */
module Wrappers {

  /** Some value, or None where JavaScript would produce `undefined`. */
  datatype Option<+T> = None | Some(value: T)
}
