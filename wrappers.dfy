/** The optional value used where the code would produce NaN or nothing. */
module Wrappers {
  datatype Option<+T> = None | Some(value: T)
}
