/** The optional value used for values JavaScript may leave `undefined`. */
module Wrappers {
  datatype Option<+T> = None | Some(value: T)
}
