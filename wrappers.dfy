/** The optional value used wherever the JavaScript program reads a field
    that may be `undefined`. */
module Wrappers {
  datatype Option<+T> = None | Some(value: T)
}
