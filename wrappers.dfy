/** The optional value used wherever the script returns None or may raise. */
module Wrappers {
  datatype Option<+T> = None | Some(value: T)
}
