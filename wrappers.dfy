/** The optional value used for the handlers' object references that may be `null`. */
module Wrappers {
  datatype Option<+T> = None | Some(value: T)
}
