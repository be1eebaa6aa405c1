/** The Option type used for operations that may produce no value. */
module Wrappers {
  datatype Option<+T> = None | Some(value: T)
}
