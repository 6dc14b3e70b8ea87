/** The optional value used for the outcome of a decode that may fail. */
module Wrappers {
  datatype Option<+T> = None | Some(value: T)
}
