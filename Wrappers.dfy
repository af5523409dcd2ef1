/** The optional-value datatype used for operations that may fail. */
module Wrappers {

  datatype Option<+T> = None | Some(value: T)
}
