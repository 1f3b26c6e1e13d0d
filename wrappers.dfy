/** The optional-value datatype used throughout the board model. */
module Wrappers {

  datatype Option<+T> = None | Some(value: T)
}
