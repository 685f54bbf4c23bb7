/** The optional-value datatype used for "no match" results throughout the model. */
module Wrappers {
  datatype Option<+T> = None | Some(value: T)
}
