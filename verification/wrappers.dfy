/** The optional-value datatype used for the upper bound of a repetition. */
module Wrappers {

  datatype Option<+T> = None | Some(value: T)
}
