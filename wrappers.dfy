/** The optional-value datatype used for nullable results. */
module Wrappers {

  datatype Option<+T> = None | Some(value: T)
}
