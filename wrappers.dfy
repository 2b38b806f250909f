/** The optional-value datatype used wherever the source can throw or find nothing. */
module Wrappers {

  datatype Option<+T> = None | Some(value: T)
}
