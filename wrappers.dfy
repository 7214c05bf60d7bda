/** The optional value used for every partial parse in the model. */
module Wrappers {
  datatype Option<+T> = None | Some(value: T)
}
