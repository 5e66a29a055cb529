/** The optional value the model uses wherever the source can fail without saying why. */
module Wrappers {

  datatype Option<+T> = None | Some(value: T)
}
