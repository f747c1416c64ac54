/** The usual Some/None datatype, used where the model can fail to find something. */
module Wrappers {
  datatype Option<+T> = None | Some(value: T)
}
