/** Option type shared by the decoding functions of the model. */
module Wrappers {
  datatype Option<+T> = None | Some(value: T)
}
