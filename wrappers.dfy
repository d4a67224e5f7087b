/** The optional value shared by the modules of this project. */
module Wrappers {
  /** An optional value: the model's stand-in for a NULL pointer. */
  datatype Option<+T> = None | Some(value: T)
}
