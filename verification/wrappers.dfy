/** A nullable value: the model's stand-in for a C++ pointer that may be nullptr. */
module Wrappers {
  datatype Option<+T> = None | Some(value: T)
}
