/** A value that may be absent: the model's stand-in for a NULL pointer or handle. */
module Wrappers {

  datatype Option<+T> = None | Some(value: T)
}
