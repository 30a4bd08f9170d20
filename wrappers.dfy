/** A value that may be missing: the model's rendering of `null` and `undefined`. */
module Wrappers {
  datatype Option<+T> = None | Some(value: T)
}
