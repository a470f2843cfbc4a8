/** The optional-value type used wherever the source has `undefined` or `null`. */
module Wrappers {
  datatype Option<+T> = None | Some(value: T)
}
