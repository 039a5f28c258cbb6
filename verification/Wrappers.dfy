/** Values that may be absent: a null result, a missing match, an unset handle. */
module Wrappers {
  datatype Option<+T> = None | Some(value: T)
}
