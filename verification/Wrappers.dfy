/** Values that may be absent: Go's nil, a map miss, or a call that returned an error. */
module Wrappers {
  datatype Option<+T> = None | Some(value: T)
}
