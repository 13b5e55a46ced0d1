/** A stock optional-value datatype, used where the Go code can panic or yields nil. */
module Wrappers {
  datatype Option<+T> = None | Some(value: T)
}
