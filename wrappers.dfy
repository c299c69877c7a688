/** The optional value used where the Go code returns a nil-able pointer or a nil-able error. */
module Wrappers {

  datatype Option<+T> = None | Some(value: T)
}
