/** The optional value used where the Go code returns a nil map or a nil response. */
module Wrappers {

  datatype Option<+T> = None | Some(value: T)

}
