/** The optional-value datatype used for `T | null` in the client. */
module Wrappers {

  datatype Option<+T> = None | Some(value: T)
}
