/** The optional value used for every operation that can fail. */
module Wrappers {

  datatype Option<+T> = None | Some(value: T)
}
