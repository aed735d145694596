/** The optional value used for rejected notifications and unparsable lines. */
module Wrappers {

  datatype Option<+T> = None | Some(value: T)
}
