/** The optional value used wherever the source uses a nullable reference to a value object. */
module Wrappers {

  datatype Option<+T> = None | Some(value: T)
}
