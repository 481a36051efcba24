/** The optional value used wherever the source has a nullable reference or a java.util.Optional. */
module Wrappers {

  datatype Option<+T> = None | Some(value: T)

}
