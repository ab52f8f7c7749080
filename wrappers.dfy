/** The optional value used wherever the Java code returns `Optional` or a nullable reference. */
module Wrappers {

  datatype Option<+T> = None | Some(value: T)

}
