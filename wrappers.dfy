/** The optional value used wherever the Java code returns an Optional or may return null. */
module Wrappers {

  datatype Option<+T> = None | Some(value: T)
}
