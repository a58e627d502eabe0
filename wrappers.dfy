/** Small value wrappers shared by the other modules. */
module Wrappers {

  /** A value that may be absent; stands for a nullable C pointer. */
  datatype Option<+T> = None | Some(value: T)
}
