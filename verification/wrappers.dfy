/** A value that may be absent: the model's counterpart of a nullable result. */
module Wrappers {

  datatype Option<+T> = None | Some(value: T)

}
