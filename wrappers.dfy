/** A value that may be absent: a missing DOM element, an error without a message. */
module Wrappers {

  datatype Option<+T> = None | Some(value: T)
}
