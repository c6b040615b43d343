/** A value that may be absent: an uploaded file that may not be there, a parse that may fail. */
module Wrappers {

  datatype Option<+T> = None | Some(value: T)
}
