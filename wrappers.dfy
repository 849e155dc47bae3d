/** The optional value used wherever the program returns `None` or skips. */
module Wrappers {

  datatype Option<+T> = None | Some(value: T)
}
