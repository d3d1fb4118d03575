/** The absence sentinel used throughout: Python's `None` versus a value. */
module Wrappers {

  datatype Option<+T> = None | Some(value: T)
}
