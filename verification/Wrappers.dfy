/** A value that may be missing: Python's `None`, or SQL's NULL. */
module Wrappers {

  datatype Option<+T> = None | Some(value: T)
}
