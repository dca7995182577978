/** The optional result of a lookup: Python's `None` or a found value. */
module Wrappers {

  datatype Option<+T> = None | Some(value: T)
}
