/** The Option datatype used for Python's `None` returns and for failed lookups. */
module Wrappers {

  datatype Option<+T> = None | Some(value: T)
}
