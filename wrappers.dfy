/** The optional result used where the source raises an exception (an index
    past the end of a list, a failed `assert`). */
module Wrappers {
  datatype Option<T> = None | Some(value: T)
}
