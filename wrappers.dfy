/** The optional value used wherever the source returns `None` or an element may be absent. */
module Wrappers {
  datatype Option<+T> = None | Some(value: T)
}
