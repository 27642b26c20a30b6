/** The optional value used for the operations of the source that can raise. */
module Wrappers {
  datatype Option<T> = None | Some(value: T)
}
