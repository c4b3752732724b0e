/** The optional value shared by the engine and the transaction statistics. */
module Wrappers {
  datatype Option<T> = None | Some(value: T)
}
