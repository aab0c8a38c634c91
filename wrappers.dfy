/** The optional value used where the source returns a null pointer or an `end()` iterator. */
module Wrappers {

  datatype Option<+T> = None | Some(value: T)
}
