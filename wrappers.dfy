/** The optional value used for the store's "may be empty" inputs and lookups. */
module Wrappers {

  datatype Option<+T> = None | Some(value: T)
}
