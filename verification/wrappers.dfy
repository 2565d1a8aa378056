/** The optional value used for missing fields and failed matches. */
module Wrappers {

  datatype Option<T> = None | Some(value: T)
}
