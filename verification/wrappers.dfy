/** The optional value used for a coercion that may fail and for a nullable column. */
module Wrappers {

  datatype Option<+T> = None | Some(value: T)
}
