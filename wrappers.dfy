/** The optional value used for "no row", "no match" and "the handler raised". */
module Wrappers {

  datatype Option<T> = None | Some(value: T)
}
