/** The optional value shared by the parser and the `age` helper. */
module Wrappers {

  datatype Option<T> = None | Some(value: T)
}
