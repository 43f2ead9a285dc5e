/** The optional value shared by the id parser and the backend's row fetch. */
module Wrappers {

  datatype Option<T> = None | Some(value: T)
}
