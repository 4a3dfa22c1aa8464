/** The optional value used where the source returns NULL or `npos`. */
module Wrappers {
  datatype Option<+T> = None | Some(value: T)
}
