/** The optional value shared by the request, database and schema modules. */
module Wrappers {
  datatype Option<T> = None | Some(value: T)
}
