/** The optional value used where the source catches an exception or tests a
    regular-expression match for `None`. */
module Wrappers {
  datatype Option<T> = None | Some(value: T)
}
