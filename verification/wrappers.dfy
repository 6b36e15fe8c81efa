/** A value that JavaScript may leave `undefined`: optional chaining and `find` both yield one. */
module Wrappers {
  datatype Option<+T> = None | Some(value: T)
}
