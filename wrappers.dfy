/** Option: the result of a step that may run out of random draws or fuel. */
module Wrappers {
  datatype Option<T> = None | Some(value: T)
}
