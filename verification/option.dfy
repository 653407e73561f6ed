/** An optional value, used where a program stops with an error message
    instead of producing a result. */
module Opt {
  datatype Option<T> = None | Some(value: T)
}
