/** An optional value, standing in for a Java reference that may be `null`
    or for an operation that may throw. */
module Wrappers {

  datatype Option<+T> = None | Some(value: T)
}
