/** The Option type used for nullable columns and for operations that can raise. */
module Wrappers {

  datatype Option<+T> = None | Some(value: T)
}
