/** The Option datatype used for the at-most-one pending timer. */
module Wrappers {

  datatype Option<+T> = None | Some(value: T)

}
