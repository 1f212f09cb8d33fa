/** The Option type used for the results the source signals with None or an exception. */
module Wrappers {

  datatype Option<+T> = None | Some(value: T)
}
