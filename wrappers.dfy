/** The Option type used for the parsers' `null` results. */
module Wrappers {
  datatype Option<+T> = None | Some(value: T)
}
