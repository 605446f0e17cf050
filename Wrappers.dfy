/** The optional value used for absent fields and failed conversions. */
module Wrappers {
  datatype Option<+T> = None | Some(value: T)
}
