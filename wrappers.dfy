/** The optional value used wherever the source has `undefined` for "not there". */
module Wrappers {

  datatype Option<+T> = None | Some(value: T)
}
