/** The optional value used for the source's `undefined` arguments and `null` results. */
module Wrappers {

  datatype Option<+T> = None | Some(value: T)
}
