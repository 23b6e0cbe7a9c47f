/** The optional value used for the source's `undefined` fields and for regex results that may be `null`. */
module Wrappers {
  datatype Option<+T> = None | Some(value: T)
}
