/** The optional value used for `undefined` results (a missing map entry, an absent body). */
module Wrappers {
  datatype Option<+T> = None | Some(value: T)
}
