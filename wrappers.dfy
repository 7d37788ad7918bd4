/** Absence of a value: JavaScript's `undefined`/`null` where the source returns or stores one. */
module Wrappers {

  datatype Option<+T> = None | Some(value: T)
}
