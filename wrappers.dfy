/** The optional value used for JavaScript's `undefined`/`null`-able fields. */
module Wrappers {

  datatype Option<+T> = None | Some(value: T)
}
