/** The optional value used for JavaScript's `undefined`, a failed parse and an unselected answer. */
module Wrappers {

  datatype Option<+T> = None | Some(value: T)
}
