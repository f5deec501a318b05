/** The optional value used for JavaScript's `null`, a failed fetch and a thrown resolution error. */
module Wrappers {

  datatype Option<+T> = None | Some(value: T)
}
