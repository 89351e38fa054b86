/** The optional value used where the source has `undefined` or a thrown exception. */
module Wrappers {

  datatype Option<+T> = None | Some(value: T)
}
