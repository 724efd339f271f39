/** The optional value used wherever JavaScript has `undefined`, `NaN` or a thrown exception. */
module Wrappers {
  datatype Option<+T> = None | Some(value: T)
}
