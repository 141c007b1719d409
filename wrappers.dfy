/** The optional value used wherever the analysed code returns a nullable reference. */
module Wrappers {
  datatype Option<+T> = None | Some(value: T)
}
