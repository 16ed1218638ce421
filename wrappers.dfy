/** The optional value used for "no match", "no file chosen" and "no request sent". */
module Wrappers {
  datatype Option<+T> = None | Some(value: T)
}
