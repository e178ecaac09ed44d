/** The optional value used for "no intent" and "no header found". */
module Wrappers {

  datatype Option<+T> = None | Some(value: T)
}
