/** The optional value used for "nothing selected" and "element does not qualify". */
module Wrappers {
  datatype Option<+T> = None | Some(value: T)
}
