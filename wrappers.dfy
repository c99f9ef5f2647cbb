/** An optional value: a field the request or the stored record may lack, a lookup that finds nothing. */
module Wrappers {
  datatype Option<+T> = None | Some(value: T)
}
