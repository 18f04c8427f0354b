/** The optional value used wherever a database column may be NULL or a lookup may find nothing. */
module Wrappers {
  datatype Option<+T> = None | Some(value: T)
}
