/** The usual optional value, used where the source returns `null` or a parse can fail. */
module Wrappers {

  datatype Option<+T> = None | Some(value: T)
}
