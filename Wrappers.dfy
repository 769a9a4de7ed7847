/** The optional result the archive writer returns as `T | null`. */
module Wrappers {

  datatype Option<+T> = None | Some(value: T)
}
