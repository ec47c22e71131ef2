// The optional value used for lookups and for the regex match of one line.
module Wrappers {

  datatype Option<+T> = None | Some(value: T)
}
