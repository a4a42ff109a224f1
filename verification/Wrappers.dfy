// The one sum type every component shares.
module Wrappers {
  datatype Option<+T> = None | Some(value: T)
}
