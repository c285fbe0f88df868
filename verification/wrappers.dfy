/** The optional value used for every provider reply and lookup that may come back empty. */
module Wrappers {

  datatype Option<+T> = None | Some(value: T)
}
