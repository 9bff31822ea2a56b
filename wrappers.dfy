/** An optional value, used for the "absent" result of a neighbour lookup and for parse failures. */
module Wrappers {
  datatype Option<+T> = None | Some(value: T)
}
