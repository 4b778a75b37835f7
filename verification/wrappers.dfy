/** An optional value: a lookup that finds nothing, a NULL pointer, an absent member list. */
module Wrappers {

  datatype Option<+T> = None | Some(value: T)

}
