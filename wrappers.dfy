/** An optional value: an absent angle or colour, a search that finds nothing, a call that throws. */
module Wrappers {
  datatype Option<T> = None | Some(value: T)
}
