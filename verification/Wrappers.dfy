/** A value that may be absent. */
module Wrappers {

  datatype Maybe<T> = Nothing | Just(value: T)
}
