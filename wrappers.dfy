/** The Option type used for nullable values: a `string?` query parameter, a
    `Tasks?` lookup result, a cache read that may miss. */
module Wrappers {
  datatype Option<+T> = None | Some(value: T)
}
