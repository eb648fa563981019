/** The optional value used where the source leaves a field `undefined`
    or a search finds nothing. */
module Wrappers {

  datatype Option<+T> = None | Some(value: T)
}
