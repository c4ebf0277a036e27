/** The optional value used by the lookups of the reconciler. */
module Wrappers {

  datatype Option<+T> = None | Some(value: T)
}
