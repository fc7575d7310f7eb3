/** The optional value: a Go `error` that may be nil, and the item `Frontiers` may or may not append for a job. */
module Wrappers {
  datatype Option<+T> = None | Some(value: T)
}
