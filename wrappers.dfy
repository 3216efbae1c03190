/** The optional value used wherever the watcher stores `null` or a property may be absent. */
module Wrappers {
  datatype Option<+T> = None | Some(value: T)
}
