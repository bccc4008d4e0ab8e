/** An optional value: a combine-latest slot that has not been filled yet, or a snapshot that is not ready. */
module Wrappers {
  datatype Option<+T> = None | Some(value: T)
}
