/** The optional value used wherever the analyser returns None or a parse can fail. */
module Wrappers {
  datatype Option<+T> = None | Some(value: T)
}
