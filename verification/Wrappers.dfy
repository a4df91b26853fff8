/** The result of a step that calls back at most once: what it called back with, if it did. */
module Wrappers {
  datatype Option<+T> = None | Some(value: T) {
    function ToSeq(): seq<T> {
      match this
      case None => []
      case Some(v) => [v]
    }
  }
}
