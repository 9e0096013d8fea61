/** The optional value used wherever the source may find nothing (a missing
    row, a substring that does not occur, a dictionary `get` that misses). */
module Wrappers {

  datatype Option<+T> = None | Some(value: T)
}
