/** The optional value the solver returns: a board, or nothing (Python's None). */
module Wrappers {

  datatype Option<+T> = None | Some(value: T)
}
