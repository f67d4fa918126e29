/** The optional value used wherever the service answers "nothing" (Python's None). */
module Wrappers {

  datatype Option<+T> = None | Some(value: T)
}
