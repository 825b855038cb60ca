/** The optional value used wherever the source returns `None` for a value
    that is absent or could not be parsed. */
module Wrappers {

  datatype Option<+T> = None | Some(value: T)
}
