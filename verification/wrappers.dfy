/** The optional-value type the parser returns: `Some` on a match, `None` for
    "could not understand the command". */
module Wrappers {

  datatype Option<+T> = None | Some(value: T)

}
