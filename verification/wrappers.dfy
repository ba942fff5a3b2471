/** The optional value used wherever the source can fail to produce a result
    (a text that is not an integer, a line that does not have the expected shape). */
module Wrappers {

  datatype Option<+T> = None | Some(value: T)
}
