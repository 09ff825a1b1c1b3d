/** The optional value that stands for Python's exceptions and `None` results in this model. */
module Wrappers {

  datatype Option<+T> = None | Some(value: T)

}
