/** An optional value: `None` stands for a C NULL throughout the model. */
module Wrappers {

  datatype Option<+T> = None | Some(value: T)
}
