/** The optional value used throughout the model: `None` stands for a
    JavaScript `undefined` (a missing property) or a `null` object. */
module Wrappers {

  datatype Option<+T> = None | Some(value: T)
}
